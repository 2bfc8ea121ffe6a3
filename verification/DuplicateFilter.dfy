/** The bounded memory of message ids, identical on both sides (clientConnection.duplicate in
    internal/server/websocket/server.go and Peer.seen in internal/client/peer/peer.go). */
module DuplicateFilter {
  import opened Names

  /** The set answers lookups, the queue remembers the order to forget in. */
  datatype Memory = Memory(ids: set<Name>, order: seq<Name>)

  const NOTHING := Memory({}, [])

  function Observe(limit: nat, m: Memory, id: Name): (Memory, bool) {
    if id in m.ids then (m, true)
    else
      var ids, order := m.ids + {id}, m.order + [id];
      if |order| > limit then (Memory(ids - {order[0]}, order[1..]), false) else (Memory(ids, order), false)
  }

  function After(limit: nat, history: seq<Name>): Memory {
    if history == [] then NOTHING else Observe(limit, After(limit, history[..|history| - 1]), history[|history| - 1]).0
  }

  predicate Duplicate(limit: nat, history: seq<Name>, id: Name) {
    Observe(limit, After(limit, history), id).1
  }

  /** The ids that were let through, all of them, in order. */
  function Admitted(limit: nat, history: seq<Name>): seq<Name> {
    if history == [] then []
    else
      var earlier, last := history[..|history| - 1], history[|history| - 1];
      if Duplicate(limit, earlier, last) then Admitted(limit, earlier) else Admitted(limit, earlier) + [last]
  }

  function Latest(limit: nat, s: seq<Name>): seq<Name> {
    if |s| <= limit then s else s[|s| - limit..]
  }

  ghost predicate Distinct(s: seq<Name>) {
    forall i, j | 0 <= i < j < |s| :: s[i] != s[j]
  }

  /** Set and queue hold the same distinct ids. */
  ghost predicate Consistent(m: Memory) {
    Distinct(m.order) && (forall id :: id in m.ids <==> id in m.order)
  }

  lemma AddLast(m: Memory, id: Name)
    requires Consistent(m) && id !in m.ids
    ensures Consistent(Memory(m.ids + {id}, m.order + [id]))
  {
    var order := m.order + [id];
    assert forall i | 0 <= i < |m.order| :: order[i] in m.order;
    assert forall x :: x in order <==> x in m.order || x == id;
  }

  lemma DropFirst(m: Memory)
    requires Consistent(m) && m.order != []
    ensures Consistent(Memory(m.ids - {m.order[0]}, m.order[1..]))
  {
    var first, kept := m.order[0], m.order[1..];
    assert m.order == [first] + kept;
    assert forall i | 0 <= i < |kept| :: kept[i] == m.order[i + 1] != first;
  }

  lemma ObserveIsConsistent(limit: nat, m: Memory, id: Name)
    requires Consistent(m)
    ensures Consistent(Observe(limit, m, id).0)
  {
    if id !in m.ids {
      AddLast(m, id);
      DropFirst(Memory(m.ids + {id}, m.order + [id]));
    }
  }

  lemma LatestOfExtended(limit: nat, s: seq<Name>, id: Name)
    ensures Latest(limit, s + [id])
         == var order := Latest(limit, s) + [id]; if |order| > limit then order[1..] else order
  {
  }

  /** The memory is exactly the last `limit` admitted ids, in both its representations. */
  lemma {:induction false} MemoryIsTheLatest(limit: nat, history: seq<Name>)
    ensures Consistent(After(limit, history))
    ensures After(limit, history).order == Latest(limit, Admitted(limit, history))
  {
    if history != [] {
      var earlier, last := history[..|history| - 1], history[|history| - 1];
      MemoryIsTheLatest(limit, earlier);
      ObserveIsConsistent(limit, After(limit, earlier), last);
      if !Duplicate(limit, earlier, last) {
        LatestOfExtended(limit, Admitted(limit, earlier), last);
      }
    }
  }

  /** An id is reported a duplicate exactly when it is among the last `limit` admitted. */
  lemma {:induction false} DuplicateIffRecent(limit: nat, history: seq<Name>, id: Name)
    ensures Duplicate(limit, history, id) <==> id in Latest(limit, Admitted(limit, history))
    ensures |After(limit, history).order| <= limit
  {
    MemoryIsTheLatest(limit, history);
  }

  class Filter {
    const seenLimit: nat
    var seenIDs: set<Name>
    var seenOrder: seq<Name>

    constructor (seenLimit: nat)
      ensures this.seenLimit == seenLimit && Memory(seenIDs, seenOrder) == NOTHING
    {
      this.seenLimit, seenIDs, seenOrder := seenLimit, {}, [];
    }

    method Seen(id: Name) returns (duplicate: bool)
      modifies this
      ensures (Memory(seenIDs, seenOrder), duplicate) == Observe(seenLimit, old(Memory(seenIDs, seenOrder)), id)
    {
      if id in seenIDs { return true; }
      seenIDs := seenIDs + {id};
      seenOrder := seenOrder + [id];
      if |seenOrder| > seenLimit {
        var oldest := seenOrder[0];
        seenOrder := seenOrder[1..];
        seenIDs := seenIDs - {oldest};
      }
      return false;
    }
  }
}
