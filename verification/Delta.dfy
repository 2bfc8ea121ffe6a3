/** Run-length deltas between two frames (internal/client/asciivideo/codec.go). */
module Delta {
  import opened Bytes

  const MAX_RUN := 0xffff
  const ENTRY_HEADER := 6

  /** What applying a payload leaves behind: the cells are changed even when it fails half way. */
  datatype Applied = Applied(ok: bool, cells: seq<Byte>)

  function Entry(start: nat, cells: seq<Byte>): (entry: seq<Byte>)
    ensures |entry| == ENTRY_HEADER + |cells|
  {
    BigEndian(start, 4) + BigEndian(|cells|, 2) + cells
  }

  /** Where the changed stretch that begins at `start` ends, cut after MAX_RUN cells. */
  function RunEnd(previous: seq<Byte>, current: seq<Byte>, start: nat, index: nat): (end: nat)
    requires |previous| == |current|
    requires start <= index <= |current| && index - start <= MAX_RUN
    ensures index <= end <= |current| && end - start <= MAX_RUN
    ensures forall i | index <= i < end :: current[i] != previous[i]
    ensures end < |current| && end - start < MAX_RUN ==> current[end] == previous[end]
    decreases |current| - index
  {
    if index < |current| && current[index] != previous[index] && index - start < MAX_RUN
    then RunEnd(previous, current, start, index + 1)
    else index
  }

  /** The entries for the changes at or after `index`. */
  function Runs(previous: seq<Byte>, current: seq<Byte>, index: nat): seq<Byte>
    requires |previous| == |current| && index <= |current|
    decreases |current| - index
  {
    if index == |current| then []
    else if current[index] == previous[index] then Runs(previous, current, index + 1)
    else
      var end := RunEnd(previous, current, index, index);
      Entry(index, current[index..end]) + Runs(previous, current, end)
  }

  function Payload(previous: seq<Byte>, current: seq<Byte>): seq<Byte> {
    if |previous| != |current| then [] else Runs(previous, current, 0)
  }

  function Overwrite(cells: seq<Byte>, start: nat, run: seq<Byte>): (updated: seq<Byte>)
    requires start + |run| <= |cells|
    ensures |updated| == |cells|
  {
    cells[..start] + run + cells[start + |run|..]
  }

  /** The first entry of a payload, if it is whole and fits a buffer of `size` cells. */
  datatype Parsed = Bad | Run(start: nat, run: seq<Byte>, rest: seq<Byte>)

  function Parse(payload: seq<Byte>, size: nat): (parsed: Parsed)
    ensures parsed.Run? ==> parsed.start + |parsed.run| <= size && |parsed.rest| < |payload|
  {
    if |payload| < ENTRY_HEADER then Bad
    else
      var start, length, rest := Uint(payload[..4]), Uint(payload[4..6]), payload[6..];
      if length == 0 || length > |rest| || start > size - length then Bad
      else Run(start, rest[..length], rest[length..])
  }

  function Apply(cells: seq<Byte>, payload: seq<Byte>): (applied: Applied)
    ensures |applied.cells| == |cells|
    decreases |payload|
  {
    if payload == [] then Applied(true, cells)
    else
      match Parse(payload, |cells|)
      case Bad => Applied(false, cells)
      case Run(start, run, rest) => Apply(Overwrite(cells, start, run), rest)
  }

  /** Reading an entry back finds exactly its run. */
  lemma ParseEntry(start: nat, run: seq<Byte>, rest: seq<Byte>, size: nat)
    requires 0 < |run| <= MAX_RUN && start + |run| <= size <= 0x1_0000_0000
    ensures Parse(Entry(start, run) + rest, size) == Run(start, run, rest)
  {
    var payload := Entry(start, run) + rest;
    assert Uint(BigEndian(start, 4)) == start && Uint(BigEndian(|run|, 2)) == |run| by {
      CapacityOfFields();
      UintOfBigEndian(start, 4);
      UintOfBigEndian(|run|, 2);
    }
    assert payload[..4] == BigEndian(start, 4);
    assert payload[4..6] == BigEndian(|run|, 2);
    assert payload[6..] == run + rest;
  }

  /** What a delta makes of a buffer, cell by cell: changed cells are replaced, the others stay whatever they were. */
  function Patched(base: seq<Byte>, previous: seq<Byte>, current: seq<Byte>): (patched: seq<Byte>)
    requires |base| == |previous| == |current|
    ensures |patched| == |current|
    ensures forall i | 0 <= i < |patched| :: patched[i] == if current[i] != previous[i] then current[i] else base[i]
  {
    seq(|current|, i requires 0 <= i < |current| => if current[i] != previous[i] then current[i] else base[i])
  }

  /** From a buffer already patched below `index`, the remaining entries patch the rest. */
  lemma {:induction false} ApplyRuns(
      base: seq<Byte>, previous: seq<Byte>, current: seq<Byte>, index: nat, mixed: seq<Byte>)
    requires |base| == |previous| == |current| <= 0x1_0000_0000 && index <= |current|
    requires mixed == Patched(base, previous, current)[..index] + base[index..]
    ensures Apply(mixed, Runs(previous, current, index)) == Applied(true, Patched(base, previous, current))
    decreases |current| - index
  {
    var patched := Patched(base, previous, current);
    if index == |current| {
    } else if current[index] == previous[index] {
      assert mixed == patched[..index + 1] + base[index + 1..];
      ApplyRuns(base, previous, current, index + 1, mixed);
    } else {
      var end := RunEnd(previous, current, index, index);
      var updated := Overwrite(mixed, index, current[index..end]);
      assert updated == patched[..end] + base[end..];
      ApplyRuns(base, previous, current, end, updated);
      ParseEntry(index, current[index..end], Runs(previous, current, end), |mixed|);
    }
  }

  /** On any buffer of the frames' size, the payload made from two frames succeeds and patches exactly the cells in
      which they differ. */
  lemma DeltaPatches(base: seq<Byte>, previous: seq<Byte>, current: seq<Byte>)
    requires |base| == |previous| == |current| <= 0x1_0000_0000
    ensures Apply(base, Payload(previous, current)) == Applied(true, Patched(base, previous, current))
  {
    assert base == Patched(base, previous, current)[..0] + base[0..];
    ApplyRuns(base, previous, current, 0, base);
  }

  /** The delta law: the payload made from two frames turns the first into the second. */
  lemma DeltaRoundTrip(previous: seq<Byte>, current: seq<Byte>)
    requires |previous| == |current| <= 0x1_0000_0000
    ensures Apply(previous, Payload(previous, current)) == Applied(true, current)
  {
    DeltaPatches(previous, previous, current);
    assert Patched(previous, previous, current) == current;
  }

  // ---- a payload as a list of writes ----

  /** One whole entry. */
  datatype Write = Write(start: nat, run: seq<Byte>) {
    function End(): nat {
      start + |run|
    }

    predicate Covers(i: int) {
      start <= i < End()
    }
  }

  /** The entries before the first bad one. */
  function Writes(payload: seq<Byte>, size: nat): (writes: seq<Write>)
    ensures forall k | 0 <= k < |writes| :: writes[k].End() <= size
    decreases |payload|
  {
    if payload == [] then []
    else
      match Parse(payload, size)
      case Bad => []
      case Run(start, run, rest) => [Write(start, run)] + Writes(rest, size)
  }

  predicate WellFormed(payload: seq<Byte>, size: nat)
    decreases |payload|
  {
    payload == []
    || match Parse(payload, size)
       case Bad => false
       case Run(_, _, rest) => WellFormed(rest, size)
  }

  function Written(cell: Byte, w: Write, i: nat): Byte {
    if w.Covers(i) then w.run[i - w.start] else cell
  }

  /** A cell after some writes: the last write that covers it decides. */
  function CellAfter(cell: Byte, writes: seq<Write>, i: nat): Byte
    decreases |writes|
  {
    if writes == [] then cell else CellAfter(Written(cell, writes[0], i), writes[1..], i)
  }

  /** Applying a payload succeeds exactly when it is well formed, whatever the buffer holds, and performs all writes
      before the first bad entry either way. */
  lemma {:induction false} ApplyPerformsWrites(cells: seq<Byte>, payload: seq<Byte>)
    ensures Apply(cells, payload).ok == WellFormed(payload, |cells|)
    ensures forall i | 0 <= i < |cells| ::
              Apply(cells, payload).cells[i] == CellAfter(cells[i], Writes(payload, |cells|), i)
    decreases |payload|
  {
    if payload != [] && Parse(payload, |cells|).Run? {
      var Run(start, run, rest) := Parse(payload, |cells|);
      var updated, writes := Overwrite(cells, start, run), Writes(payload, |cells|);
      ApplyPerformsWrites(updated, rest);
      assert writes[0] == Write(start, run) && writes[1..] == Writes(rest, |cells|);
      assert forall i | 0 <= i < |cells| :: updated[i] == Written(cells[i], writes[0], i);
    }
  }

  /** How many cells differ at or after `index`. */
  ghost function Changed(previous: seq<Byte>, current: seq<Byte>, index: nat): nat
    requires |previous| == |current| && index <= |current|
    decreases |current| - index
  {
    if index == |current| then 0
    else (if current[index] != previous[index] then 1 else 0) + Changed(previous, current, index + 1)
  }

  lemma {:induction false} ChangedStretch(previous: seq<Byte>, current: seq<Byte>, index: nat, end: nat)
    requires |previous| == |current| && index <= end <= |current|
    requires forall i | index <= i < end :: current[i] != previous[i]
    ensures Changed(previous, current, index) == end - index + Changed(previous, current, end)
    decreases end - index
  {
    if index < end {
      ChangedStretch(previous, current, index + 1, end);
    }
  }

  /** A write carries a stretch of the new frame in which every cell has changed. */
  predicate CarriesChanges(previous: seq<Byte>, current: seq<Byte>, w: Write)
    requires |previous| == |current|
  {
    && 0 < |w.run| <= 0xffff && w.End() <= |current|
    && w.run == current[w.start..w.End()]
    && forall i | w.start <= i < w.End() :: current[i] != previous[i]
  }

  /** In order and disjoint, and touching only where a stretch had to be cut. */
  predicate Before(w: Write, later: Write) {
    w.End() <= later.start && (w.End() == later.start ==> |w.run| == 0xffff)
  }

  /** The writes carry exactly the cells at or after `index` that have changed, each once. */
  ghost predicate CarriesAllChanges(previous: seq<Byte>, current: seq<Byte>, index: nat, writes: seq<Write>)
    requires |previous| == |current|
  {
    && (forall k | 0 <= k < |writes| :: index <= writes[k].start && CarriesChanges(previous, current, writes[k]))
    && (forall k, l | 0 <= k < l < |writes| :: Before(writes[k], writes[l]))
    && (forall i | index <= i < |current| && current[i] != previous[i] ::
          exists k :: 0 <= k < |writes| && writes[k].Covers(i))
  }

  lemma CarryMore(
      previous: seq<Byte>, current: seq<Byte>, index: nat, end: nat, writes: seq<Write>)
    requires |previous| == |current| && index < end <= |current| && end - index <= MAX_RUN
    requires forall i | index <= i < end :: current[i] != previous[i]
    requires end < |current| && end - index < MAX_RUN ==> current[end] == previous[end]
    requires CarriesAllChanges(previous, current, end, writes)
    ensures CarriesAllChanges(previous, current, index, [Write(index, current[index..end])] + writes)
  {
    var w := Write(index, current[index..end]);
    var more := [w] + writes;
    assert forall k | 0 < k < |more| :: more[k] == writes[k - 1];
    forall k | 0 <= k < |writes| ensures Before(w, writes[k]) {
      assert CarriesChanges(previous, current, writes[k]) && writes[k].Covers(writes[k].start);
    }
    forall i | index <= i < |current| && current[i] != previous[i]
      ensures exists k :: 0 <= k < |more| && more[k].Covers(i)
    {
      if i < end {
        assert more[0].Covers(i);
      } else {
        var k :| 0 <= k < |writes| && writes[k].Covers(i);
        assert more[k + 1].Covers(i);
      }
    }
  }

  lemma CarrySame(previous: seq<Byte>, current: seq<Byte>, index: nat, writes: seq<Write>)
    requires |previous| == |current| && index < |current| && current[index] == previous[index]
    requires CarriesAllChanges(previous, current, index + 1, writes)
    ensures CarriesAllChanges(previous, current, index, writes)
  {
  }

  lemma {:induction false} FirstWrite(start: nat, run: seq<Byte>, rest: seq<Byte>, size: nat)
    requires 0 < |run| <= MAX_RUN && start + |run| <= size <= 0x1_0000_0000
    ensures Writes(Entry(start, run) + rest, size) == [Write(start, run)] + Writes(rest, size)
    ensures WellFormed(Entry(start, run) + rest, size) == WellFormed(rest, size)
  {
    ParseEntry(start, run, rest, size);
  }

  /** Deltas carry every changed cell once and nothing else: the entries are disjoint stretches that cover exactly
      the changed cells, cut only where they must be, and cost one byte a cell and one header an entry. */
  lemma {:induction false} RunsAreCompact(previous: seq<Byte>, current: seq<Byte>, index: nat)
    requires |previous| == |current| <= 0x1_0000_0000 && index <= |current|
    ensures var payload := Runs(previous, current, index);
            var writes := Writes(payload, |current|);
            && WellFormed(payload, |current|)
            && CarriesAllChanges(previous, current, index, writes)
            && |payload| == Changed(previous, current, index) + 6 * |writes|
    decreases |current| - index
  {
    if index < |current| {
      if current[index] == previous[index] {
        RunsAreCompact(previous, current, index + 1);
        CarrySame(previous, current, index, Writes(Runs(previous, current, index + 1), |current|));
      } else {
        var end := RunEnd(previous, current, index, index);
        var rest := Runs(previous, current, end);
        ChangedStretch(previous, current, index, end);
        RunsAreCompact(previous, current, end);
        FirstWrite(index, current[index..end], rest, |current|);
        CarryMore(previous, current, index, end, Writes(rest, |current|));
      }
    }
  }

  method MakeEntry(start: nat, run: seq<Byte>) returns (entry: array<Byte>)
    ensures fresh(entry) && entry[..] == Entry(start, run)
  {
    entry := new Byte[ENTRY_HEADER + |run|];
    Copy(entry, 0, BigEndian(start, 4));
    Copy(entry, 4, BigEndian(|run|, 2));
    Copy(entry, ENTRY_HEADER, run);
  }

  method EncodeDelta(previous: seq<Byte>, current: seq<Byte>) returns (result: seq<Byte>)
    ensures result == Payload(previous, current)
  {
    result := [];
    if |previous| != |current| { return; }
    var index := 0;
    while index < |current|
      invariant index <= |current|
      invariant result + Runs(previous, current, index) == Payload(previous, current)
    {
      if current[index] == previous[index] {
        index := index + 1;
        continue;
      }
      var start := index;
      while index < |current| && current[index] != previous[index] && index - start < MAX_RUN
        invariant start <= index <= |current| && index - start <= MAX_RUN
        invariant RunEnd(previous, current, start, index) == RunEnd(previous, current, start, start)
      {
        index := index + 1;
      }
      var entry := MakeEntry(start, current[start..index]);
      assert Runs(previous, current, start) == entry[..] + Runs(previous, current, index);
      result := result + entry[..];
    }
  }

  /** Writes the runs into the cell buffer in place; whatever the payload, it stays inside the buffer. */
  method ApplyDelta(cells: array<Byte>, payload: seq<Byte>) returns (ok: bool)
    modifies cells
    ensures Applied(ok, cells[..]) == Apply(old(cells[..]), payload)
  {
    var rest := payload;
    while |rest| > 0
      invariant Apply(cells[..], rest) == Apply(old(cells[..]), payload)
      decreases |rest|
    {
      if |rest| < ENTRY_HEADER { return false; }
      var start, length := Uint(rest[..4]), Uint(rest[4..6]);
      rest := rest[ENTRY_HEADER..];
      if length == 0 || length > |rest| || start > cells.Length - length { return false; }
      ghost var before := cells[..];
      Copy(cells, start, rest[..length]);
      assert cells[..] == Overwrite(before, start, rest[..length]);
      rest := rest[length..];
    }
    return true;
  }
}
