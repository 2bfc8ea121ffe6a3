/** The daemon's handoff of incoming calls to local call windows (internal/client/daemon/daemon.go): each locked
    section is one operation. */
module Daemon {
  import opened Clock
  import opened Names
  import opened InviteLog

  /** A signaling connection, and a call window's connection to the daemon's socket. */
  type Client = nat
  type Peer = nat

  datatype Option<+T> = None | Some(value: T)

  datatype Behavior = OpenTerminal | PrintOnly | Ignore

  datatype Config = Config(doNotDisturb: bool, behavior: Behavior) {
    predicate Silent() {
      doNotDisturb || behavior == Ignore
    }
  }

  /** An invitation waiting for an answer; `claimed` while a call window has taken it on. */
  datatype Pending = Pending(from: Name, claimed: bool)

  datatype State = State(signal: Option<Client>, pending: map<Name, Pending>, sessions: map<Name, Peer>)

  const INITIAL := State(None, map[], map[])

  datatype Outcome = Duplicate | Declined | Announced

  // ---- the locked sections on values ----

  /** The limiter has already answered, so even a duplicate has used up its admission. */
  function AddInvitation(config: Config, d: State, id: Name, from: Name, allowed: bool): (State, Outcome) {
    if id in d.pending then (d, Duplicate)
    else if !allowed || config.Silent() then (d, Declined)
    else (d.(pending := d.pending[id := Pending(from, false)]), Announced)
  }

  /** Whom a signal about a call is handed to. */
  function Recipient(d: State, id: Name): Option<Peer> {
    if id in d.sessions then Some(d.sessions[id]) else None
  }

  /** A signal that ends the call forgets it. */
  function Receive(d: State, id: Name, terminal: bool): State {
    if terminal then d.(pending := d.pending - {id}, sessions := d.sessions - {id}) else d
  }

  predicate Available(d: State, id: Name) {
    id in d.pending && !d.pending[id].claimed && d.signal.Some?
  }

  function Claim(d: State, id: Name, p: Peer): State
    requires id in d.pending
  {
    d.(pending := d.pending[id := d.pending[id].(claimed := true)], sessions := d.sessions[id := p])
  }

  function Attach(d: State, id: Name, p: Peer): (State, bool) {
    if Available(d, id) then (Claim(d, id, p), true) else (d, false)
  }

  /** A message from a call window must be addressed to the caller of a call that is still pending. */
  predicate ForCaller(d: State, id: Name, to: Name) {
    id in d.pending && d.pending[id].from == to
  }

  /** The window has declined or ended the call. */
  function Drop(d: State, id: Name): State {
    d.(pending := d.pending - {id})
  }

  predicate Owns(d: State, id: Name, p: Peer) {
    id in d.sessions && d.sessions[id] == p
  }

  function Unclaim(pending: map<Name, Pending>, id: Name): map<Name, Pending> {
    if id in pending then pending[id := pending[id].(claimed := false)] else pending
  }

  function Release(d: State, id: Name, p: Peer): State {
    if Owns(d, id, p) then d.(pending := Unclaim(d.pending, id), sessions := d.sessions - {id}) else d
  }

  function SetSignal(d: State, client: Client): State {
    d.(signal := Some(client))
  }

  function ClearSignal(d: State, client: Client): State {
    if d.signal == Some(client) then INITIAL else d
  }

  // ---- the goroutines ----

  /** Where the goroutine of a call window's connection is. */
  datatype Phase =
    | Waiting                                       // no handoff request yet
    | Attached(id: Name)                            // reading the window's next message
    | Checking(id: Name, last: bool)                // the message is valid; `last` if it declines or ends the call
    | Sending(id: Name, client: Client, last: bool)
    | Dropping(id: Name)
    | Leaving(id: Name)                             // release still to come
    | Gone

  /** `link` is what the signaling goroutine knows; only it sets and clears the signal. */
  datatype World = World(d: State, link: Option<Client>, peers: map<Peer, Phase>)

  const START := World(INITIAL, None, map[])

  datatype Step =
    | Dial(client: Client)
    | Lose
    | Incoming(id: Name, from: Name, allowed: bool)
    | Hear(id: Name, terminal: bool)
    | Open(p: Peer)
    | Request(p: Peer, id: Name)
    | Say(p: Peer, to: Name, wellFormed: bool, last: bool)
    | Check(p: Peer)
    | Send(p: Peer, sent: bool)
    | Forget(p: Peer)
    | Quit(p: Peer)
    | Let(p: Peer)

  predicate OfPeer(step: Step) {
    !step.Dial? && !step.Lose? && !step.Incoming? && !step.Hear?
  }

  function Next(config: Config, w: World, step: Step): World {
    match step
    case Dial(client) => if w.link.None? then w.(d := SetSignal(w.d, client), link := Some(client)) else w
    case Lose => if w.link.Some? then w.(d := ClearSignal(w.d, w.link.value), link := None) else w
    case Incoming(id, from, allowed) =>
      if w.link.Some? then w.(d := AddInvitation(config, w.d, id, from, allowed).0) else w
    case Hear(id, terminal) => if w.link.Some? then w.(d := Receive(w.d, id, terminal)) else w
    case Open(p) => if p in w.peers then w else w.(peers := w.peers[p := Waiting])
    case _ => if step.p in w.peers then Act(w, step, w.peers[step.p]) else w
  }

  function Goto(w: World, p: Peer, phase: Phase): World {
    w.(peers := w.peers[p := phase])
  }

  function Act(w: World, step: Step, phase: Phase): World
    requires OfPeer(step) && step.p in w.peers
  {
    match step
    case Request(p, id) =>
      if !phase.Waiting? then w
      else if Available(w.d, id) then Goto(w.(d := Claim(w.d, id, p)), p, Attached(id))
      else Goto(w, p, Gone)
    case Say(p, to, wellFormed, last) =>
      if phase.Attached? && wellFormed && ForCaller(w.d, phase.id, to) then Goto(w, p, Checking(phase.id, last)) else w
    case Check(p) =>
      if !phase.Checking? then w
      else if w.d.signal.None? || phase.id !in w.d.pending then Goto(w, p, Leaving(phase.id))
      else Goto(w, p, Sending(phase.id, w.d.signal.value, phase.last))
    case Send(p, sent) =>
      if !phase.Sending? then w
      else if !sent then Goto(w, p, Leaving(phase.id))
      else if phase.last then Goto(w, p, Dropping(phase.id))
      else Goto(w, p, Attached(phase.id))
    case Forget(p) =>
      if !phase.Dropping? then w else Goto(w.(d := Drop(w.d, phase.id)), p, Leaving(phase.id))
    case Quit(p) =>
      if phase.Waiting? then Goto(w, p, Gone)
      else if phase.Attached? then Goto(w, p, Leaving(phase.id))
      else w
    case Let(p) =>
      if !phase.Leaving? then w else Goto(w.(d := Release(w.d, phase.id, p)), p, Gone)
    case _ => w
  }

  function RunFrom(config: Config, w: World, steps: seq<Step>): World {
    if steps == [] then w else Next(config, RunFrom(config, w, steps[..|steps| - 1]), steps[|steps| - 1])
  }

  // ---- the invariant ----

  /** Attached to this call and not yet released. */
  predicate Bound(phase: Phase, id: Name) {
    (phase.Attached? || phase.Checking? || phase.Sending? || phase.Dropping? || phase.Leaving?) && phase.id == id
  }

  ghost predicate SessionsFit(w: World) {
    forall id | id in w.d.sessions :: w.d.sessions[id] in w.peers && Bound(w.peers[w.d.sessions[id]], id)
  }

  ghost predicate ClaimsFit(d: State) {
    forall id | id in d.pending && d.pending[id].claimed :: id in d.sessions
  }

  ghost predicate Inv(w: World) {
    && w.d.signal == w.link
    && (w.d.signal.None? ==> w.d == INITIAL)
    && SessionsFit(w)
    && ClaimsFit(w.d)
  }

  lemma ActKeeps(w: World, step: Step, phase: Phase)
    requires Inv(w) && OfPeer(step) && step.p in w.peers && phase == w.peers[step.p]
    ensures Inv(Act(w, step, phase))
  {
    if step.Let? && phase.Leaving? && !Owns(w.d, phase.id, step.p) {
      assert forall id :: id in w.d.sessions ==> w.d.sessions[id] != step.p;
    }
  }

  lemma NextKeeps(config: Config, w: World, step: Step)
    requires Inv(w)
    ensures Inv(Next(config, w, step))
  {
    if OfPeer(step) && step.p in w.peers {
      ActKeeps(w, step, w.peers[step.p]);
    }
  }

  lemma {:induction false} EveryRunKeeps(config: Config, w: World, steps: seq<Step>)
    requires Inv(w)
    ensures Inv(RunFrom(config, w, steps))
  {
    if steps != [] {
      EveryRunKeeps(config, w, steps[..|steps| - 1]);
      NextKeeps(config, RunFrom(config, w, steps[..|steps| - 1]), steps[|steps| - 1]);
    }
  }

  // ---- what it means ----

  /** Under every interleaving: a claimed call has a session, every session (and so every recipient of a signal)
      belongs to a window attached to that very call and not yet released, and while there is no signal there is
      nothing pending and no session. The signal is always the signaling goroutine's own connection, so the guard
      in clearSignal never turns it away. */
  lemma ClaimedCallsAreOwned(config: Config, steps: seq<Step>)
    ensures var w := RunFrom(config, START, steps);
            && (forall id | id in w.d.pending && w.d.pending[id].claimed :: Recipient(w.d, id).Some?)
            && (forall id | Recipient(w.d, id).Some? ::
                  Recipient(w.d, id).value in w.peers && Bound(w.peers[Recipient(w.d, id).value], id))
            && (w.d.signal.None? ==> w.d.pending == map[] && w.d.sessions == map[])
            && (w.link.Some? ==> ClearSignal(w.d, w.link.value) == INITIAL)
  {
    EveryRunKeeps(config, START, steps);
  }

  /** A window whose session went to another, or was taken from it. */
  ghost predicate Replaced(w: World, p: Peer) {
    p in w.peers && !w.peers[p].Waiting? && forall id | id in w.d.sessions :: w.d.sessions[id] != p
  }

  /** Every step of a replaced window leaves the daemon's state alone, its release among them; the one exception is
      a decline or end it had already sent, which still withdraws whatever call is pending under that id. */
  lemma ReplacedWindowChangesNothing(config: Config, w: World, step: Step)
    requires Inv(w) && OfPeer(step) && Replaced(w, step.p)
    ensures Next(config, w, step).d != w.d
            <==> step.Forget? && w.peers[step.p].Dropping? && w.peers[step.p].id in w.d.pending
  {
    if step.Forget? && w.peers[step.p].Dropping? && w.peers[step.p].id in w.d.pending {
      assert w.peers[step.p].id !in Next(config, w, step).d.pending;
    } else if step.Forget? && w.peers[step.p].Dropping? {
      assert w.d.pending - {w.peers[step.p].id} == w.d.pending;
    }
  }

  /** A replaced window never gets a session again. */
  lemma {:induction false} ReplacedForGood(config: Config, w: World, p: Peer, steps: seq<Step>)
    requires Inv(w) && Replaced(w, p)
    ensures Replaced(RunFrom(config, w, steps), p)
  {
    if steps != [] {
      var before, step := RunFrom(config, w, steps[..|steps| - 1]), steps[|steps| - 1];
      EveryRunKeeps(config, w, steps[..|steps| - 1]);
      ReplacedForGood(config, w, p, steps[..|steps| - 1]);
    }
  }

  /** The owner's release frees its call: the next window that asks gets it, if it is still pending and the
      daemon still connected. */
  lemma OwnersReleaseReopens(config: Config, w: World, p: Peer, q: Peer)
    requires Inv(w) && p in w.peers && w.peers[p].Leaving? && Owns(w.d, w.peers[p].id, p)
    requires q in w.peers && w.peers[q].Waiting?
    ensures var id, after := w.peers[p].id, Next(config, w, Let(p));
            var again := Next(config, after, Request(q, id));
            && id !in after.d.sessions && after.d.pending.Keys == w.d.pending.Keys
            && (Owns(again.d, id, q) <==> id in w.d.pending)
            && (forall other | other != id :: Recipient(again.d, other) == Recipient(w.d, other))
  {
  }

  /** An invitation is announced exactly when it is new and the first window to ask for it will get it; otherwise
      it leaves no trace. */
  lemma AnnouncedIsAnswerable(config: Config, w: World, id: Name, from: Name, allowed: bool, q: Peer)
    requires Inv(w) && w.link.Some? && q in w.peers && w.peers[q].Waiting?
    ensures var outcome := AddInvitation(config, w.d, id, from, allowed).1;
            var after := Next(config, w, Incoming(id, from, allowed));
            && (outcome == Announced <==> id !in w.d.pending && Owns(Next(config, after, Request(q, id)).d, id, q))
            && (outcome != Announced ==> after == w)
  {
    assert forall other :: other in w.d.sessions ==> w.d.sessions[other] != q;
  }

  /** A daemon that ignores calls or must not disturb never has one pending and never attaches a window. */
  lemma {:induction false} SilentDaemonHoldsNothing(config: Config, steps: seq<Step>)
    requires config.Silent()
    ensures var d := RunFrom(config, START, steps).d; d.pending == map[] && d.sessions == map[]
  {
    if steps != [] {
      var before := RunFrom(config, START, steps[..|steps| - 1]);
      SilentDaemonHoldsNothing(config, steps[..|steps| - 1]);
      SilentStep(config, before, steps[|steps| - 1]);
    }
  }

  lemma SilentStep(config: Config, w: World, step: Step)
    requires config.Silent() && w.d.pending == map[] && w.d.sessions == map[]
    ensures Next(config, w, step).d.pending == map[] && Next(config, w, step).d.sessions == map[]
  {
    var d := Next(config, w, step).d;
    assert d.pending.Keys == {} && d.sessions.Keys == {};
  }

  /** The steps that can end the claim of `p` on a call. */
  predicate EndsClaim(w: World, step: Step, id: Name, p: Peer) {
    || step == Lose
    || step == Hear(id, true)
    || (step.Forget? && step.p in w.peers && w.peers[step.p] == Dropping(id))
    || step == Let(p)
  }

  predicate Claimed(d: State, id: Name, p: Peer) {
    id in d.pending && d.pending[id].claimed && Owns(d, id, p)
  }

  /** No step of `steps`, taken from `w`, ends the claim. */
  predicate Undisturbed(config: Config, w: World, steps: seq<Step>, id: Name, p: Peer) {
    steps == [] || (Undisturbed(config, w, steps[..|steps| - 1], id, p)
                    && !EndsClaim(RunFrom(config, w, steps[..|steps| - 1]), steps[|steps| - 1], id, p))
  }

  /** A claim is exclusive: whatever else happens, until the call ends, the connection is lost or the owner lets go,
      the call stays with the window that claimed it and every other window that asks for it is turned away. */
  lemma {:induction false} ClaimIsExclusive(config: Config, w: World, steps: seq<Step>, id: Name, p: Peer, q: Peer)
    requires Inv(w) && Claimed(w.d, id, p) && Undisturbed(config, w, steps, id, p)
    ensures var v := RunFrom(config, w, steps);
            && Claimed(v.d, id, p)
            && (q in v.peers && v.peers[q].Waiting? ==> Next(config, v, Request(q, id)) == Goto(v, q, Gone))
  {
    if steps != [] {
      ClaimIsExclusive(config, w, steps[..|steps| - 1], id, p, q);
      EveryRunKeeps(config, w, steps[..|steps| - 1]);
      ClaimSurvives(config, RunFrom(config, w, steps[..|steps| - 1]), steps[|steps| - 1], id, p);
    }
  }

  lemma ClaimSurvives(config: Config, w: World, step: Step, id: Name, p: Peer)
    requires Inv(w) && Claimed(w.d, id, p) && !EndsClaim(w, step, id, p)
    ensures Claimed(Next(config, w, step).d, id, p)
  {
  }

  // ---- who speaks for a call ----

  /** The steps that take a call's session from the window that has it: the connection is lost, the call is over, or
      another window is handed the call. */
  predicate TakesSession(w: World, step: Step, id: Name) {
    || step == Lose
    || step == Hear(id, true)
    || (step.Request? && step.id == id && step.p in w.peers && w.peers[step.p].Waiting? && Available(w.d, id))
  }

  predicate NeverTaken(config: Config, w: World, steps: seq<Step>, id: Name) {
    steps == [] || (NeverTaken(config, w, steps[..|steps| - 1], id)
                    && !TakesSession(RunFrom(config, w, steps[..|steps| - 1]), steps[|steps| - 1], id))
  }

  lemma SessionTakenIff(config: Config, w: World, step: Step, id: Name, p: Peer)
    requires Inv(w) && p in w.peers && Bound(w.peers[p], id) && Owns(w.d, id, p)
    requires var v := Next(config, w, step); p in v.peers && Bound(v.peers[p], id)
    ensures Owns(Next(config, w, step).d, id, p) <==> !TakesSession(w, step, id)
  {
  }

  lemma BoundBefore(config: Config, w: World, step: Step, p: Peer)
    requires p in w.peers && !w.peers[p].Waiting?
    ensures var v := Next(config, w, step);
            && p in v.peers && !v.peers[p].Waiting?
            && forall id :: Bound(v.peers[p], id) ==> Bound(w.peers[p], id)
  {
  }

  lemma {:induction false} BoundAllAlong(config: Config, w: World, steps: seq<Step>, p: Peer)
    requires p in w.peers && !w.peers[p].Waiting?
    ensures var v := RunFrom(config, w, steps);
            && p in v.peers && !v.peers[p].Waiting?
            && forall id :: Bound(v.peers[p], id) ==> Bound(w.peers[p], id)
  {
    if steps != [] {
      BoundAllAlong(config, w, steps[..|steps| - 1], p);
      BoundBefore(config, RunFrom(config, w, steps[..|steps| - 1]), steps[|steps| - 1], p);
    }
  }

  /** Nothing compares a window with the session of its call before its messages are sent. As long as a window is
      attached, a window in the midst of sending included, it owns the session if and only if, since it was handed the
      call, the connection has not been lost, the call has not ended and no other window has been handed it. */
  lemma {:induction false} SpeaksForItsCallIff(config: Config, w: World, steps: seq<Step>, id: Name, p: Peer)
    requires Inv(w) && p in w.peers && Bound(w.peers[p], id) && Owns(w.d, id, p)
    requires var v := RunFrom(config, w, steps); p in v.peers && Bound(v.peers[p], id)
    ensures Owns(RunFrom(config, w, steps).d, id, p) <==> NeverTaken(config, w, steps, id)
  {
    if steps != [] {
      var earlier, step := steps[..|steps| - 1], steps[|steps| - 1];
      var before := RunFrom(config, w, earlier);
      BoundAllAlong(config, w, earlier, p);
      BoundBefore(config, before, step, p);
      EveryRunKeeps(config, w, earlier);
      SpeaksForItsCallIff(config, w, earlier, id, p);
      if Owns(before.d, id, p) {
        SessionTakenIff(config, before, step, id, p);
      } else {
        ReplacedForGood(config, before, p, [step]);
        assert [step][..0] == [] && RunFrom(config, before, [step]) == Next(config, before, step);
      }
    }
  }

  lemma Then(config: Config, steps: seq<Step>, w: World, step: Step) returns (more: seq<Step>, next: World)
    requires w == RunFrom(config, START, steps)
    ensures more == steps + [step] && next == Next(config, w, step) == RunFrom(config, START, more)
  {
    more, next := steps + [step], Next(config, w, step);
    assert more[..|steps|] == steps;
  }

  /** Two windows are open and one of them has claimed a call. */
  lemma FirstClaim(config: Config, client: Client, id: Name, from: Name, p: Peer, q: Peer)
    returns (steps: seq<Step>, w: World)
    requires !config.Silent() && p != q
    ensures w == RunFrom(config, START, steps)
    ensures w == World(State(Some(client), map[id := Pending(from, true)], map[id := p]), Some(client),
                       map[p := Attached(id), q := Waiting])
  {
    steps, w := Then(config, [], START, Dial(client));
    steps, w := Then(config, steps, w, Incoming(id, from, true));
    assert w.d == State(Some(client), map[id := Pending(from, false)], map[]);
    steps, w := Then(config, steps, w, Open(p));
    steps, w := Then(config, steps, w, Open(q));
    assert w.peers == map[p := Waiting, q := Waiting];
    steps, w := Then(config, steps, w, Request(p, id));
  }

  /** The call ends, its id comes back and the other window claims it. */
  lemma SecondClaim(config: Config, client: Client, id: Name, from: Name, p: Peer, q: Peer)
    returns (steps: seq<Step>, w: World)
    requires !config.Silent() && p != q
    ensures w == RunFrom(config, START, steps)
    ensures w == World(State(Some(client), map[id := Pending(from, true)], map[id := q]), Some(client),
                       map[p := Attached(id), q := Attached(id)])
  {
    steps, w := FirstClaim(config, client, id, from, p, q);
    steps, w := Then(config, steps, w, Hear(id, true));
    assert w.d == State(Some(client), map[], map[]);
    steps, w := Then(config, steps, w, Incoming(id, from, true));
    steps, w := Then(config, steps, w, Request(q, id));
  }

  /** The exception is real: when a call id comes back after its call ended, a window still attached to the first
      call can decline the second one, although another window has claimed it. */
  lemma LateDeclineWithdraws(config: Config, client: Client, id: Name, from: Name, p: Peer, q: Peer)
    returns (steps: seq<Step>)
    requires !config.Silent() && p != q
    ensures var w := RunFrom(config, START, steps);
            && Replaced(w, p) && Claimed(w.d, id, q)
            && id !in Next(config, w, Forget(p)).d.pending
  {
    var w;
    steps, w := SecondClaim(config, client, id, from, p, q);
    steps, w := Then(config, steps, w, Say(p, from, true, true));
    steps, w := Then(config, steps, w, Check(p));
    steps, w := Then(config, steps, w, Send(p, true));
    assert w.peers == map[p := Dropping(id), q := Attached(id)];
  }

  /** And it is sent for: a window can be sending for a call that another window has claimed. */
  lemma SendsForAnother(config: Config, client: Client, id: Name, from: Name, p: Peer, q: Peer)
    returns (steps: seq<Step>)
    requires !config.Silent() && p != q
    ensures var w := RunFrom(config, START, steps);
            Claimed(w.d, id, q) && p in w.peers && w.peers[p] == Sending(id, client, false)
  {
    var w;
    steps, w := SecondClaim(config, client, id, from, p, q);
    steps, w := Then(config, steps, w, Say(p, from, true, false));
    steps, w := Then(config, steps, w, Check(p));
  }

  // ---- the code ----

  /** A pending invitation, marked and unmarked in place. */
  class PendingCall {
    const from: Name
    var claimed: bool

    constructor (from: Name)
      ensures this.from == from && !claimed
    {
      this.from, claimed := from, false;
    }
  }

  class Service {
    const config: Config
    const invites: InviteLimiter
    var signal: Option<Client>
    var pending: map<Name, PendingCall>
    var sessions: map<Name, Peer>

    ghost function Records(): set<object>
      reads this
    {
      set id | id in pending :: pending[id]
    }

    /** No two calls share a record, and the limiter is the daemon's own. */
    ghost predicate Valid()
      reads this, invites
    {
      && (forall a, b | a in pending && b in pending && pending[a] == pending[b] :: a == b)
      && invites.Valid()
    }

    function Model(): State
      reads this, Records()
    {
      State(signal, map id | id in pending :: Pending(pending[id].from, pending[id].claimed), sessions)
    }

    constructor (config: Config, limit: int, window: Duration)
      ensures Valid() && Model() == INITIAL && this.config == config
      ensures fresh(invites) && invites.limit == limit && invites.window == window && invites.logs == map[]
    {
      this.config := config;
      invites := new InviteLimiter(limit, window);
      signal, pending, sessions := None, map[], map[];
    }

    method File(from: Name, id: Name, allowed: bool) returns (outcome: Outcome)
      requires Valid()
      modifies this`pending
      ensures Valid() && fresh(Records() - old(Records()))
      ensures (Model(), outcome) == AddInvitation(config, old(Model()), id, from, allowed)
    {
      if id in pending { return Duplicate; }
      if !allowed || config.Silent() { return Declined; }
      var call := new PendingCall(from);
      pending := pending[id := call];
      assert Model().pending == old(Model()).pending[id := Pending(from, false)];
      return Announced;
    }

    /** The locked section of handleInvite. */
    method Invited(from: Name, id: Name, now: Time) returns (outcome: Outcome)
      requires Valid()
      modifies this`pending, invites, invites.Arrays()
      ensures Valid() && fresh(Records() - old(Records())) && fresh(invites.Arrays() - old(invites.Arrays()))
      ensures forall other | other != from :: invites.Log(other) == old(invites.Log(other))
      ensures var admitted := Admit(Policy(invites.limit, invites.window), old(invites.Log(from)), now);
              && invites.Log(from) == admitted.0
              && (Model(), outcome) == AddInvitation(config, old(Model()), id, from, admitted.1)
    {
      var allowed := invites.AllowInvite(from, now);
      assert Model() == old(Model());
      outcome := File(from, id, allowed);
    }

    /** The locked section of handleSignal, for a signal about a call. */
    method Signalled(id: Name, terminal: bool) returns (recipient: Option<Peer>)
      requires Valid()
      modifies this`pending, this`sessions
      ensures Valid()
      ensures Model() == Receive(old(Model()), id, terminal) && recipient == Recipient(old(Model()), id)
    {
      recipient := if id in sessions then Some(sessions[id]) else None;
      if terminal {
        pending := pending - {id};
        sessions := sessions - {id};
        assert Model().pending == old(Model()).pending - {id};
      }
    }

    /** The first locked section of handleLocal. */
    method TryAttach(id: Name, p: Peer) returns (attached: bool)
      requires Valid()
      modifies this`sessions, Records()
      ensures Valid() && (Model(), attached) == Attach(old(Model()), id, p)
    {
      if id !in pending || pending[id].claimed || signal.None? { return false; }
      pending[id].claimed := true;
      sessions := sessions[id := p];
      assert Model().pending == old(Model()).pending[id := Pending(pending[id].from, true)];
      return true;
    }

    /** The second, which decides whether the window's message may still be sent, and where. */
    method Route(id: Name) returns (client: Option<Client>)
      requires Valid()
      ensures client == if id in Model().pending then Model().signal else None
    {
      client := if id in pending then signal else None;
    }

    /** The third, after a decline or end has been sent. */
    method Forgotten(id: Name)
      requires Valid()
      modifies this`pending
      ensures Valid() && Model() == Drop(old(Model()), id)
    {
      pending := pending - {id};
      assert Model().pending == old(Model()).pending - {id};
    }

    method Released(id: Name, p: Peer)
      requires Valid()
      modifies this`sessions, Records()
      ensures Valid() && Model() == Release(old(Model()), id, p)
    {
      if id in sessions && sessions[id] == p {
        sessions := sessions - {id};
        if id in pending {
          pending[id].claimed := false;
        }
        assert Model().pending == Unclaim(old(Model()).pending, id);
      }
    }

    method Connected(client: Client)
      requires Valid()
      modifies this`signal
      ensures Valid() && Model() == SetSignal(old(Model()), client)
    {
      signal := Some(client);
    }

    /** Answers whom to tell that the connection is lost. */
    method Disconnected(client: Client) returns (peers: set<Peer>)
      requires Valid()
      modifies this`signal, this`pending, this`sessions
      ensures Valid() && Model() == ClearSignal(old(Model()), client)
      ensures peers == if old(signal) == Some(client) then old(sessions.Values) else {}
    {
      if signal != Some(client) { return {}; }
      peers := sessions.Values;
      signal, pending, sessions := None, map[], map[];
    }
  }
}
