/** Single-use identity proofs (ReplayGuard in internal/identity/trust.go). */
module ReplayGuard {
  import opened Clock

  const CAPACITY := 65536
  const PROOF_LIFETIME: Duration := 120_000_000_000
  const CLOCK_SKEW: Duration := 60_000_000_000

  function Key(fingerprint: string, nonce: string): string {
    fingerprint + ['\0'] + nonce
  }

  predicate NulFree(text: string) {
    '\0' !in text
  }

  /** Fingerprints contain no NUL, so the joined key names one pair. */
  lemma KeyIsInjective(f: string, n: string, f': string, n': string)
    requires NulFree(f) && NulFree(f')
    ensures Key(f, n) == Key(f', n') <==> f == f' && n == n'
  {
    if Key(f, n) == Key(f', n') {
      KeySplits(f, n);
      KeySplits(f', n');
    }
  }

  lemma KeySplits(f: string, n: string)
    requires NulFree(f)
    ensures var key := Key(f, n);
            key[|f|] == '\0' && key[..|f|] == f && key[|f| + 1..] == n && forall i | 0 <= i < |f| :: key[i] != '\0'
  {
  }

  /** The sweep at the start of every call. */
  function Swept(seen: map<string, Time>, now: Time): map<string, Time> {
    map key | key in seen && seen[key] > now :: seen[key]
  }

  function Accept(seen: map<string, Time>, key: string, expiresAt: Time, now: Time): (map<string, Time>, bool) {
    var live := Swept(seen, now);
    if key in live || |live| >= CAPACITY then (live, false) else (live[key := expiresAt], true)
  }

  // ---- histories ----

  /** A proof presented: verified at `checkedAt`, then handed to the guard at `now`. */
  datatype Attempt = Attempt(fingerprint: string, nonce: string, expiresAt: Time, checkedAt: Time, now: Time) {
    function Id(): string {
      Key(fingerprint, nonce)
    }
  }

  predicate Nondecreasing(attempts: seq<Attempt>) {
    forall i, j | 0 <= i <= j < |attempts| :: attempts[i].now <= attempts[j].now
  }

  function Seen(attempts: seq<Attempt>): map<string, Time> {
    if attempts == [] then map[]
    else
      var last := attempts[|attempts| - 1];
      Accept(Seen(attempts[..|attempts| - 1]), last.Id(), last.expiresAt, last.now).0
  }

  /** Whether attempt `i` was accepted. */
  predicate Accepted(attempts: seq<Attempt>, i: nat)
    requires i < |attempts|
  {
    Accept(Seen(attempts[..i]), attempts[i].Id(), attempts[i].expiresAt, attempts[i].now).1
  }

  /** Attempt `i` was accepted, with this key and expiry. */
  ghost predicate AcceptedAs(attempts: seq<Attempt>, i: int, key: string, expiresAt: Time) {
    0 <= i < |attempts| && Accepted(attempts, i) && attempts[i].Id() == key && attempts[i].expiresAt == expiresAt
  }

  lemma AcceptedInPrefix(attempts: seq<Attempt>, n: nat, i: nat)
    requires i < n <= |attempts|
    ensures Accepted(attempts[..n], i) == Accepted(attempts, i)
  {
    assert attempts[..n][..i] == attempts[..i];
  }

  ghost predicate EverAccepted(attempts: seq<Attempt>, key: string, expiresAt: Time) {
    exists i :: AcceptedAs(attempts, i, key, expiresAt)
  }

  lemma EverAcceptedStep(attempts: seq<Attempt>, key: string, expiresAt: Time)
    requires attempts != []
    ensures var n := |attempts| - 1;
            EverAccepted(attempts, key, expiresAt)
            <==> EverAccepted(attempts[..n], key, expiresAt) || AcceptedAs(attempts, n, key, expiresAt)
  {
    var n := |attempts| - 1;
    if i :| AcceptedAs(attempts[..n], i, key, expiresAt) {
      AcceptedInPrefix(attempts, n, i);
      assert AcceptedAs(attempts, i, key, expiresAt);
    }
    if i :| AcceptedAs(attempts, i, key, expiresAt) && i < n {
      AcceptedInPrefix(attempts, n, i);
      assert AcceptedAs(attempts[..n], i, key, expiresAt);
    }
  }

  /** Before each lookup the guard's map is exactly the accepted proofs whose expiry is still ahead. */
  lemma {:induction false} MapIsTheLiveProofs(attempts: seq<Attempt>, key: string, expiresAt: Time, now: Time)
    requires Nondecreasing(attempts)
    requires forall i | 0 <= i < |attempts| :: attempts[i].now <= now
    ensures (key in Swept(Seen(attempts), now) && Seen(attempts)[key] == expiresAt)
            <==> (expiresAt > now && EverAccepted(attempts, key, expiresAt))
  {
    if attempts != [] {
      var n := |attempts| - 1;
      MapIsTheLiveProofs(attempts[..n], key, expiresAt, attempts[n].now);
      EverAcceptedStep(attempts, key, expiresAt);
    }
  }

  lemma SweptNeverGrows(seen: map<string, Time>, now: Time)
    ensures |Swept(seen, now)| <= |seen|
    decreases |seen|
  {
    var live := Swept(seen, now);
    assert live.Keys <= seen.Keys;
    SubsetSize(live.Keys, seen.Keys);
    assert |live| == |live.Keys| && |seen| == |seen.Keys|;
  }

  lemma {:induction false} SubsetSize(a: set<string>, b: set<string>)
    requires a <= b
    ensures |a| <= |b|
  {
    if a != {} {
      var x :| x in a;
      SubsetSize(a - {x}, b - {x});
    }
  }

  /** The guard never remembers more than its capacity. */
  lemma {:induction false} NeverOverCapacity(attempts: seq<Attempt>)
    ensures |Seen(attempts)| <= 65536
  {
    if attempts != [] {
      var n := |attempts| - 1;
      NeverOverCapacity(attempts[..n]);
      SweptNeverGrows(Seen(attempts[..n]), attempts[n].now);
    }
  }

  /** A pair accepted once is not accepted again before its first expiry. */
  lemma AcceptedOnceBeforeExpiry(attempts: seq<Attempt>, i: nat, j: nat)
    requires Nondecreasing(attempts) && i < j < |attempts|
    requires Accepted(attempts, i) && attempts[j].now < attempts[i].expiresAt
    requires (attempts[i].fingerprint, attempts[i].nonce) == (attempts[j].fingerprint, attempts[j].nonce)
    ensures !Accepted(attempts, j)
  {
    AcceptedInPrefix(attempts, j, i);
    assert AcceptedAs(attempts[..j], i, attempts[j].Id(), attempts[i].expiresAt);
    MapIsTheLiveProofs(attempts[..j], attempts[j].Id(), attempts[i].expiresAt, attempts[j].now);
  }

  /** A different pair never stands in the way: refusal means that this very pair is live, or that the guard is full. */
  lemma RefusalHasAReason(attempts: seq<Attempt>, j: nat)
    requires Nondecreasing(attempts) && j < |attempts|
    requires forall k | 0 <= k < |attempts| :: NulFree(attempts[k].fingerprint)
    requires !Accepted(attempts, j)
    ensures || |Swept(Seen(attempts[..j]), attempts[j].now)| == 65536
            || exists i :: 0 <= i < j && Accepted(attempts, i) && attempts[i].expiresAt > attempts[j].now
                           && attempts[i].fingerprint == attempts[j].fingerprint
                           && attempts[i].nonce == attempts[j].nonce
  {
    var key := attempts[j].Id();
    var live := Swept(Seen(attempts[..j]), attempts[j].now);
    NeverOverCapacity(attempts[..j]);
    SweptNeverGrows(Seen(attempts[..j]), attempts[j].now);
    if key in live {
      MapIsTheLiveProofs(attempts[..j], key, live[key], attempts[j].now);
      var i :| AcceptedAs(attempts[..j], i, key, live[key]);
      AcceptedInPrefix(attempts, j, i);
      KeyIsInjective(attempts[i].fingerprint, attempts[i].nonce, attempts[j].fingerprint, attempts[j].nonce);
    }
  }

  // ---- together with the expiry check of identity.Verify ----

  /** The time test that Verify makes on a proof. */
  predicate Timely(expiresAt: Time, now: Time) {
    !(now > expiresAt || expiresAt > now + PROOF_LIFETIME + CLOCK_SKEW)
  }

  /** The proof of attempt `i`, presented again as attempt `j`, verified no later than it is guarded. */
  predicate PresentedAgain(attempts: seq<Attempt>, i: nat, j: nat) {
    && i < j < |attempts|
    && (attempts[i].fingerprint, attempts[i].nonce, attempts[i].expiresAt)
       == (attempts[j].fingerprint, attempts[j].nonce, attempts[j].expiresAt)
    && Timely(attempts[j].expiresAt, attempts[j].checkedAt) && attempts[j].checkedAt <= attempts[j].now
  }

  /** A proof accepted twice was at its expiry the second time: the one instant at which Verify still takes it
      and the guard has already forgotten it. */
  lemma SecondAcceptanceIsAtExpiry(attempts: seq<Attempt>, i: nat, j: nat)
    requires Nondecreasing(attempts) && PresentedAgain(attempts, i, j)
    requires Accepted(attempts, i) && Accepted(attempts, j)
    ensures attempts[j].checkedAt <= attempts[j].expiresAt <= attempts[j].now
  {
    if attempts[j].now < attempts[i].expiresAt {
      AcceptedOnceBeforeExpiry(attempts, i, j);
    }
  }

  /** The pair of attempt `j` was accepted with some other expiry that is still ahead. */
  ghost predicate LiveWithAnotherExpiry(attempts: seq<Attempt>, j: nat)
    requires j < |attempts|
  {
    exists k :: 0 <= k < j && Accepted(attempts, k) && attempts[k].Id() == attempts[j].Id()
                && attempts[k].expiresAt != attempts[j].expiresAt && attempts[k].expiresAt > attempts[j].now
  }

  /** And it is accepted exactly when the clock has reached that instant by then and the guard has room, unless its
      nonce has been signed with a second expiry and accepted with that one too. */
  lemma ForgottenAtExpiry(attempts: seq<Attempt>, i: nat, j: nat)
    requires Nondecreasing(attempts) && PresentedAgain(attempts, i, j) && Accepted(attempts, i)
    ensures Accepted(attempts, j)
            <==> && attempts[j].expiresAt <= attempts[j].now
                 && |Swept(Seen(attempts[..j]), attempts[j].now)| < 65536
                 && !LiveWithAnotherExpiry(attempts, j)
  {
    var key, live := attempts[j].Id(), Swept(Seen(attempts[..j]), attempts[j].now);
    if attempts[j].now < attempts[i].expiresAt {
      AcceptedOnceBeforeExpiry(attempts, i, j);
    } else if key in live {
      MapIsTheLiveProofs(attempts[..j], key, live[key], attempts[j].now);
      var k :| AcceptedAs(attempts[..j], k, key, live[key]);
      AcceptedInPrefix(attempts, j, k);
    } else if LiveWithAnotherExpiry(attempts, j) {
      var k :| 0 <= k < j && Accepted(attempts, k) && attempts[k].Id() == key
          && attempts[k].expiresAt > attempts[j].now;
      AcceptedInPrefix(attempts, j, k);
      assert AcceptedAs(attempts[..j], k, key, attempts[k].expiresAt);
      MapIsTheLiveProofs(attempts[..j], key, attempts[k].expiresAt, attempts[j].now);
    }
  }

  /** The instant exists: a proof accepted, and accepted again at its expiry. */
  lemma AcceptedTwiceAtExpiry(fingerprint: string, nonce: string, expiresAt: Time)
    ensures var attempts := [Attempt(fingerprint, nonce, expiresAt, expiresAt, expiresAt),
                             Attempt(fingerprint, nonce, expiresAt, expiresAt, expiresAt)];
            Nondecreasing(attempts) && PresentedAgain(attempts, 0, 1) && Accepted(attempts, 0) && Accepted(attempts, 1)
  {
    var a := Attempt(fingerprint, nonce, expiresAt, expiresAt, expiresAt);
    var attempts := [a, a];
    assert attempts[..0] == [] && attempts[..1] == [a] && [a][..0] == [];
    assert Seen([]) == map[];
    assert Swept(map[], expiresAt) == map[];
    assert Seen([a]) == map[a.Id() := expiresAt];
    assert Swept(Seen([a]), expiresAt) == map[];
  }

  // ---- the code ----

  class Guard {
    var seen: map<string, Time>

    constructor ()
      ensures seen == map[]
    {
      seen := map[];
    }

    method AcceptProof(fingerprint: string, nonce: string, expiresAt: Time, now: Time) returns (accepted: bool)
      modifies this
      ensures (seen, accepted) == Accept(old(seen), Key(fingerprint, nonce), expiresAt, now)
    {
      var toVisit := seen.Keys;
      while toVisit != {}
        invariant toVisit <= seen.Keys
        invariant seen == map key | key in old(seen) && (key in toVisit || old(seen)[key] > now) :: old(seen)[key]
        decreases toVisit
      {
        var key :| key in toVisit;
        if seen[key] <= now {
          seen := seen - {key};
        }
        toVisit := toVisit - {key};
      }
      assert seen == Swept(old(seen), now);
      var key := fingerprint + ['\0'] + nonce;
      if key in seen { return false; }
      if |seen| >= CAPACITY { return false; }
      seen := seen[key := expiresAt];
      return true;
    }
  }
}
