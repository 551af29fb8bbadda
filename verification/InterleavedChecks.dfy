/** The store's update is made of separate accesses, so the checks of different
    clients on one key can interleave. Each access is one step here: the read, the
    write of the initial value if nothing was read, the write of the refilled
    bucket, and the write of an admitted check. */
module InterleavedChecks {
  import opened Wrappers
  import opened LocalStore
  import opened TokenBucket

  datatype Client =
    | Ready
    | Missed
    | Fetched(bucket: Bucket)
    | Refilled(bucket: Bucket)
    | Done(answer: Decision)

  datatype Race = Race(slot: Slot<Bucket>, clients: seq<Client>)

  /** The next store access of client `i`. */
  function Act(c: Config, ttl: real, now: real, s: Race, i: nat): (r: Race)
    requires i < |s.clients|
    ensures |r.clients| == |s.clients|
  {
    match s.clients[i]
    case Ready =>
      var found := Live(s.slot, ttl, now);
      Race(s.slot, s.clients[i := if found.Some? then Fetched(found.value) else Missed])
    case Missed =>
      var b := Bucket(c.burst as real, now);
      Race(Some(Entry(b, now)), s.clients[i := Fetched(b)])
    case Fetched(b) =>
      var b' := Refill(c, b, now);
      Race(Some(Entry(b', now)), s.clients[i := Refilled(b')])
    case Refilled(b) =>
      if b.tokens >= 1.0 then
        Race(Some(Entry(b.(tokens := b.tokens - 1.0), now)), s.clients[i := Done(Allow)])
      else Race(s.slot, s.clients[i := Done(Deny)])
    case Done(_) => s
  }

  ghost predicate Schedules(schedule: seq<nat>, clients: nat) {
    forall k :: 0 <= k < |schedule| ==> schedule[k] < clients
  }

  /** Clients act in the order of the schedule, all at the same instant. */
  ghost function RunSchedule(c: Config, ttl: real, now: real, s: Race, schedule: seq<nat>): (r: Race)
    requires Schedules(schedule, |s.clients|)
    ensures |r.clients| == |s.clients|
    decreases |schedule|
  {
    if schedule == [] then s
    else RunSchedule(c, ttl, now, Act(c, ttl, now, s, schedule[0]), schedule[1..])
  }

  lemma {:induction false} RunScheduleConcat(c: Config, ttl: real, now: real, s: Race, p: seq<nat>, q: seq<nat>)
    requires Schedules(p, |s.clients|) && Schedules(q, |s.clients|)
    ensures RunSchedule(c, ttl, now, s, p + q) ==
      RunSchedule(c, ttl, now, RunSchedule(c, ttl, now, s, p), q)
    decreases |p|
  {
    if p == [] {
      assert p + q == q;
    } else {
      assert (p + q)[1..] == p[1..] + q;
      RunScheduleConcat(c, ttl, now, Act(c, ttl, now, s, p[0]), p[1..], q);
    }
  }

  lemma RunOnce(c: Config, ttl: real, now: real, s: Race, i: nat, rest: seq<nat>)
    requires i < |s.clients| && Schedules(rest, |s.clients|)
    ensures RunSchedule(c, ttl, now, s, [i] + rest) == RunSchedule(c, ttl, now, Act(c, ttl, now, s, i), rest)
  {
    assert ([i] + rest)[1..] == rest;
  }

  lemma RunFour(c: Config, ttl: real, now: real, s: Race, i: nat)
    requires i < |s.clients|
    ensures
      var s2 := Act(c, ttl, now, Act(c, ttl, now, s, i), i);
      RunSchedule(c, ttl, now, s, [i, i, i, i]) == Act(c, ttl, now, Act(c, ttl, now, s2, i), i)
  {
    var s1 := Act(c, ttl, now, s, i);
    var s2 := Act(c, ttl, now, s1, i);
    var s3 := Act(c, ttl, now, s2, i);
    assert [i, i, i, i] == [i] + [i, i, i] && [i, i, i] == [i] + [i, i] && [i, i] == [i] + [i] && [i] == [i] + [];
    RunOnce(c, ttl, now, s, i, [i, i, i]);
    RunOnce(c, ttl, now, s1, i, [i, i]);
    RunOnce(c, ttl, now, s2, i, [i]);
    RunOnce(c, ttl, now, s3, i, []);
  }

  /** A client whose accesses are not interrupted performs exactly one check; four
      turns are enough for it. */
  lemma SerialIsCheck(c: Config, ttl: real, now: real, s: Race, i: nat)
    requires i < |s.clients| && s.clients[i] == Ready && ttl > 0.0
    ensures
      var (entry, answer) := CheckSlot(c, ttl, s.slot, now);
      RunSchedule(c, ttl, now, s, [i, i, i, i]) == Race(Some(entry), s.clients[i := Done(answer)])
  {
    RunFour(c, ttl, now, s, i);
    var s2 := Act(c, ttl, now, Act(c, ttl, now, s, i), i);
    var s3 := Act(c, ttl, now, s2, i);
    assert s2.clients == s.clients[i := s2.clients[i]];
    assert s3.clients == s.clients[i := s3.clients[i]];
  }

  function UpTo(n: nat): (s: seq<nat>)
    ensures |s| == n && forall i :: 0 <= i < n ==> s[i] == i
  {
    seq(n, i => i)
  }

  /** One round: clients 0, ..., n - 1 act once each. */
  function Round(c: Config, ttl: real, now: real, s: Race, n: nat): (r: Race)
    requires n <= |s.clients|
    ensures |r.clients| == |s.clients|
  {
    if n == 0 then s else Act(c, ttl, now, Round(c, ttl, now, s, n - 1), n - 1)
  }

  lemma {:induction false} RoundIsSchedule(c: Config, ttl: real, now: real, s: Race, n: nat)
    requires n <= |s.clients|
    ensures RunSchedule(c, ttl, now, s, UpTo(n)) == Round(c, ttl, now, s, n)
  {
    if n > 0 {
      RoundIsSchedule(c, ttl, now, s, n - 1);
      assert UpTo(n) == UpTo(n - 1) + [n - 1];
      RunScheduleConcat(c, ttl, now, s, UpTo(n - 1), [n - 1]);
    }
  }

  /** The bucket a check of its own would find, after its refill. */
  function Available(c: Config, ttl: real, slot: Slot<Bucket>, now: real): Bucket {
    Refill(c, Live(slot, ttl, now).GetOr(Bucket(c.burst as real, now)), now)
  }

  ghost predicate AllAre(s: Race, client: Client) {
    forall i :: 0 <= i < |s.clients| ==> s.clients[i] == client
  }

  /** A round takes clients that all read before any writes to what they read. */
  lemma {:induction false} ReadRound(c: Config, ttl: real, now: real, s: Race, n: nat)
    requires n <= |s.clients| && AllAre(s, Ready)
    ensures
      var r, found := Round(c, ttl, now, s, n), Live(s.slot, ttl, now);
      r.slot == s.slot && forall i :: 0 <= i < |s.clients| ==>
        r.clients[i] == if i >= n then Ready else if found.Some? then Fetched(found.value) else Missed
  {
    if n > 0 {
      ReadRound(c, ttl, now, s, n - 1);
    }
  }

  lemma {:induction false} FetchRound(c: Config, ttl: real, now: real, s: Race, n: nat)
    requires n <= |s.clients| && AllAre(s, Missed)
    ensures
      var full := Bucket(c.burst as real, now);
      forall i :: 0 <= i < |s.clients| ==>
        Round(c, ttl, now, s, n).clients[i] == if i < n then Fetched(full) else Missed
  {
    if n > 0 {
      FetchRound(c, ttl, now, s, n - 1);
    }
  }

  lemma {:induction false} RefillRound(c: Config, ttl: real, now: real, s: Race, n: nat, b: Bucket)
    requires n <= |s.clients| && AllAre(s, Fetched(b))
    ensures forall i :: 0 <= i < |s.clients| ==>
      Round(c, ttl, now, s, n).clients[i] == if i < n then Refilled(Refill(c, b, now)) else Fetched(b)
  {
    if n > 0 {
      RefillRound(c, ttl, now, s, n - 1, b);
    }
  }

  lemma {:induction false} TakeRound(c: Config, ttl: real, now: real, s: Race, n: nat, b: Bucket)
    requires n <= |s.clients| && AllAre(s, Refilled(b)) && b.tokens >= 1.0
    ensures forall i :: 0 <= i < |s.clients| ==>
      Round(c, ttl, now, s, n).clients[i] == if i < n then Done(Allow) else Refilled(b)
  {
    if n > 0 {
      TakeRound(c, ttl, now, s, n - 1, b);
    }
  }

  function Start(slot: Slot<Bucket>, clients: nat): (s: Race)
    ensures |s.clients| == clients && s.slot == slot && forall i :: 0 <= i < clients ==> s.clients[i] == Ready
  {
    Race(slot, seq(clients, _ => Ready))
  }

  lemma RoundThen(c: Config, ttl: real, now: real, s: Race, rest: seq<nat>)
    requires Schedules(rest, |s.clients|)
    ensures
      var n := |s.clients|;
      RunSchedule(c, ttl, now, s, UpTo(n) + rest) == RunSchedule(c, ttl, now, Round(c, ttl, now, s, n), rest)
  {
    RoundIsSchedule(c, ttl, now, s, |s.clients|);
    RunScheduleConcat(c, ttl, now, s, UpTo(|s.clients|), rest);
  }

  /** Clients that all hold the same bucket: refilling and taking, a round each. */
  lemma AllTake(c: Config, ttl: real, now: real, s: Race, b: Bucket) returns (schedule: seq<nat>)
    requires AllAre(s, Fetched(b)) && Refill(c, b, now).tokens >= 1.0
    ensures Schedules(schedule, |s.clients|)
    ensures AllAre(RunSchedule(c, ttl, now, s, schedule), Done(Allow))
  {
    var n := |s.clients|;
    var s' := Round(c, ttl, now, s, n);
    RefillRound(c, ttl, now, s, n, b);
    TakeRound(c, ttl, now, s', n, Refill(c, b, now));
    schedule := UpTo(n) + UpTo(n);
    RoundThen(c, ttl, now, s, UpTo(n));
    RoundIsSchedule(c, ttl, now, s', n);
  }

  /** Without serialisation any number of clients can be admitted at the same
      instant, as long as there is one token. */
  lemma AllAdmittedTogether(c: Config, ttl: real, now: real, slot: Slot<Bucket>, clients: nat) returns (schedule: seq<nat>)
    requires Available(c, ttl, slot, now).tokens >= 1.0
    ensures Schedules(schedule, clients)
    ensures AllAre(RunSchedule(c, ttl, now, Start(slot, clients), schedule), Done(Allow))
  {
    var s0 := Start(slot, clients);
    var s1 := Round(c, ttl, now, s0, clients);
    ReadRound(c, ttl, now, s0, clients);
    if Live(slot, ttl, now).Some? {
      var rest := AllTake(c, ttl, now, s1, Live(slot, ttl, now).value);
      schedule := UpTo(clients) + rest;
      RoundThen(c, ttl, now, s0, rest);
    } else {
      var s2 := Round(c, ttl, now, s1, clients);
      FetchRound(c, ttl, now, s1, clients);
      var rest := AllTake(c, ttl, now, s2, Bucket(c.burst as real, now));
      schedule := UpTo(clients) + (UpTo(clients) + rest);
      RoundThen(c, ttl, now, s0, UpTo(clients) + rest);
      RoundThen(c, ttl, now, s1, rest);
    }
  }

  function AdmittedCount(clients: seq<Client>): (n: nat)
    ensures n <= |clients|
  {
    if clients == [] then 0
    else AdmittedCount(clients[1..]) + if clients[0] == Done(Allow) then 1 else 0
  }

  lemma {:induction false} CountAllOrNone(clients: seq<Client>)
    ensures (forall i :: 0 <= i < |clients| ==> clients[i] == Done(Allow)) ==> AdmittedCount(clients) == |clients|
    ensures (forall i :: 0 <= i < |clients| ==> clients[i] != Done(Allow)) ==> AdmittedCount(clients) == 0
  {
    if clients != [] {
      assert forall i :: 0 <= i < |clients[1..]| ==> clients[1..][i] == clients[i + 1];
      CountAllOrNone(clients[1..]);
    }
  }

  /** A bucket with no whole token at `now`. */
  ghost predicate Dry(c: Config, now: real, b: Bucket) {
    Refill(c, b, now).tokens < 1.0
  }

  /** No whole token is anywhere. */
  ghost predicate AllDry(c: Config, ttl: real, now: real, s: Race) {
    && Dry(c, now, Live(s.slot, ttl, now).GetOr(Bucket(c.burst as real, now)))
    && (ttl <= 0.0 ==> c.burst == 0)
    && forall i :: 0 <= i < |s.clients| ==>
        match s.clients[i]
        case Missed => c.burst == 0
        case Fetched(b) => Dry(c, now, b)
        case Refilled(b) => b.tokens < 1.0 && b.lastRefill == now
        case Done(answer) => answer == Deny
        case Ready => true
  }

  lemma NoTimeNoTokens(c: Config, b: Bucket)
    ensures Refill(c, b, b.lastRefill).tokens == Min(b.tokens, c.burst as real)
  {
    assert (b.lastRefill - b.lastRefill) * c.rate == 0.0;
  }

  lemma RefilledStaysDry(c: Config, now: real, b: Bucket)
    requires b.lastRefill == now && b.tokens < 1.0
    ensures Dry(c, now, b)
  {
    hide Refill;
    NoTimeNoTokens(c, b);
  }

  lemma DryStep(c: Config, ttl: real, now: real, s: Race, i: nat)
    requires AllDry(c, ttl, now, s) && i < |s.clients|
    ensures AllDry(c, ttl, now, Act(c, ttl, now, s, i))
  {
    hide Refill;
    var full := Bucket(c.burst as real, now);
    if c.burst == 0 {
      RefilledStaysDry(c, now, full);
    }
    DryIsEmpty(c, now);
    match s.clients[i]
    case Fetched(b) =>
      RefillsAt(c, b, now);
      RefilledStaysDry(c, now, Refill(c, b, now));
    case _ =>
  }

  lemma RefillsAt(c: Config, b: Bucket, now: real)
    ensures Refill(c, b, now).lastRefill == now
  {
  }

  /** A full bucket is dry only if it can hold nothing. */
  lemma DryIsEmpty(c: Config, now: real)
    ensures Dry(c, now, Bucket(c.burst as real, now)) <==> c.burst == 0
  {
    hide Refill;
    NoTimeNoTokens(c, Bucket(c.burst as real, now));
  }

  lemma {:induction false} StaysDry(c: Config, ttl: real, now: real, s: Race, schedule: seq<nat>)
    requires AllDry(c, ttl, now, s) && Schedules(schedule, |s.clients|)
    ensures AllDry(c, ttl, now, RunSchedule(c, ttl, now, s, schedule))
    decreases |schedule|
  {
    if schedule != [] {
      DryStep(c, ttl, now, s, schedule[0]);
      StaysDry(c, ttl, now, Act(c, ttl, now, s, schedule[0]), schedule[1..]);
    }
  }

  function WholeTokens(x: real): nat {
    if x < 1.0 then 0 else x.Floor
  }

  /** Every interleaving of `clients` checks at one instant admits at most `bound`. */
  ghost predicate AdmitAtMost(c: Config, ttl: real, now: real, slot: Slot<Bucket>, clients: nat, bound: nat) {
    forall schedule :: Schedules(schedule, clients) ==>
      AdmittedCount(RunSchedule(c, ttl, now, Start(slot, clients), schedule).clients) <= bound
  }

  /** The tokens that are there bound what every interleaving admits exactly when
      there are no more clients than whole tokens, or there is no whole token. */
  lemma TokensBoundExactly(c: Config, ttl: real, now: real, slot: Slot<Bucket>, clients: nat)
    requires slot.Some? ==> slot.value.writtenAt <= now
    ensures
      var x := Available(c, ttl, slot, now).tokens;
      AdmitAtMost(c, ttl, now, slot, clients, WholeTokens(x)) <==> clients <= WholeTokens(x) || x < 1.0
  {
    var x := Available(c, ttl, slot, now).tokens;
    if x < 1.0 {
      DryIsEmpty(c, now);
      forall schedule | Schedules(schedule, clients)
        ensures AdmittedCount(RunSchedule(c, ttl, now, Start(slot, clients), schedule).clients) == 0
      {
        StaysDry(c, ttl, now, Start(slot, clients), schedule);
        CountAllOrNone(RunSchedule(c, ttl, now, Start(slot, clients), schedule).clients);
      }
    } else if clients > WholeTokens(x) {
      var schedule := AllAdmittedTogether(c, ttl, now, slot, clients);
      CountAllOrNone(RunSchedule(c, ttl, now, Start(slot, clients), schedule).clients);
    }
  }

  /** On a fresh key that is the burst. */
  lemma BurstBoundsExactly(c: Config, ttl: real, now: real, clients: nat)
    ensures AdmitAtMost(c, ttl, now, None, clients, c.burst) <==> clients <= c.burst || c.burst == 0
  {
    RefillNow(c, Bucket(c.burst as real, now));
    assert (c.burst as real).Floor == c.burst;
    TokensBoundExactly(c, ttl, now, None, clients);
  }
}
