/** The local token bucket: refill by elapsed time, then take one token. Token
    amounts are reals; time is in seconds. */
module TokenBucket {
  import opened Wrappers
  import opened LocalStore

  datatype Bucket = Bucket(tokens: real, lastRefill: real)

  /** `rate` tokens per second, at most `burst` of them. */
  datatype Config = Config(rate: real, burst: nat)

  ghost predicate ValidConfig(c: Config) {
    c.rate >= 0.0
  }

  function Min(x: real, y: real): real {
    if x <= y then x else y
  }

  function Refill(c: Config, b: Bucket, now: real): Bucket {
    Bucket(Min(b.tokens + (now - b.lastRefill) * c.rate, c.burst as real), now)
  }

  /** One check on one key: the entry it leaves and its answer. */
  function CheckSlot(c: Config, ttl: real, slot: Slot<Bucket>, now: real): (r: (Entry<Bucket>, Decision)) {
    var b := Refill(c, Live(slot, ttl, now).GetOr(Bucket(c.burst as real, now)), now);
    if b.tokens >= 1.0 then (Entry(b.(tokens := b.tokens - 1.0), now), Allow)
    else (Entry(b, now), Deny)
  }

  function StepOf(c: Config, ttl: real): Step<Bucket> {
    (slot, now) => CheckSlot(c, ttl, slot, now)
  }

  class TokenBucket {
    const rps: nat
    const burst: nat
    const store: LocalStore<Key, Bucket>

    constructor (rps: nat, burst: nat)
      ensures this.rps == rps && this.burst == burst
      ensures fresh(store) && store.entries == map[] && store.ttl == 600.0
    {
      this.rps := rps;
      this.burst := burst;
      store := new LocalStore<Key, Bucket>(TTL);
    }

    method Check(key: Key, now: real) returns (d: Decision)
      modifies store
      ensures
        var (entry, answer) := StepOf(Config(rps as real, burst), store.ttl)(SlotOf(old(store.entries), key), now);
        d == answer && store.entries == old(store.entries)[key := entry]
    {
      var init := Bucket(burst as real, now);
      var c := Config(rps as real, burst);
      var bucket := store.Update(key, init, b => Refill(c, b, now), now);
      if bucket.tokens >= 1.0 {
        bucket := bucket.(tokens := bucket.tokens - 1.0);
        store.Insert(key, bucket, now);
        d := Allow;
      } else {
        d := Deny;
      }
    }
  }

  // The ideal bucket: never forgotten, described by its token level alone. Time
  // is measured by what it has earned, so a gap of one pays for one token.

  function Earned(rate: real, ts: seq<real>): seq<real> {
    seq(|ts|, i requires 0 <= i < |ts| => rate * ts[i])
  }

  /** What a check takes from a level. */
  function Take(level: real): real {
    if level >= 1.0 then 1.0 else 0.0
  }

  /** Tokens available to check `n`, after the refill and before the take. */
  function Level(burst: nat, earned: seq<real>, n: nat): real
    requires n < |earned|
  {
    if n == 0 then burst as real
    else
      var before := Level(burst, earned, n - 1);
      Min(before - Take(before) + (earned[n] - earned[n - 1]), burst as real)
  }

  /** How many of the checks j, ..., n - 1 find a whole token. */
  ghost function Admitted(burst: nat, earned: seq<real>, j: nat, n: nat): nat
    requires j <= n <= |earned|
    decreases n
  {
    if j == n then 0
    else Admitted(burst, earned, j, n - 1) + if Level(burst, earned, n - 1) >= 1.0 then 1 else 0
  }

  ghost predicate Admits(c: Config, ts: seq<real>, n: nat)
    requires n < |ts|
  {
    Level(c.burst, Earned(c.rate, ts), n) >= 1.0
  }

  ghost function Admissions(c: Config, ts: seq<real>, j: nat, n: nat): nat
    requires j <= n <= |ts|
  {
    Admitted(c.burst, Earned(c.rate, ts), j, n)
  }

  lemma EarnedNondecreasing(rate: real, ts: seq<real>)
    requires rate >= 0.0 && Nondecreasing(ts)
    ensures Nondecreasing(Earned(rate, ts))
  {
    forall i, j | 0 <= i <= j < |ts|
      ensures rate * ts[i] <= rate * ts[j]
    {
      ProductMonotone(ts[i], ts[j], rate);
    }
  }

  lemma {:induction false} LevelBounds(burst: nat, earned: seq<real>, n: nat)
    requires Nondecreasing(earned) && n < |earned|
    ensures 0.0 <= Level(burst, earned, n) <= burst as real
  {
    if n > 0 {
      LevelBounds(burst, earned, n - 1);
    }
  }

  /** The level is the tightest of all the budgets counted from an earlier check. */
  lemma {:induction false} LevelIsTightestBudget(burst: nat, earned: seq<real>, n: nat) returns (tight: nat)
    requires Nondecreasing(earned) && n < |earned|
    ensures forall j :: 0 <= j <= n ==>
      Level(burst, earned, n) <= burst as real + earned[n] - earned[j] - Admitted(burst, earned, j, n) as real
    ensures tight <= n
    ensures Level(burst, earned, n) ==
      burst as real + earned[n] - earned[tight] - Admitted(burst, earned, tight, n) as real
  {
    if n == 0 {
      tight := 0;
    } else {
      tight := LevelIsTightestBudget(burst, earned, n - 1);
      if Level(burst, earned, n) == burst as real {
        tight := n;
      }
    }
  }

  /** What the burst and the refill since check `j` can pay for by check `n`. */
  ghost function Budget(c: Config, ts: seq<real>, j: nat, n: nat): real
    requires j <= n < |ts|
  {
    c.burst as real + c.rate * (ts[n] - ts[j])
  }

  lemma BudgetIsEarned(c: Config, ts: seq<real>, j: nat, n: nat)
    requires j <= n < |ts|
    ensures Budget(c, ts, j, n) == c.burst as real + Earned(c.rate, ts)[n] - Earned(c.rate, ts)[j]
  {
    assert c.rate * (ts[n] - ts[j]) == c.rate * ts[n] - c.rate * ts[j];
  }

  lemma FitsBudgets(burst: nat, earned: seq<real>, n: nat, budgets: seq<real>)
    requires Nondecreasing(earned) && n < |earned| && |budgets| == n + 1
    requires forall j :: 0 <= j <= n ==> budgets[j] == burst as real + earned[n] - earned[j]
    ensures Level(burst, earned, n) >= 1.0 <==>
      forall j :: 0 <= j <= n ==> (Admitted(burst, earned, j, n) + 1) as real <= budgets[j]
  {
    var tight := LevelIsTightestBudget(burst, earned, n);
    assert Level(burst, earned, n) == budgets[tight] - Admitted(burst, earned, tight, n) as real;
  }

  /** Exactness: a check is admitted if and only if no stretch of checks ending
      in it would, with it, exceed the burst plus what the stretch refills. */
  lemma AdmitsExactly(c: Config, ts: seq<real>, n: nat)
    requires ValidConfig(c) && Nondecreasing(ts) && n < |ts|
    ensures Admits(c, ts, n) <==>
      forall j :: 0 <= j <= n ==> (Admissions(c, ts, j, n) + 1) as real <= Budget(c, ts, j, n)
  {
    EarnedNondecreasing(c.rate, ts);
    var budgets := seq(n + 1, j requires 0 <= j <= n => Budget(c, ts, j, n));
    forall j | 0 <= j <= n
      ensures budgets[j] == c.burst as real + Earned(c.rate, ts)[n] - Earned(c.rate, ts)[j]
    {
      BudgetIsEarned(c, ts, j, n);
    }
    FitsBudgets(c.burst, Earned(c.rate, ts), n, budgets);
    assert forall j :: 0 <= j <= n ==> budgets[j] == Budget(c, ts, j, n);
  }

  lemma {:induction false} AdmittedBound(burst: nat, earned: seq<real>, j: nat, n: nat)
    requires Nondecreasing(earned) && j <= n < |earned|
    ensures Admitted(burst, earned, j, n + 1) as real <= burst as real + earned[n] - earned[j]
  {
    if Level(burst, earned, n) >= 1.0 {
      var tight := LevelIsTightestBudget(burst, earned, n);
    } else if j < n {
      AdmittedBound(burst, earned, j, n - 1);
    }
  }

  /** Over any interval the admissions stay within burst + rate * length. */
  lemma IntervalBound(c: Config, ts: seq<real>, j: nat, n: nat)
    requires ValidConfig(c) && Nondecreasing(ts) && j <= n < |ts|
    ensures Admissions(c, ts, j, n + 1) as real <= Budget(c, ts, j, n)
  {
    EarnedNondecreasing(c.rate, ts);
    AdmittedBound(c.burst, Earned(c.rate, ts), j, n);
    BudgetIsEarned(c, ts, j, n);
  }

  // The stored bucket against the ideal one.

  ghost predicate StoreAdmits(c: Config, ttl: real, ts: seq<real>, n: nat)
    requires n < |ts|
  {
    DecisionAt(StepOf(c, ttl), ts, n) == Allow
  }

  /** What a check that finds `level` tokens writes and answers. */
  function Outcome(level: real, now: real): (Entry<Bucket>, Decision) {
    (Entry(Bucket(level - Take(level), now), now), if level >= 1.0 then Allow else Deny)
  }

  lemma NonNegativeProduct(x: real, y: real)
    requires x >= 0.0 && y >= 0.0
    ensures x * y >= 0.0
  {
  }

  lemma ProductMonotone(x: real, y: real, k: real)
    requires x <= y && k >= 0.0
    ensures k * x <= k * y
  {
    assert k * (y - x) >= 0.0;
  }

  lemma RefillNow(c: Config, b: Bucket)
    requires b.tokens <= c.burst as real
    ensures Refill(c, b, b.lastRefill) == b
  {
    assert (b.lastRefill - b.lastRefill) * c.rate == 0.0;
  }

  lemma FirstCheck(c: Config, ttl: real, now: real)
    ensures CheckSlot(c, ttl, None, now) == Outcome(c.burst as real, now)
  {
    RefillNow(c, Bucket(c.burst as real, now));
  }

  lemma CheckForgets(c: Config, ttl: real, b: Bucket, now: real)
    requires now - b.lastRefill >= ttl
    ensures CheckSlot(c, ttl, Some(Entry(b, b.lastRefill)), now) == Outcome(c.burst as real, now)
  {
    FirstCheck(c, ttl, now);
  }

  lemma CheckRefills(c: Config, ttl: real, b: Bucket, now: real, earned: real)
    requires now - b.lastRefill < ttl && earned == (now - b.lastRefill) * c.rate
    ensures
      var level := Min(b.tokens + earned, c.burst as real);
      CheckSlot(c, ttl, Some(Entry(b, b.lastRefill)), now) == Outcome(level, now)
  {
    assert Refill(c, b, now).tokens == Min(b.tokens + earned, c.burst as real);
  }

  /** If a full refill takes no longer than the time to live, forgetting an entry
      is the same as refilling it. */
  lemma CheckIsRefill(c: Config, ttl: real, tokens: real, before: real, now: real, earned: real)
    requires ValidConfig(c) && 0.0 <= tokens && before <= now
    requires c.burst as real <= ttl * c.rate && earned == c.rate * now - c.rate * before
    ensures
      var level := Min(tokens + earned, c.burst as real);
      CheckSlot(c, ttl, Some(Entry(Bucket(tokens, before), before)), now) == Outcome(level, now)
  {
    var gap := now - before;
    assert earned == gap * c.rate;
    if gap >= ttl {
      ProductMonotone(ttl, gap, c.rate);
      CheckForgets(c, ttl, Bucket(tokens, before), now);
      assert Min(tokens + earned, c.burst as real) == c.burst as real;
    } else {
      CheckRefills(c, ttl, Bucket(tokens, before), now, earned);
    }
  }

  /** Check `i` tops up what the entry of check `i - 1` holds by what the gap earned. */
  ghost predicate TopsUp(step: Step<Bucket>, burst: nat, ts: seq<real>, earned: seq<real>, i: nat, tokens: real)
    requires 0 < i < |ts| == |earned|
  {
    step(Some(Entry(Bucket(tokens, ts[i - 1]), ts[i - 1])), ts[i]) ==
    Outcome(Min(tokens + (earned[i] - earned[i - 1]), burst as real), ts[i])
  }

  /** A step that turns levels into levels makes a run follow `Level`. */
  lemma {:induction false} RunFollowsLevel(step: Step<Bucket>, burst: nat, ts: seq<real>, earned: seq<real>, n: nat)
    requires |earned| == |ts| && Nondecreasing(earned) && n < |ts|
    requires step(None, ts[0]) == Outcome(burst as real, ts[0])
    requires forall i, tokens :: 0 < i < |ts| && tokens >= 0.0 ==> TopsUp(step, burst, ts, earned, i, tokens)
    ensures SlotAfter(step, ts[..n + 1]) == Some(Outcome(Level(burst, earned, n), ts[n]).0)
    ensures DecisionAt(step, ts, n) == Outcome(Level(burst, earned, n), ts[n]).1
  {
    SlotAfterNext(step, ts, n);
    if n == 0 {
      assert ts[..0] == [];
    } else {
      RunFollowsLevel(step, burst, ts, earned, n - 1);
      LevelBounds(burst, earned, n - 1);
      var before := Level(burst, earned, n - 1);
      assert TopsUp(step, burst, ts, earned, n, before - Take(before));
    }
  }

  /** When the bucket refills within the time to live, the stored bucket decides
      as the ideal one. */
  lemma StoreIsIdeal(c: Config, ttl: real, ts: seq<real>, n: nat)
    requires ValidConfig(c) && Nondecreasing(ts) && n < |ts|
    requires c.burst as real <= ttl * c.rate
    ensures StoreAdmits(c, ttl, ts, n) <==> Admits(c, ts, n)
  {
    var step := StepOf(c, ttl);
    var earned := Earned(c.rate, ts);
    EarnedNondecreasing(c.rate, ts);
    FirstCheck(c, ttl, ts[0]);
    forall i, tokens | 0 < i < |ts| && tokens >= 0.0
      ensures TopsUp(step, c.burst, ts, earned, i, tokens)
    {
      CheckIsRefill(c, ttl, tokens, ts[i - 1], ts[i], earned[i] - earned[i - 1]);
    }
    RunFollowsLevel(step, c.burst, ts, earned, n);
  }

  ghost predicate InRange(c: Config, b: Bucket) {
    0.0 <= b.tokens <= c.burst as real
  }

  lemma RefilledInRange(c: Config, ttl: real, b: Bucket, now: real)
    requires ValidConfig(c) && InRange(c, b) && b.lastRefill <= now && now - b.lastRefill < ttl
    ensures
      var entry := CheckSlot(c, ttl, Some(Entry(b, b.lastRefill)), now).0;
      InRange(c, entry.value) && entry.writtenAt == now && entry.value.lastRefill == now
  {
    var gap := now - b.lastRefill;
    var earned := gap * c.rate;
    NonNegativeProduct(gap, c.rate);
    CheckRefills(c, ttl, b, now, earned);
  }

  /** Whatever the store forgets, a stored bucket holds between 0 and `burst` tokens. */
  lemma {:induction false} StoredTokensInRange(c: Config, ttl: real, ts: seq<real>)
    requires ValidConfig(c) && Nondecreasing(ts)
    ensures
      var slot := SlotAfter(StepOf(c, ttl), ts);
      slot.Some? ==>
        slot.value.writtenAt == slot.value.value.lastRefill == ts[|ts| - 1] && InRange(c, slot.value.value)
  {
    if ts != [] {
      var n := |ts| - 1;
      var slot := SlotAfter(StepOf(c, ttl), ts[..n]);
      StoredTokensInRange(c, ttl, ts[..n]);
      if Live(slot, ttl, ts[n]).Some? {
        ProductMonotone(0.0, ts[n] - ts[n - 1], c.rate);
        var b := slot.value.value;
        assert slot == Some(Entry(b, b.lastRefill));
        RefilledInRange(c, ttl, b, ts[n]);
      } else {
        FirstCheck(c, ttl, ts[n]);
      }
    }
  }

  // Whatever the time to live: each lapse gives away at most one burst.

  /** How many of the checks j, ..., n - 1 the store admits. */
  ghost function StoreAdmissions(c: Config, ttl: real, ts: seq<real>, j: nat, n: nat): nat
    requires j <= n <= |ts|
  {
    if j == n then 0
    else StoreAdmissions(c, ttl, ts, j, n - 1) + if StoreAdmits(c, ttl, ts, n - 1) then 1 else 0
  }

  /** How many of the checks j + 1, ..., n find the entry of the check before
      them expired. */
  function Lapses(ttl: real, ts: seq<real>, j: nat, n: nat): nat
    requires j <= n < |ts|
  {
    if j == n then 0 else Lapses(ttl, ts, j, n - 1) + if ts[n] - ts[n - 1] >= ttl then 1 else 0
  }

  lemma EarnedGap(rate: real, ts: seq<real>, n: nat)
    requires 0 < n < |ts|
    ensures Earned(rate, ts)[n] - Earned(rate, ts)[n - 1] == (ts[n] - ts[n - 1]) * rate
  {
  }

  /** One check takes and leaves at most what it finds, and a lapse puts in at
      most one burst. */
  lemma StoredStep(c: Config, ttl: real, b: Bucket, now: real, earned: real)
    requires ValidConfig(c) && InRange(c, b) && b.lastRefill <= now && earned == (now - b.lastRefill) * c.rate
    ensures
      var (entry, answer) := CheckSlot(c, ttl, Some(Entry(b, b.lastRefill)), now);
      var lapse := if now - b.lastRefill >= ttl then c.burst as real else 0.0;
      entry.value.tokens + (if answer == Allow then 1.0 else 0.0) <= b.tokens + earned + lapse
  {
    var gap := now - b.lastRefill;
    NonNegativeProduct(gap, c.rate);
    assert earned == gap * c.rate && earned >= 0.0;
    if gap >= ttl {
      CheckForgets(c, ttl, b, now);
    } else {
      CheckRefills(c, ttl, b, now, earned);
    }
  }

  /** What the store holds after check `n`. */
  ghost function Stored(c: Config, ttl: real, ts: seq<real>, n: nat): real
    requires n < |ts|
  {
    CheckSlot(c, ttl, SlotAfter(StepOf(c, ttl), ts[..n]), ts[n]).0.value.tokens
  }

  ghost function Taken(c: Config, ttl: real, ts: seq<real>, n: nat): real
    requires n < |ts|
  {
    if StoreAdmits(c, ttl, ts, n) then 1.0 else 0.0
  }

  function LapseAt(c: Config, ttl: real, ts: seq<real>, n: nat): real
    requires 0 < n < |ts|
  {
    if ts[n] - ts[n - 1] >= ttl then c.burst as real else 0.0
  }

  lemma StoredInRange(c: Config, ttl: real, ts: seq<real>, n: nat)
    requires ValidConfig(c) && Nondecreasing(ts) && n < |ts|
    ensures InRange(c, Bucket(Stored(c, ttl, ts, n), ts[n]))
    ensures SlotAfter(StepOf(c, ttl), ts[..n + 1]) == Some(Entry(Bucket(Stored(c, ttl, ts, n), ts[n]), ts[n]))
  {
    SlotAfterNext(StepOf(c, ttl), ts, n);
    StoredTokensInRange(c, ttl, ts[..n + 1]);
    assert ts[..n + 1][n] == ts[n];
  }

  lemma StoredAfter(c: Config, ttl: real, ts: seq<real>, n: nat, held: real, earned: real)
    requires ValidConfig(c) && 0 < n < |ts| && ts[n - 1] <= ts[n] && earned == (ts[n] - ts[n - 1]) * c.rate
    requires InRange(c, Bucket(held, ts[n - 1]))
    requires SlotAfter(StepOf(c, ttl), ts[..n]) == Some(Entry(Bucket(held, ts[n - 1]), ts[n - 1]))
    ensures Stored(c, ttl, ts, n) + Taken(c, ttl, ts, n) <= held + earned + LapseAt(c, ttl, ts, n)
  {
    StoredStep(c, ttl, Bucket(held, ts[n - 1]), ts[n], earned);
  }

  lemma StoredNext(c: Config, ttl: real, ts: seq<real>, n: nat)
    requires ValidConfig(c) && Nondecreasing(ts) && 0 < n < |ts|
    ensures Stored(c, ttl, ts, n) + Taken(c, ttl, ts, n) <=
      Stored(c, ttl, ts, n - 1) + (Earned(c.rate, ts)[n] - Earned(c.rate, ts)[n - 1]) + LapseAt(c, ttl, ts, n)
  {
    hide Stored, Taken, LapseAt;
    var held := Stored(c, ttl, ts, n - 1);
    var earned := Earned(c.rate, ts)[n] - Earned(c.rate, ts)[n - 1];
    StoredInRange(c, ttl, ts, n - 1);
    EarnedGap(c.rate, ts, n);
    StoredAfter(c, ttl, ts, n, held, earned);
  }

  function TimesBurst(burst: nat, lapses: nat): real {
    if lapses == 0 then 0.0 else TimesBurst(burst, lapses - 1) + burst as real
  }

  lemma {:induction false} TimesBurstIsProduct(burst: nat, lapses: nat)
    ensures TimesBurst(burst, lapses) == (burst * lapses) as real
  {
    if lapses > 0 {
      TimesBurstIsProduct(burst, lapses - 1);
      assert burst * lapses == burst * (lapses - 1) + burst;
    }
  }

  /** A check finds at most a full bucket. */
  lemma StoredFirst(c: Config, ttl: real, ts: seq<real>, n: nat)
    requires n < |ts|
    ensures Stored(c, ttl, ts, n) + Taken(c, ttl, ts, n) <= c.burst as real
  {
  }

  /** Admissions and what the store still holds are paid for. */
  lemma {:induction false} StorePays(c: Config, ttl: real, ts: seq<real>, j: nat, n: nat)
    requires ValidConfig(c) && Nondecreasing(ts) && j <= n < |ts|
    ensures
      StoreAdmissions(c, ttl, ts, j, n + 1) as real + Stored(c, ttl, ts, n) <=
      c.burst as real + TimesBurst(c.burst, Lapses(ttl, ts, j, n)) + (Earned(c.rate, ts)[n] - Earned(c.rate, ts)[j])
  {
    if n == j {
      StoredFirst(c, ttl, ts, n);
      assert StoreAdmissions(c, ttl, ts, j, j) == 0;
    } else {
      StorePays(c, ttl, ts, j, n - 1);
      StoredNext(c, ttl, ts, n);
    }
  }

  /** On every run, expiry included, checks j to n admit at most one burst, one
      more for each lapse between them, and what the time between them refills. */
  lemma IntervalBoundWithLapses(c: Config, ttl: real, ts: seq<real>, j: nat, n: nat)
    requires ValidConfig(c) && Nondecreasing(ts) && j <= n < |ts|
    ensures StoreAdmissions(c, ttl, ts, j, n + 1) as real <=
      (c.burst * Lapses(ttl, ts, j, n)) as real + Budget(c, ts, j, n)
  {
    StorePays(c, ttl, ts, j, n);
    StoredInRange(c, ttl, ts, n);
    TimesBurstIsProduct(c.burst, Lapses(ttl, ts, j, n));
    BudgetIsEarned(c, ts, j, n);
  }

  // When a full refill takes longer: spend the burst, wait out the time to live,
  // and the store has forgotten the debt.

  /** `burst` checks at time 0, then `more` checks at time `ttl`. */
  function SpendThenWait(burst: nat, ttl: real, more: nat): (ts: seq<real>) {
    seq(burst + more, i => if i < burst then 0.0 else ttl)
  }

  lemma {:induction false} SpendingLevels(burst: nat, refilled: real, earned: seq<real>, n: nat)
    requires 0.0 <= refilled < burst as real && burst <= |earned|
    requires forall i :: 0 <= i < |earned| ==> earned[i] == if i < burst then 0.0 else refilled
    requires n < |earned|
    requires n as real <= burst as real + refilled
    ensures Level(burst, earned, n) == if n < burst then (burst - n) as real else refilled + burst as real - n as real
  {
    if n > 0 {
      SpendingLevels(burst, refilled, earned, n - 1);
    }
  }

  lemma RepeatedCheck(c: Config, ttl: real, tokens: real, now: real)
    requires ttl > 0.0 && tokens <= c.burst as real
    ensures CheckSlot(c, ttl, Some(Entry(Bucket(tokens, now), now)), now) == Outcome(tokens, now)
  {
    RefillNow(c, Bucket(tokens, now));
  }

  /** Whole tokens the store shows to check `n` of that run. */
  function LeftInStore(burst: nat, n: nat): nat
    requires n <= 2 * burst
  {
    if n < burst then burst - n else 2 * burst - n
  }

  lemma {:induction false} SpendingStore(c: Config, ttl: real, more: nat, n: nat)
    requires ttl > 0.0 && more <= c.burst && n < c.burst + more
    ensures
      var ts := SpendThenWait(c.burst, ttl, more);
      var left := LeftInStore(c.burst, n);
      StoreAdmits(c, ttl, ts, n) && SlotAfter(StepOf(c, ttl), ts[..n + 1]) == Some(Outcome(left as real, ts[n]).0)
  {
    hide CheckSlot;
    var ts := SpendThenWait(c.burst, ttl, more);
    SlotAfterNext(StepOf(c, ttl), ts, n);
    if n == 0 {
      assert ts[..0] == [];
      FirstCheck(c, ttl, 0.0);
    } else {
      SpendingStore(c, ttl, more, n - 1);
      if n == c.burst {
        CheckForgets(c, ttl, Outcome(LeftInStore(c.burst, n - 1) as real, 0.0).0.value, ttl);
      } else {
        var left := LeftInStore(c.burst, n);
        RepeatedCheck(c, ttl, left as real, ts[n]);
      }
    }
  }

  lemma DebtForgotten(c: Config, ttl: real) returns (ts: seq<real>, n: nat)
    requires ValidConfig(c) && ttl > 0.0 && c.burst as real > ttl * c.rate
    ensures Nondecreasing(ts) && n < |ts| && StoreAdmits(c, ttl, ts, n) && !Admits(c, ts, n)
  {
    var refilled := c.rate * ttl;
    ProductMonotone(0.0, ttl, c.rate);
    var more := refilled.Floor + 1;
    ts := SpendThenWait(c.burst, ttl, more);
    n := c.burst + more - 1;
    SpendingLevels(c.burst, refilled, Earned(c.rate, ts), n);
    SpendingStore(c, ttl, more, n);
  }

  /** Expiry changes no decision of any run if and only if the bucket refills
      within the time to live. */
  lemma ExpiryInvisible(c: Config, ttl: real)
    requires ValidConfig(c) && ttl > 0.0
    ensures (forall ts: seq<real>, n: nat :: Nondecreasing(ts) && n < |ts| ==>
              (StoreAdmits(c, ttl, ts, n) <==> Admits(c, ts, n)))
      <==> c.burst as real <= ttl * c.rate
  {
    if c.burst as real <= ttl * c.rate {
      forall ts: seq<real>, n: nat | Nondecreasing(ts) && n < |ts|
        ensures StoreAdmits(c, ttl, ts, n) <==> Admits(c, ts, n)
      {
        StoreIsIdeal(c, ttl, ts, n);
      }
    } else {
      var ts, n := DebtForgotten(c, ttl);
    }
  }
}
