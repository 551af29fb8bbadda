/** The local sliding-window limiter: a deque of admission times per key. */
module SlidingWindow {
  import opened Wrappers
  import opened LocalStore

  // The reference: a limiter that remembers every admission.

  /** At most `limit` admissions within `width`; a closed window counts an
      admission exactly `width` ago, an open one does not. */
  datatype Window = Window(limit: nat, width: real, closed: bool)

  ghost predicate ValidWindow(w: Window) {
    w.width >= 0.0
  }

  predicate Within(w: Window, admission: real, now: real) {
    now - admission < w.width || (w.closed && now - admission == w.width)
  }

  function Recent(w: Window, history: seq<real>, now: real): seq<real> {
    if history == [] then []
    else
      var last := history[|history| - 1];
      Recent(w, history[..|history| - 1], now) + if Within(w, last, now) then [last] else []
  }

  /** All admissions among the first `n` checks. */
  function History(w: Window, ts: seq<real>, n: nat): seq<real>
    requires n <= |ts|
  {
    if n == 0 then []
    else
      var before := History(w, ts, n - 1);
      if |Recent(w, before, ts[n - 1])| < w.limit then before + [ts[n - 1]] else before
  }

  ghost predicate WindowAdmits(w: Window, ts: seq<real>, n: nat)
    requires n < |ts|
  {
    |Recent(w, History(w, ts, n), ts[n])| < w.limit
  }

  lemma {:induction false} RecentConcat(w: Window, p: seq<real>, q: seq<real>, now: real)
    ensures Recent(w, p + q, now) == Recent(w, p, now) + Recent(w, q, now)
    decreases |q|
  {
    if q == [] {
      assert p + q == p;
    } else {
      assert (p + q)[..|p + q| - 1] == p + q[..|q| - 1];
      RecentConcat(w, p, q[..|q| - 1], now);
    }
  }

  /** What has left the window never comes back into it. */
  lemma {:induction false} RecentAgain(w: Window, history: seq<real>, t: real, t': real)
    requires t <= t'
    ensures Recent(w, Recent(w, history, t), t') == Recent(w, history, t')
  {
    if history != [] {
      var earlier, last := history[..|history| - 1], history[|history| - 1];
      RecentAgain(w, earlier, t, t');
      RecentConcat(w, Recent(w, earlier, t), if Within(w, last, t) then [last] else [], t');
    }
  }

  /** What a check writes, given what it finds. */
  function Written(limit: nat, kept: seq<real>, now: real): seq<real> {
    if |kept| < limit then kept + [now] else kept
  }

  /** The admissions a later check counts can be taken from the pruned ones. */
  lemma HistoryNext(w: Window, ts: seq<real>, n: nat, t: real)
    requires n < |ts| && ts[n] <= t
    ensures
      var kept := Recent(w, History(w, ts, n), ts[n]);
      Recent(w, Written(w.limit, kept, ts[n]), t) == Recent(w, History(w, ts, n + 1), t)
  {
    var before := History(w, ts, n);
    var kept := Recent(w, before, ts[n]);
    RecentAgain(w, before, ts[n], t);
    RecentConcat(w, kept, [ts[n]], t);
    RecentConcat(w, before, [ts[n]], t);
  }

  lemma {:induction false} RecentNone(w: Window, history: seq<real>, now: real)
    requires forall i :: 0 <= i < |history| ==> !Within(w, history[i], now)
    ensures Recent(w, history, now) == []
  {
    if history != [] {
      RecentNone(w, history[..|history| - 1], now);
    }
  }

  lemma {:induction false} RecentAll(w: Window, history: seq<real>, now: real)
    requires forall i :: 0 <= i < |history| ==> Within(w, history[i], now)
    ensures Recent(w, history, now) == history
  {
    if history != [] {
      RecentAll(w, history[..|history| - 1], now);
    }
  }

  lemma {:induction false} HistoryNondecreasing(w: Window, ts: seq<real>, n: nat)
    requires Nondecreasing(ts) && n <= |ts|
    ensures Nondecreasing(History(w, ts, n))
    ensures forall i :: 0 <= i < |History(w, ts, n)| ==> History(w, ts, n)[i] <= ts[n - 1]
  {
    if n > 0 {
      HistoryNondecreasing(w, ts, n - 1);
    }
  }

  /** In a sorted history, everything after a recent admission is recent too. */
  lemma {:induction false} RecentCounts(w: Window, history: seq<real>, now: real, i: nat)
    requires Nondecreasing(history) && i < |history| && Within(w, history[i], now)
    ensures |Recent(w, history, now)| >= |history| - i
  {
    var n := |history| - 1;
    assert Within(w, history[n], now);
    if i < n {
      RecentCounts(w, history[..n], now, i);
    }
  }

  /** Any limit + 1 consecutive admissions are too far apart for one window. */
  lemma {:induction false} AdmissionsSpread(w: Window, ts: seq<real>, n: nat, i: nat)
    requires ValidWindow(w) && Nondecreasing(ts) && n <= |ts|
    requires i + w.limit < |History(w, ts, n)|
    ensures !Within(w, History(w, ts, n)[i], History(w, ts, n)[i + w.limit])
  {
    var before := History(w, ts, n - 1);
    if i + w.limit < |before| {
      AdmissionsSpread(w, ts, n - 1, i);
    } else if Within(w, before[i], ts[n - 1]) {
      HistoryNondecreasing(w, ts, n - 1);
      RecentCounts(w, before, ts[n - 1], i);
    }
  }

  // The deque.

  /** Pops stale times off the front. */
  function DropStale(deque: seq<real>, width: real, now: real): seq<real> {
    if deque != [] && now - deque[0] > width then DropStale(deque[1..], width, now) else deque
  }

  function CheckSlot(limit: nat, width: real, ttl: real, slot: Slot<seq<real>>, now: real): (Entry<seq<real>>, Decision) {
    var deque := DropStale(Live(slot, ttl, now).GetOr([]), width, now);
    if |deque| < limit then (Entry(deque + [now], now), Allow) else (Entry(deque, now), Deny)
  }

  function StepOf(limit: nat, width: real, ttl: real): Step<seq<real>> {
    (slot, now) => CheckSlot(limit, width, ttl, slot, now)
  }

  /** One second divided by `rps`, in whole nanoseconds. */
  function WidthOf(rps: nat): real {
    (1_000_000_000 / if rps == 0 then 1 else rps) as real / 1_000_000_000.0
  }

  class SlidingWindow {
    const window: real
    const maxRequests: nat
    const store: LocalStore<Key, seq<real>>

    constructor (rps: nat, burst: nat)
      ensures window == WidthOf(rps) && maxRequests == rps
      ensures fresh(store) && store.entries == map[] && store.ttl == 600.0
    {
      window := WidthOf(rps);
      maxRequests := rps;
      store := new LocalStore<Key, seq<real>>(TTL);
    }

    method PopStale(deque: seq<real>, now: real) returns (kept: seq<real>)
      ensures kept == DropStale(deque, window, now)
    {
      kept := deque;
      while kept != [] && now - kept[0] > window
        invariant DropStale(kept, window, now) == DropStale(deque, window, now)
        decreases |kept|
      {
        kept := kept[1..];
      }
    }

    method Check(key: Key, now: real) returns (d: Decision)
      modifies store
      ensures
        var (entry, answer) := StepOf(maxRequests, window, store.ttl)(SlotOf(old(store.entries), key), now);
        d == answer && store.entries == old(store.entries)[key := entry]
    {
      var deque := store.GetOrInsert(key, [], now);
      deque := PopStale(deque, now);
      store.Insert(key, deque, now);
      if |deque| < maxRequests {
        deque := deque + [now];
        store.Insert(key, deque, now);
        d := Allow;
      } else {
        d := Deny;
      }
    }
  }

  lemma {:induction false} DropStaleIsRecent(w: Window, deque: seq<real>, now: real)
    requires w.closed && Nondecreasing(deque)
    ensures DropStale(deque, w.width, now) == Recent(w, deque, now)
    ensures Nondecreasing(DropStale(deque, w.width, now))
  {
    hide Recent;
    if deque == [] {
      RecentNone(w, deque, now);
    } else if now - deque[0] > w.width {
      DropStaleIsRecent(w, deque[1..], now);
      assert deque == [deque[0]] + deque[1..];
      RecentConcat(w, [deque[0]], deque[1..], now);
      RecentNone(w, [deque[0]], now);
    } else {
      RecentAll(w, deque, now);
    }
  }

  ghost predicate StoreAdmits(limit: nat, width: real, ttl: real, ts: seq<real>, n: nat)
    requires n < |ts|
  {
    DecisionAt(StepOf(limit, width, ttl), ts, n) == Allow
  }

  /** What a check at `t` would find in the store after `n` checks. */
  function Deque(w: Window, ttl: real, ts: seq<real>, n: nat, t: real): seq<real>
    requires n <= |ts|
  {
    DropStale(Live(SlotAfter(StepOf(w.limit, w.width, ttl), ts[..n]), ttl, t).GetOr([]), w.width, t)
  }

  /** What is stored and not stale is what is recent; what the store forgets is stale. */
  lemma StoredIsRecent(w: Window, ttl: real, stored: seq<real>, writtenAt: real, t: real)
    requires w.closed && w.width < ttl && Nondecreasing(stored) && writtenAt <= t
    requires forall i :: 0 <= i < |stored| ==> stored[i] <= writtenAt
    ensures DropStale(Live(Some(Entry(stored, writtenAt)), ttl, t).GetOr([]), w.width, t) == Recent(w, stored, t)
  {
    DropStaleIsRecent(w, stored, t);
    if t - writtenAt >= ttl {
      RecentNone(w, stored, t);
    }
  }

  lemma SlotFromDeque(w: Window, ttl: real, ts: seq<real>, n: nat)
    requires n < |ts|
    ensures SlotAfter(StepOf(w.limit, w.width, ttl), ts[..n + 1]) ==
      Some(Entry(Written(w.limit, Deque(w, ttl, ts, n, ts[n]), ts[n]), ts[n]))
  {
    SlotAfterNext(StepOf(w.limit, w.width, ttl), ts, n);
  }

  lemma WrittenSorted(w: Window, ts: seq<real>, n: nat)
    requires Nondecreasing(ts) && n < |ts|
    ensures
      var left := Written(w.limit, Recent(w, History(w, ts, n), ts[n]), ts[n]);
      Nondecreasing(left) && forall i :: 0 <= i < |left| ==> left[i] <= ts[n]
  {
    HistoryNondecreasing(w, ts, n);
    RecentSorted(w, History(w, ts, n), ts[n]);
  }

  /** The deque, pruned and forgotten as it is, holds exactly the admissions a
      full history would still count. */
  lemma {:induction false} DequeIsRecentHistory(w: Window, ttl: real, ts: seq<real>, n: nat, t: real)
    requires w.closed && ValidWindow(w) && w.width < ttl && Nondecreasing(ts) && n <= |ts|
    requires n > 0 ==> ts[n - 1] <= t
    ensures Deque(w, ttl, ts, n, t) == Recent(w, History(w, ts, n), t)
  {
    if n == 0 {
      assert ts[..0] == [];
    } else {
      var now := ts[n - 1];
      DequeIsRecentHistory(w, ttl, ts, n - 1, now);
      SlotFromDeque(w, ttl, ts, n - 1);
      HistoryNext(w, ts, n - 1, t);
      WrittenSorted(w, ts, n - 1);
      StoredIsRecent(w, ttl, Written(w.limit, Recent(w, History(w, ts, n - 1), now), now), now, t);
    }
  }

  lemma {:induction false} RecentSorted(w: Window, history: seq<real>, now: real)
    requires Nondecreasing(history)
    requires history != [] ==> history[|history| - 1] <= now
    ensures Nondecreasing(Recent(w, history, now))
    ensures forall i :: 0 <= i < |Recent(w, history, now)| ==> Recent(w, history, now)[i] <= history[|history| - 1]
  {
    if |history| > 0 {
      RecentSorted(w, history[..|history| - 1], now);
    }
  }

  /** The stored deque decides as the limiter with a full history, on every run. */
  lemma DequeIsExact(limit: nat, width: real, ttl: real, ts: seq<real>, n: nat)
    requires 0.0 <= width < ttl && Nondecreasing(ts) && n < |ts|
    ensures StoreAdmits(limit, width, ttl, ts, n) <==> WindowAdmits(Window(limit, width, true), ts, n)
  {
    DequeIsRecentHistory(Window(limit, width, true), ttl, ts, n, ts[n]);
  }

  lemma WidthBounds(rps: nat)
    ensures 0.0 <= WidthOf(rps) <= 1.0
    ensures rps <= 1 ==> WidthOf(rps) == 1.0
    ensures rps >= 2 ==> WidthOf(rps) <= 0.5
  {
    if rps >= 2 {
      assert 1_000_000_000 / rps <= 500_000_000;
    }
  }

  lemma Quotient(a: nat, d: nat) returns (q: nat)
    requires d >= 1
    ensures q == a / d && q * d <= a < (q + 1) * d
  {
    q := a / d;
    assert a == d * q + a % d;
  }

  /** The width is one second divided by `rps`, cut to a whole number of nanoseconds. */
  lemma WidthIsQuotient(rps: nat) returns (nanos: nat)
    requires rps >= 1
    ensures nanos * rps <= 1_000_000_000 < (nanos + 1) * rps
    ensures WidthOf(rps) == nanos as real / 1_000_000_000.0
  {
    nanos := Quotient(1_000_000_000, rps);
  }

  /** The limiter as configured. */
  lemma LocalWindowIsExact(rps: nat, ts: seq<real>, n: nat)
    requires Nondecreasing(ts) && n < |ts|
    ensures StoreAdmits(rps, WidthOf(rps), 600.0, ts, n) <==> WindowAdmits(Window(rps, WidthOf(rps), true), ts, n)
  {
    WidthBounds(rps);
    DequeIsExact(rps, WidthOf(rps), 600.0, ts, n);
  }

  // The window shrinks with rps while the limit grows with it, so the limiter
  // does not hold a client to `rps` requests per second.

  /** No rps + 1 admissions of any run fall within one second. */
  ghost predicate HoldsPerSecond(rps: nat) {
    forall ts: seq<real>, i: nat :: Nondecreasing(ts) ==>
      var h := History(Window(rps, WidthOf(rps), true), ts, |ts|);
      i + rps < |h| ==> h[i + rps] - h[i] > 1.0
  }

  lemma {:induction false} BurstAtZero(w: Window, ts: seq<real>, n: nat)
    requires n <= w.limit && n <= |ts| && forall i :: 0 <= i < n ==> ts[i] == 0.0
    ensures History(w, ts, n) == ts[..n]
  {
    if n > 0 {
      BurstAtZero(w, ts, n - 1);
      RecentAtMost(w, ts[..n - 1], ts[n - 1]);
      assert ts[..n] == ts[..n - 1] + [ts[n - 1]];
    }
  }

  lemma {:induction false} RecentAtMost(w: Window, history: seq<real>, now: real)
    ensures |Recent(w, history, now)| <= |history|
  {
    if history != [] {
      RecentAtMost(w, history[..|history| - 1], now);
    }
  }

  lemma BreaksPerSecond(rps: nat) returns (ts: seq<real>)
    requires rps >= 2
    ensures Nondecreasing(ts)
    ensures
      var h := History(Window(rps, WidthOf(rps), true), ts, |ts|);
      |h| == rps + 1 && h[rps] - h[0] == 0.75
  {
    var w := Window(rps, WidthOf(rps), true);
    WidthBounds(rps);
    ts := BurstThenOne(rps, 0.75);
    BurstAtZero(w, ts, rps);
    RecentNone(w, ts[..rps], 0.75);
  }

  lemma BurstThenOneAdmits(w: Window, x: real)
    requires w.limit >= 1 && x >= 0.0
    ensures WindowAdmits(w, BurstThenOne(w.limit, x), w.limit) <==> !Within(w, 0.0, x)
  {
    var ts := BurstThenOne(w.limit, x);
    BurstAtZero(w, ts, w.limit);
    if Within(w, 0.0, x) {
      RecentAll(w, ts[..w.limit], x);
    } else {
      RecentNone(w, ts[..w.limit], x);
    }
  }

  /** The limiter as configured, in nanoseconds: after `rps` checks at 0 it admits
      one at `x` exactly if `x` is past the most nanoseconds that go `rps` times
      into a second. */
  lemma NextAfterBurst(rps: nat, x: real) returns (nanos: nat)
    requires rps >= 1 && x >= 0.0
    ensures nanos * rps <= 1_000_000_000 < (nanos + 1) * rps
    ensures StoreAdmits(rps, WidthOf(rps), 600.0, BurstThenOne(rps, x), rps) <==> x > nanos as real / 1_000_000_000.0
  {
    nanos := WidthIsQuotient(rps);
    LocalWindowIsExact(rps, BurstThenOne(rps, x), rps);
    BurstThenOneAdmits(Window(rps, WidthOf(rps), true), x);
  }

  lemma PerSecondExactly(rps: nat)
    ensures HoldsPerSecond(rps) <==> rps <= 1
  {
    var w := Window(rps, WidthOf(rps), true);
    WidthBounds(rps);
    if rps <= 1 {
      forall ts: seq<real>, i: nat | Nondecreasing(ts) && i + rps < |History(w, ts, |ts|)|
        ensures History(w, ts, |ts|)[i + rps] - History(w, ts, |ts|)[i] > 1.0
      {
        AdmissionsSpread(w, ts, |ts|, i);
      }
    } else {
      var ts := BreaksPerSecond(rps);
    }
  }
}
