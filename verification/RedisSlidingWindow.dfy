/** The sliding-window script that Redis runs: a sorted set of admission times
    per key. Unlike the local deque it also drops an admission exactly one
    window old. */
module RedisSlidingWindow {
  import opened Wrappers
  import opened LocalStore
  import opened SlidingWindow

  datatype ScoreSet = ScoreSet(scores: seq<real>, expiresAt: real)

  /** The scores a command sees: none once the key has expired. */
  function Visible(z: Option<ScoreSet>, now: real): seq<real> {
    if z.Some? && now < z.value.expiresAt then z.value.scores else []
  }

  /** ZREMRANGEBYSCORE key -inf bound. */
  function RemoveUpTo(scores: seq<real>, bound: real): seq<real> {
    if scores == [] then []
    else
      var last := scores[|scores| - 1];
      RemoveUpTo(scores[..|scores| - 1], bound) + if last <= bound then [] else [last]
  }

  /** One evaluation: the set it leaves (an emptied key is gone) and its reply. */
  function Script(limit: nat, window: nat, z: Option<ScoreSet>, now: real): (Option<ScoreSet>, int) {
    var scores := RemoveUpTo(Visible(z, now), now - window as real);
    if |scores| < limit then (Some(ScoreSet(scores + [now], now + (window * 2) as real)), 1)
    else if scores == [] then (None, 0)
    else (Some(ScoreSet(scores, z.value.expiresAt)), 0)
  }

  class RedisServer {
    var sets: map<Key, ScoreSet>

    constructor ()
      ensures sets == map[]
    {
      sets := map[];
    }

    function SetAt(key: Key): Option<ScoreSet>
      reads this
    {
      if key in sets then Some(sets[key]) else None
    }

    method ZRemRangeByScore(key: Key, bound: real, now: real)
      modifies this
      ensures Visible(SetAt(key), now) == RemoveUpTo(Visible(old(SetAt(key)), now), bound)
      ensures
        var left := RemoveUpTo(Visible(old(SetAt(key)), now), bound);
        SetAt(key) == if left == [] then None else Some(ScoreSet(left, old(SetAt(key)).value.expiresAt))
      ensures forall other :: other != key ==> SetAt(other) == old(SetAt(other))
    {
      var left := [];
      if key in sets && now < sets[key].expiresAt {
        left := RemoveUpTo(sets[key].scores, bound);
      }
      if left == [] {
        sets := sets - {key};
      } else {
        sets := sets[key := sets[key].(scores := left)];
      }
    }

    method EvalSlidingWindow(key: Key, limit: nat, window: nat, now: real) returns (reply: int)
      modifies this
      ensures
        var (z, answer) := Script(limit, window, old(SetAt(key)), now);
        reply == answer && SetAt(key) == z
      ensures forall other :: other != key ==> SetAt(other) == old(SetAt(other))
    {
      var windowStart := now - window as real;
      ZRemRangeByScore(key, windowStart, now);
      var scores := if key in sets then sets[key].scores else [];
      if |scores| < limit {
        sets := sets[key := ScoreSet(scores + [now], now + (window * 2) as real)];
        reply := 1;
      } else {
        reply := 0;
      }
    }
  }

  function SetBefore(limit: nat, window: nat, ts: seq<real>, n: nat): Option<ScoreSet>
    requires n <= |ts|
  {
    if n == 0 then None else Script(limit, window, SetBefore(limit, window, ts, n - 1), ts[n - 1]).0
  }

  ghost predicate RedisAdmits(limit: nat, window: nat, ts: seq<real>, n: nat)
    requires n < |ts|
  {
    Script(limit, window, SetBefore(limit, window, ts, n), ts[n]).1 == 1
  }

  function OpenWindow(limit: nat, window: nat): Window {
    Window(limit, window as real, false)
  }

  lemma {:induction false} RemoveIsRecent(w: Window, scores: seq<real>, now: real)
    requires !w.closed
    ensures RemoveUpTo(scores, now - w.width) == Recent(w, scores, now)
  {
    if scores != [] {
      RemoveIsRecent(w, scores[..|scores| - 1], now);
    }
  }

  lemma {:induction false} RecentIsEarlier(w: Window, history: seq<real>, now: real, bound: real)
    requires forall i :: 0 <= i < |history| ==> history[i] <= bound
    ensures forall i :: 0 <= i < |Recent(w, history, now)| ==> Recent(w, history, now)[i] <= bound
  {
    if history != [] {
      RecentIsEarlier(w, history[..|history| - 1], now, bound);
    }
  }

  /** Every stored score leaves the window no later than its key expires. */
  ghost predicate ExpiresLate(window: nat, z: Option<ScoreSet>) {
    z.Some? ==> forall i :: 0 <= i < |z.value.scores| ==> z.value.scores[i] <= z.value.expiresAt - (window * 2) as real
  }

  /** The scores an evaluation keeps, and those it leaves. */
  function Kept(window: nat, z: Option<ScoreSet>, now: real): seq<real> {
    RemoveUpTo(Visible(z, now), now - window as real)
  }

  lemma ScriptLeaves(limit: nat, window: nat, z: Option<ScoreSet>, now: real)
    requires ExpiresLate(window, z)
    requires z.Some? ==> z.value.expiresAt <= now + (window * 2) as real
    ensures
      var next, left := Script(limit, window, z, now).0, Written(limit, Kept(window, z, now), now);
      ExpiresLate(window, next) &&
      (next.Some? ==> next.value.expiresAt <= now + (window * 2) as real && next.value.scores == left) &&
      (next.None? ==> left == [])
  {
    var w := OpenWindow(limit, window);
    RemoveIsRecent(w, Visible(z, now), now);
    if z.Some? {
      RecentIsEarlier(w, z.value.scores, now, z.value.expiresAt - (window * 2) as real);
      RecentIsEarlier(w, z.value.scores, now, now);
    }
  }

  /** Expiry hides only what has left the window. */
  lemma VisibleLater(limit: nat, window: nat, z: ScoreSet, t: real)
    requires ExpiresLate(window, Some(z))
    ensures Kept(window, Some(z), t) == Recent(OpenWindow(limit, window), z.scores, t)
  {
    var w := OpenWindow(limit, window);
    RemoveIsRecent(w, Visible(Some(z), t), t);
    if t >= z.expiresAt {
      RecentNone(w, z.scores, t);
    }
  }

  lemma {:induction false} SetIsRecentHistory(limit: nat, window: nat, ts: seq<real>, n: nat, t: real)
    requires Nondecreasing(ts) && n <= |ts|
    requires n > 0 ==> ts[n - 1] <= t
    ensures
      var w, z := OpenWindow(limit, window), SetBefore(limit, window, ts, n);
      ExpiresLate(window, z) &&
      (z.Some? ==> n > 0 && z.value.expiresAt <= ts[n - 1] + (window * 2) as real) &&
      Kept(window, z, t) == Recent(w, History(w, ts, n), t)
  {
    if n > 0 {
      var w, now := OpenWindow(limit, window), ts[n - 1];
      var z := SetBefore(limit, window, ts, n - 1);
      SetIsRecentHistory(limit, window, ts, n - 1, now);
      ScriptLeaves(limit, window, z, now);
      HistoryNext(w, ts, n - 1, t);
      var next := SetBefore(limit, window, ts, n);
      if next.Some? {
        VisibleLater(limit, window, next.value, t);
      }
    }
  }

  /** The script decides as an open-window limiter with a full history: pruning
      the set and losing the key at its expiry never change an answer. */
  lemma RedisWindowIsExact(limit: nat, window: nat, ts: seq<real>, n: nat)
    requires Nondecreasing(ts) && n < |ts|
    ensures RedisAdmits(limit, window, ts, n) <==> WindowAdmits(OpenWindow(limit, window), ts, n)
  {
    SetIsRecentHistory(limit, window, ts, n, ts[n]);
  }

  /** After `limit` admissions at 0 the next one comes when the window is over, to the
      instant. */
  lemma NextAfterBurst(limit: nat, window: nat, x: real)
    requires limit >= 1 && x >= 0.0
    ensures RedisAdmits(limit, window, BurstThenOne(limit, x), limit) <==> x >= window as real
  {
    BurstThenOneAdmits(OpenWindow(limit, window), x);
    RedisWindowIsExact(limit, window, BurstThenOne(limit, x), limit);
  }

  // The limiter used when Redis cannot be reached is a local one built from the
  // limit alone, whose window is one second divided by the limit.

  ghost predicate FallbackAgrees(limit: nat, window: nat) {
    forall ts: seq<real>, n: nat :: Nondecreasing(ts) && n < |ts| ==>
      (RedisAdmits(limit, window, ts, n) <==> StoreAdmits(limit, WidthOf(limit), 600.0, ts, n))
  }

  lemma FallbackDiffers(limit: nat, window: nat, x: real)
    requires limit >= 1 && x >= 0.0
    requires (x < window as real) != (x <= WidthOf(limit))
    ensures
      var ts := BurstThenOne(limit, x);
      !(RedisAdmits(limit, window, ts, limit) <==> StoreAdmits(limit, WidthOf(limit), 600.0, ts, limit))
  {
    var ts := BurstThenOne(limit, x);
    BurstThenOneAdmits(OpenWindow(limit, window), x);
    BurstThenOneAdmits(Window(limit, WidthOf(limit), true), x);
    RedisWindowIsExact(limit, window, ts, limit);
    LocalWindowIsExact(limit, ts, limit);
  }

  /** The fallback never limits as Redis would, unless nothing is let through at all. */
  lemma FallbackAgreesExactly(limit: nat, window: nat)
    ensures FallbackAgrees(limit, window) <==> limit == 0
  {
    if limit == 0 {
      forall ts: seq<real>, n: nat | Nondecreasing(ts) && n < |ts|
        ensures RedisAdmits(limit, window, ts, n) <==> StoreAdmits(limit, WidthOf(limit), 600.0, ts, n)
      {
        RedisWindowIsExact(limit, window, ts, n);
        LocalWindowIsExact(limit, ts, n);
      }
    } else {
      WidthBounds(limit);
      var x := if window == 0 then 0.0 else if limit >= 2 then 0.75 else if window == 1 then 1.0 else 1.5;
      FallbackDiffers(limit, window, x);
      assert Nondecreasing(BurstThenOne(limit, x));
    }
  }

  /** An admission gives the key two more windows; a denial leaves its expiry alone. */
  lemma SetLives(limit: nat, window: nat, z: Option<ScoreSet>, now: real, t: real)
    ensures
      var (next, reply) := Script(limit, window, z, now);
      (reply == 1 ==> next.Some? && Visible(next, t) == if t < now + 2.0 * window as real then next.value.scores else []) &&
      (reply == 0 && next.Some? ==> z.Some? && next.value.expiresAt == z.value.expiresAt)
  {
    RemoveNothing(now - window as real);
  }

  lemma RemoveNothing(bound: real)
    ensures RemoveUpTo([], bound) == []
  {
  }
}
