/** The token-bucket script that Redis runs. A denied check writes nothing, and
    an admitted one gives its key a fresh expiry. */
module RedisTokenBucket {
  import opened Wrappers
  import opened LocalStore
  import opened TokenBucket

  datatype Hash = Hash(tokens: real, lastTime: real, expiresAt: real)

  /** Lua's math.ceil. */
  function Ceil(x: real): (r: int)
    ensures r as real - 1.0 < x <= r as real
  {
    -((-x).Floor)
  }

  function Max(x: real, y: real): real {
    if x >= y then x else y
  }

  function Visible(h: Option<Hash>, now: real): Option<Hash> {
    if h.Some? && now < h.value.expiresAt then h else None
  }

  /** Tokens the script finds, after its refill. */
  function Found(c: Config, h: Option<Hash>, now: real): real {
    match Visible(h, now)
    case None => Min(c.burst as real, c.burst as real + Max(0.0, now - now) * c.rate)
    case Some(b) => Min(c.burst as real, b.tokens + Max(0.0, now - b.lastTime) * c.rate)
  }

  function ExpireSeconds(c: Config): int
    requires c.rate > 0.0
  {
    Ceil(c.burst as real / c.rate) * 2
  }

  /** One evaluation of the script: the stored hash it leaves and its reply. */
  function Script(c: Config, h: Option<Hash>, now: real, requested: real): (Option<Hash>, int)
    requires c.rate > 0.0
  {
    var tokens := Found(c, h, now);
    if tokens >= requested then
      (Some(Hash(tokens - requested, now, now + ExpireSeconds(c) as real)), 1)
    else (h, 0)
  }

  /** What Redis makes of a key just written with `tokens` at `now`, and of the
      script's reply, when EXPIRE is given no positive number of seconds. An error
      is no reply. */
  type OddExpire = (Config, real, real) -> (Option<Hash>, Option<int>)

  /** One evaluation at any rate. */
  function Evaluate(odd: OddExpire, c: Config, h: Option<Hash>, now: real, requested: real): (Option<Hash>, Option<int>) {
    if c.rate > 0.0 then
      var (next, reply) := Script(c, h, now, requested);
      (next, Some(reply))
    else if Found(c, h, now) >= requested then odd(c, Found(c, h, now) - requested, now)
    else (h, Some(0))
  }

  class RedisServer {
    const odd: OddExpire
    var hashes: map<Key, Hash>

    constructor (odd: OddExpire)
      ensures hashes == map[] && this.odd == odd
    {
      this.odd := odd;
      hashes := map[];
    }

    function HashAt(key: Key): Option<Hash>
      reads this
    {
      if key in hashes then Some(hashes[key]) else None
    }

    method EvalTokenBucket(key: Key, capacity: nat, rate: real, now: real, requested: real) returns (reply: Option<int>)
      modifies this
      ensures
        var (h, answer) := Evaluate(odd, Config(rate, capacity), old(HashAt(key)), now, requested);
        reply == answer && HashAt(key) == h
      ensures forall other :: other != key ==> HashAt(other) == old(HashAt(other))
    {
      var tokens: real, lastTime: real := capacity as real, now;
      if key in hashes && now < hashes[key].expiresAt {
        tokens, lastTime := hashes[key].tokens, hashes[key].lastTime;
      }
      var elapsed := Max(0.0, now - lastTime);
      tokens := Min(capacity as real, tokens + elapsed * rate);
      assert tokens == Found(Config(rate, capacity), HashAt(key), now);
      if tokens >= requested {
        tokens := tokens - requested;
        if rate > 0.0 {
          var expiry := Ceil(capacity as real / rate) * 2;
          assert expiry == ExpireSeconds(Config(rate, capacity));
          hashes := hashes[key := Hash(tokens, now, now + expiry as real)];
          reply := Some(1);
        } else {
          var (left, answer) := odd(Config(rate, capacity), tokens, now);
          hashes := if left.Some? then hashes[key := left.value] else hashes - {key};
          reply := answer;
        }
      } else {
        reply := Some(0);
      }
    }
  }

  /** What Redis holds for a key before check `n` of a run. */
  function HashBefore(c: Config, ts: seq<real>, n: nat): Option<Hash>
    requires c.rate > 0.0 && n <= |ts|
  {
    if n == 0 then None else Script(c, HashBefore(c, ts, n - 1), ts[n - 1], 1.0).0
  }

  ghost predicate RedisAdmits(c: Config, ts: seq<real>, n: nat)
    requires c.rate > 0.0 && n < |ts|
  {
    Script(c, HashBefore(c, ts, n), ts[n], 1.0).1 == 1
  }

  ghost predicate WellFormed(c: Config, h: Option<Hash>, now: real)
    requires c.rate > 0.0
  {
    h.Some? ==>
      h.value.tokens >= 0.0 && h.value.lastTime <= now &&
      h.value.expiresAt == h.value.lastTime + ExpireSeconds(c) as real
  }

  /** The expiry gives the bucket time to fill up. */
  lemma ExpiryCoversRefill(c: Config, gap: real)
    requires c.rate > 0.0 && gap >= ExpireSeconds(c) as real
    ensures gap * c.rate >= c.burst as real
  {
    var refill := c.burst as real / c.rate;
    assert refill >= 0.0;
    assert gap >= refill;
    ProductMonotone(refill, gap, c.rate);
  }

  lemma Scales(x: real, y: real, k: real)
    requires k > 0.0
    ensures x < y ==> x * k < y * k
    ensures x <= y ==> x * k <= y * k
  {
    if x < y {
      ProductPositive(y - x, k);
      assert (y - x) * k == y * k - x * k;
    }
  }

  /** The key is given twice the whole seconds that a refill from nothing takes. */
  lemma ExpiryIsTwiceRefill(c: Config) returns (n: int)
    requires c.rate > 0.0
    ensures (n as real - 1.0) * c.rate < c.burst as real <= n as real * c.rate
    ensures ExpireSeconds(c) == 2 * n
  {
    var refill := c.burst as real / c.rate;
    n := Ceil(refill);
    var low, high := n as real - 1.0, n as real;
    assert refill * c.rate == c.burst as real;
    Scales(low, refill, c.rate);
    Scales(refill, high, c.rate);
  }

  /** An admitted evaluation leaves a key that can be seen exactly until then. */
  lemma KeyLives(c: Config, h: Option<Hash>, now: real, requested: real, t: real) returns (n: int)
    requires c.rate > 0.0 && Script(c, h, now, requested).1 == 1
    ensures (n as real - 1.0) * c.rate < c.burst as real <= n as real * c.rate
    ensures Visible(Script(c, h, now, requested).0, t).Some? <==> t < now + (2 * n) as real
  {
    n := ExpiryIsTwiceRefill(c);
  }

  /** Asking at one instant for two amounts one after the other is asking for both
      together. */
  lemma RequestsAdd(c: Config, h: Option<Hash>, now: real, a: real, b: real)
    requires c.rate > 0.0 && c.burst > 0 && a >= 0.0 && b >= 0.0
    ensures
      var (first, reply) := Script(c, h, now, a);
      if reply == 1 then
        Script(c, first, now, b) == if Script(c, h, now, a + b).1 == 1 then Script(c, h, now, a + b) else (first, 0)
      else Script(c, h, now, a + b) == (h, 0)
  {
    var found := Found(c, h, now);
    if found >= a {
      var first := Script(c, h, now, a).0.value;
      assert c.burst as real / c.rate > 0.0;
      FoundVisible(c, first, now, 0.0);
    }
  }

  lemma FoundVisible(c: Config, b: Hash, now: real, earned: real)
    requires b.lastTime <= now < b.expiresAt && earned == (now - b.lastTime) * c.rate
    ensures Found(c, Some(b), now) == Min(c.burst as real, b.tokens + earned)
  {
  }

  lemma FoundFresh(c: Config, h: Option<Hash>, now: real)
    requires Visible(h, now) == None
    ensures Found(c, h, now) == c.burst as real
  {
    assert Max(0.0, now - now) * c.rate == 0.0;
  }

  /** A clock that has stepped back refills nothing, and takes nothing away. */
  lemma ClockBack(c: Config, b: Hash, now: real)
    requires now < b.expiresAt && now <= b.lastTime
    ensures Found(c, Some(b), now) == if b.tokens <= c.burst as real then b.tokens else c.burst as real
  {
    assert 0.0 * c.rate == 0.0;
  }

  /** Redis's own view of EXPIRE matters only to an admission at a rate that is not
      positive. */
  lemma OddOnlyIfAdmitted(odd: OddExpire, odd': OddExpire, c: Config, h: Option<Hash>, now: real, requested: real)
    ensures c.rate > 0.0 ==>
      Evaluate(odd, c, h, now, requested) == Evaluate(odd', c, h, now, requested) &&
      Evaluate(odd, c, h, now, requested).1 == Some(Script(c, h, now, requested).1) &&
      Evaluate(odd, c, h, now, requested).0 == Script(c, h, now, requested).0
    ensures c.rate <= 0.0 && Found(c, h, now) < requested ==> Evaluate(odd, c, h, now, requested) == (h, Some(0))
    ensures c.rate <= 0.0 && Found(c, h, now) >= requested ==>
      Evaluate(odd, c, h, now, requested) == odd(c, Found(c, h, now) - requested, now)
  {
  }

  lemma GapsAdd(from: real, t: real, t': real, rate: real)
    ensures (t - from) * rate + (t' - t) * rate == (t' - from) * rate
  {
  }

  lemma GrowsVisible(c: Config, b: Hash, t: real, t': real, earned: real)
    requires c.rate > 0.0 && b.lastTime <= t <= t' < b.expiresAt
    requires earned == (t' - t) * c.rate && earned >= 0.0
    ensures Found(c, Some(b), t') == Min(Found(c, Some(b), t) + earned, c.burst as real)
  {
    hide Found;
    var first := (t - b.lastTime) * c.rate;
    var whole := (t' - b.lastTime) * c.rate;
    FoundVisible(c, b, t, first);
    FoundVisible(c, b, t', whole);
    GapsAdd(b.lastTime, t, t', c.rate);
    assert whole == first + earned;
  }

  lemma GrowsExpired(c: Config, b: Hash, t: real, t': real, earned: real)
    requires c.rate > 0.0 && b.lastTime <= t < b.expiresAt <= t' && b.tokens >= 0.0
    requires b.expiresAt == b.lastTime + ExpireSeconds(c) as real
    requires earned == (t' - t) * c.rate && earned >= 0.0
    ensures Found(c, Some(b), t') == Min(Found(c, Some(b), t) + earned, c.burst as real)
  {
    hide Found, ExpireSeconds;
    var gap := t' - b.lastTime;
    var first, whole := (t - b.lastTime) * c.rate, gap * c.rate;
    FoundVisible(c, b, t, first);
    FoundFresh(c, Some(b), t');
    ExpiryCoversRefill(c, gap);
    assert whole >= c.burst as real;
    GapsAdd(b.lastTime, t, t', c.rate);
    assert whole == first + earned;
  }

  /** Whether a hash is refilled in one go or in two, or forgotten in between,
      the script finds the same. */
  lemma FoundGrows(c: Config, h: Option<Hash>, t: real, t': real, earned: real)
    requires c.rate > 0.0 && t <= t' && WellFormed(c, h, t)
    requires earned == (t' - t) * c.rate
    ensures Found(c, h, t') == Min(Found(c, h, t) + earned, c.burst as real)
  {
    hide Found, ExpireSeconds;
    var gap := t' - t;
    NonNegativeProduct(gap, c.rate);
    assert earned == gap * c.rate && earned >= 0.0;
    if Visible(h, t) == None {
      FoundFresh(c, h, t);
      FoundFresh(c, h, t');
    } else if Visible(h, t') == None {
      GrowsExpired(c, h.value, t, t', earned);
    } else {
      GrowsVisible(c, h.value, t, t', earned);
    }
  }

  lemma FoundAfterWrite(c: Config, tokens: real, t: real, t': real, earned: real)
    requires c.rate > 0.0 && t <= t' && 0.0 <= tokens && earned == (t' - t) * c.rate
    ensures Found(c, Some(Hash(tokens, t, t + ExpireSeconds(c) as real)), t') == Min(tokens + earned, c.burst as real)
  {
    hide Found, ExpireSeconds;
    var b := Hash(tokens, t, t + ExpireSeconds(c) as real);
    if t' < b.expiresAt {
      FoundVisible(c, b, t', earned);
    } else {
      var gap := t' - t;
      ExpiryCoversRefill(c, gap);
      assert earned == gap * c.rate >= c.burst as real;
      FoundFresh(c, Some(b), t');
    }
  }

  /** What the next evaluation finds, whichever way this one went. */
  lemma NextFound(c: Config, h: Option<Hash>, t: real, t': real, earned: real)
    requires c.rate > 0.0 && t <= t' && WellFormed(c, h, t)
    requires earned == (t' - t) * c.rate
    ensures
      var found, next := Found(c, h, t), Script(c, h, t, 1.0).0;
      WellFormed(c, next, t') && Found(c, next, t') == Min(found - Take(found) + earned, c.burst as real)
  {
    var found := Found(c, h, t);
    if found >= 1.0 {
      FoundAfterWrite(c, found - 1.0, t, t', earned);
    } else {
      FoundGrows(c, h, t, t', earned);
    }
  }

  lemma NextFoundIsLevel(c: Config, ts: seq<real>, n: nat, h: Option<Hash>)
    requires c.rate > 0.0 && n + 1 < |ts| && ts[n] <= ts[n + 1] && WellFormed(c, h, ts[n])
    requires Found(c, h, ts[n]) == Level(c.burst, Earned(c.rate, ts), n)
    ensures
      var next := Script(c, h, ts[n], 1.0).0;
      WellFormed(c, next, ts[n + 1]) && Found(c, next, ts[n + 1]) == Level(c.burst, Earned(c.rate, ts), n + 1)
  {
    hide Found, Script, WellFormed;
    EarnedGap(c.rate, ts, n + 1);
    var earned := Earned(c.rate, ts)[n + 1] - Earned(c.rate, ts)[n];
    NextFound(c, h, ts[n], ts[n + 1], earned);
  }

  lemma {:induction false} FoundIsLevel(c: Config, ts: seq<real>, n: nat)
    requires c.rate > 0.0 && Nondecreasing(ts) && n < |ts|
    ensures WellFormed(c, HashBefore(c, ts, n), ts[n])
    ensures Found(c, HashBefore(c, ts, n), ts[n]) == Level(c.burst, Earned(c.rate, ts), n)
  {
    if n == 0 {
      FoundFresh(c, None, ts[0]);
    } else {
      FoundIsLevel(c, ts, n - 1);
      NextFoundIsLevel(c, ts, n - 1, HashBefore(c, ts, n - 1));
    }
  }

  /** The script decides as the ideal bucket: neither skipping the write on a
      denial nor losing the key at its expiry ever changes an answer. */
  lemma RedisIsIdeal(c: Config, ts: seq<real>, n: nat)
    requires c.rate > 0.0 && Nondecreasing(ts) && n < |ts|
    ensures RedisAdmits(c, ts, n) <==> Admits(c, ts, n)
  {
    FoundIsLevel(c, ts, n);
  }

  /** Redis and the local limiter, given equal rate and capacity, answer every
      run alike exactly when the bucket refills within the local time to live. */
  lemma RedisAgreesWithLocal(c: Config)
    requires c.rate > 0.0
    ensures (forall ts: seq<real>, n: nat :: Nondecreasing(ts) && n < |ts| ==>
              (RedisAdmits(c, ts, n) <==> StoreAdmits(c, 600.0, ts, n)))
      <==> c.burst as real <= 600.0 * c.rate
  {
    forall ts: seq<real>, n: nat | Nondecreasing(ts) && n < |ts|
      ensures RedisAdmits(c, ts, n) <==> Admits(c, ts, n)
    {
      RedisIsIdeal(c, ts, n);
    }
    ExpiryInvisible(c, 600.0);
  }

  // The limiter used when Redis cannot be reached is a local bucket whose rate is
  // the capacity, whatever rate Redis was given.

  ghost predicate FallbackAgrees(c: Config)
    requires c.rate > 0.0
  {
    forall ts: seq<real>, n: nat :: Nondecreasing(ts) && n < |ts| ==>
      (RedisAdmits(c, ts, n) <==> StoreAdmits(Config(c.burst as real, c.burst), 600.0, ts, n))
  }

  lemma {:induction false} AskAfterBurst(burst: nat, earned: seq<real>, n: nat)
    requires n < |earned| == burst + 1 && burst > 0 && earned[burst] >= 0.0
    requires forall i :: 0 <= i < burst ==> earned[i] == 0.0
    ensures Level(burst, earned, n) == if n < burst then (burst - n) as real else Min(earned[n], burst as real)
  {
    if n > 0 {
      AskAfterBurst(burst, earned, n - 1);
    }
  }

  lemma ProductPositive(x: real, y: real)
    requires x > 0.0 && y > 0.0
    ensures x * y > 0.0
  {
  }

  lemma RateTimesInverse(slow: real, fast: real, x: real)
    requires 0.0 < slow < fast && x == 1.0 / fast
    ensures 0.0 < x && fast * x == 1.0 && 0.0 < slow * x < 1.0
  {
    var one, part, rest := fast * x, slow * x, (fast - slow) * x;
    assert one == 1.0;
    assert x > 0.0;
    ProductPositive(slow, x);
    ProductPositive(fast - slow, x);
    assert rest == one - part;
    assert part < 1.0;
  }

  lemma AdmitsAfterBurst(c: Config, x: real, earned: real)
    requires c.burst > 0 && earned == c.rate * x && earned >= 0.0
    ensures Admits(c, BurstThenOne(c.burst, x), c.burst) <==> earned >= 1.0
  {
    var ts := BurstThenOne(c.burst, x);
    var es := Earned(c.rate, ts);
    assert es[c.burst] == earned;
    assert forall i :: 0 <= i < c.burst ==> es[i] == 0.0;
    AskAfterBurst(c.burst, es, c.burst);
  }

  /** Two buckets of different rates: spend the burst at time 0, and ask once
      more when only the faster one has earned a token. */
  lemma SlowAndFast(slow: Config, fast: Config) returns (ts: seq<real>, n: nat)
    requires slow.burst == fast.burst > 0 && 0.0 < slow.rate < fast.rate
    ensures Nondecreasing(ts) && n < |ts| && Admits(fast, ts, n) && !Admits(slow, ts, n)
  {
    n := slow.burst;
    var x := 1.0 / fast.rate;
    ts := BurstThenOne(n, x);
    var much, little := fast.rate * x, slow.rate * x;
    RateTimesInverse(slow.rate, fast.rate, x);
    assert much == 1.0 && 0.0 < little < 1.0;
    AdmitsAfterBurst(fast, x, much);
    AdmitsAfterBurst(slow, x, little);
    assert Admits(fast, ts, n) && !Admits(slow, ts, n);
  }

  lemma {:induction false} NothingAdmitted(c: Config, ts: seq<real>, n: nat)
    requires ValidConfig(c) && Nondecreasing(ts) && n < |ts| && c.burst == 0
    ensures !Admits(c, ts, n)
  {
    EarnedNondecreasing(c.rate, ts);
    LevelBounds(c.burst, Earned(c.rate, ts), n);
  }

  /** The fallback limits as Redis would only if the rate equals the capacity,
      or nothing is let through at all. */
  lemma FallbackAgreesExactly(c: Config)
    requires c.rate > 0.0
    ensures FallbackAgrees(c) <==> c.rate == c.burst as real || c.burst == 0
  {
    var local := Config(c.burst as real, c.burst);
    forall ts: seq<real>, n: nat | Nondecreasing(ts) && n < |ts|
      ensures RedisAdmits(c, ts, n) <==> Admits(c, ts, n)
      ensures StoreAdmits(local, 600.0, ts, n) <==> Admits(local, ts, n)
    {
      RedisIsIdeal(c, ts, n);
      StoreIsIdeal(local, 600.0, ts, n);
    }
    if c.burst == 0 {
      forall ts: seq<real>, n: nat | Nondecreasing(ts) && n < |ts|
        ensures !Admits(c, ts, n) && !Admits(local, ts, n)
      {
        NothingAdmitted(c, ts, n);
        NothingAdmitted(local, ts, n);
      }
    } else if c.rate < local.rate {
      var ts, n := SlowAndFast(c, local);
    } else if c.rate > local.rate {
      var ts, n := SlowAndFast(local, c);
    }
  }
}
