/** A consistent-hash ring with virtual nodes. The hash functions are
    parameters; nothing is assumed about them, collisions included. */
module ConsistentHash {
  import opened Wrappers
  import opened Text
  import opened Bits

  type Position = nat

  /** Where virtual node `i` of a bucket is placed. */
  type Placement<!T> = (T, nat) -> Position

  /** The first `count` virtual nodes of a bucket go in; a taken point is overwritten. */
  function AddNodes<T>(place: Placement<T>, ring: map<Position, T>, bucket: T, count: nat): map<Position, T> {
    if count == 0 then ring
    else AddNodes(place, ring, bucket, count - 1)[place(bucket, count - 1) := bucket]
  }

  function RingOf<T>(place: Placement<T>, buckets: seq<T>, virtualNodes: nat): map<Position, T> {
    if buckets == [] then map[]
    else
      var n := |buckets| - 1;
      AddNodes(place, RingOf(place, buckets[..n], virtualNodes), buckets[n], virtualNodes)
  }

  /** The point at or after `h`, or the least point if there is none. */
  ghost predicate IsClockwise(points: set<Position>, h: Position, p: Position) {
    && p in points
    && if exists q :: q in points && q >= h
       then p >= h && forall q :: q in points && q >= h ==> p <= q
       else forall q :: q in points ==> p <= q
  }

  lemma {:induction false} LeastExists(points: set<Position>) returns (least: Position)
    requires points != {}
    ensures least in points && forall q :: q in points ==> least <= q
  {
    var some :| some in points;
    least := some;
    if points != {some} {
      var other := LeastExists(points - {some});
      least := if other < some then other else some;
      assert points == points - {some} + {some};
    } else {
      assert forall q :: q in points ==> q == some;
    }
  }

  lemma ClockwiseExists(points: set<Position>, h: Position)
    requires points != {}
    ensures exists p :: IsClockwise(points, h, p)
  {
    var after := set q | q in points && q >= h;
    if after != {} {
      var p := LeastExists(after);
      assert p in after;
      forall q | q in points && q >= h
        ensures p <= q
      {
        assert q in after;
      }
      assert IsClockwise(points, h, p);
    } else {
      var p := LeastExists(points);
      forall q | q in points
        ensures q < h
      {
        assert q !in after;
      }
      assert IsClockwise(points, h, p);
    }
  }

  ghost function Clockwise(points: set<Position>, h: Position): (p: Position)
    requires points != {}
    ensures IsClockwise(points, h, p)
  {
    ClockwiseExists(points, h);
    var p :| IsClockwise(points, h, p);
    p
  }

  /** The bucket that serves hash `h`. */
  ghost function Lookup<T>(ring: map<Position, T>, h: Position): (r: Option<T>)
    ensures r.None? <==> ring == map[]
  {
    if ring == map[] then None
    else
      assert ring.Keys != {};
      Some(ring[Clockwise(ring.Keys, h)])
  }

  /** The owner of the first point at or after the hash serves it. */
  lemma LookupIsSuccessor<T>(ring: map<Position, T>, h: Position, p: Position)
    requires p in ring && p >= h
    requires forall q :: h <= q < p ==> q !in ring
    ensures Lookup(ring, h) == Some(ring[p])
  {
    assert p in ring.Keys;
    var found := Clockwise(ring.Keys, h);
    assert found == p;
  }

  /** Past the last point it is the owner of the least point. */
  lemma LookupWrapsAround<T>(ring: map<Position, T>, h: Position, p: Position)
    requires p in ring
    requires forall q :: q in ring ==> p <= q < h
    ensures Lookup(ring, h) == Some(ring[p])
  {
    assert p in ring.Keys;
    var found := Clockwise(ring.Keys, h);
    assert found == p;
  }

  class Ring<T(==)> {
    var ring: map<Position, T>

    constructor (place: Placement<T>, buckets: seq<T>, virtualNodes: nat)
      ensures ring == RingOf(place, buckets, virtualNodes)
    {
      var r: map<Position, T> := map[];
      for n := 0 to |buckets|
        invariant r == RingOf(place, buckets[..n], virtualNodes)
      {
        ghost var before := r;
        for i := 0 to virtualNodes
          invariant r == AddNodes(place, before, buckets[n], i)
        {
          r := r[place(buckets[n], i) := buckets[n]];
        }
        assert buckets[..n + 1][..n] == buckets[..n];
      }
      assert buckets[..|buckets|] == buckets;
      ring := r;
    }

    ghost function Get(h: Position): Option<T>
      reads this
    {
      Lookup(ring, h)
    }
  }

  /** Every bucket on the ring is a listed one. */
  lemma {:induction false} AddNodesOwners<T>(place: Placement<T>, ring: map<Position, T>, bucket: T, count: nat)
    ensures forall p :: p in AddNodes(place, ring, bucket, count) ==>
      AddNodes(place, ring, bucket, count)[p] == bucket || (p in ring && AddNodes(place, ring, bucket, count)[p] == ring[p])
    ensures forall p :: p in ring ==> p in AddNodes(place, ring, bucket, count)
    ensures forall i :: 0 <= i < count ==> place(bucket, i) in AddNodes(place, ring, bucket, count)
  {
    if count > 0 {
      AddNodesOwners(place, ring, bucket, count - 1);
    }
  }

  lemma {:induction false} RingOwners<T>(place: Placement<T>, buckets: seq<T>, virtualNodes: nat)
    ensures forall p :: p in RingOf(place, buckets, virtualNodes) ==> RingOf(place, buckets, virtualNodes)[p] in buckets
    ensures RingOf(place, buckets, virtualNodes) == map[] <==> buckets == [] || virtualNodes == 0
  {
    if buckets != [] {
      var n := |buckets| - 1;
      RingOwners(place, buckets[..n], virtualNodes);
      AddNodesOwners(place, RingOf(place, buckets[..n], virtualNodes), buckets[n], virtualNodes);
      if virtualNodes > 0 {
        assert place(buckets[n], 0) in RingOf(place, buckets, virtualNodes);
      }
    }
  }

  /** Some virtual node of the bucket is placed at `p`. */
  ghost predicate Places<T>(place: Placement<T>, bucket: T, virtualNodes: nat, p: Position) {
    exists i: nat :: i < virtualNodes && place(bucket, i) == p
  }

  /** Bucket `n` is the last one with a node at `p`. */
  ghost predicate LastPlaced<T>(place: Placement<T>, buckets: seq<T>, virtualNodes: nat, p: Position, n: nat)
    requires n < |buckets|
  {
    && Places(place, buckets[n], virtualNodes, p)
    && forall m :: n < m < |buckets| ==> !Places(place, buckets[m], virtualNodes, p)
  }

  lemma {:induction false} NodesAt<T>(place: Placement<T>, ring: map<Position, T>, bucket: T, count: nat, p: Position)
    ensures
      var all := AddNodes(place, ring, bucket, count);
      if Places(place, bucket, count, p) then p in all && all[p] == bucket
      else (p in all <==> p in ring) && (p in ring ==> all[p] == ring[p])
  {
    if count > 0 {
      NodesAt(place, ring, bucket, count - 1, p);
      assert place(bucket, count - 1) == p ==> Places(place, bucket, count, p);
      assert Places(place, bucket, count - 1, p) ==> Places(place, bucket, count, p);
    }
  }

  /** The ring has exactly the points where a node is placed, and a point belongs to
      the last listed bucket with a node there. */
  lemma {:induction false} LastPlacementOwns<T>(place: Placement<T>, buckets: seq<T>, virtualNodes: nat, p: Position)
    ensures
      var ring := RingOf(place, buckets, virtualNodes);
      (p in ring <==> exists n :: 0 <= n < |buckets| && Places(place, buckets[n], virtualNodes, p)) &&
      forall n :: 0 <= n < |buckets| && LastPlaced(place, buckets, virtualNodes, p, n) ==>
        p in ring && ring[p] == buckets[n]
  {
    hide AddNodes, Places;
    if buckets != [] {
      var n := |buckets| - 1;
      LastPlacementOwns(place, buckets[..n], virtualNodes, p);
      NodesAt(place, RingOf(place, buckets[..n], virtualNodes), buckets[n], virtualNodes, p);
      assert forall k :: 0 <= k < n ==> buckets[..n][k] == buckets[k];
    }
  }

  /** `Lookup` finds a listed bucket, unless there is none to find. */
  lemma LookupIsListed<T>(place: Placement<T>, buckets: seq<T>, virtualNodes: nat, h: Position)
    ensures match Lookup(RingOf(place, buckets, virtualNodes), h)
      case Some(b) => b in buckets
      case None => buckets == [] || virtualNodes == 0
  {
    RingOwners(place, buckets, virtualNodes);
  }

  // Minimal disruption.

  /** `more` has all of `less`'s points, and any difference in owner is `b`. */
  ghost predicate DiffersBy<T>(more: map<Position, T>, less: map<Position, T>, b: T) {
    && (forall p :: p in less ==> p in more)
    && (forall p :: p in more ==> more[p] == b || (p in less && more[p] == less[p]))
  }

  lemma {:induction false} SameNodesAdded<T>(place: Placement<T>, more: map<Position, T>, less: map<Position, T>,
      b: T, bucket: T, count: nat)
    requires DiffersBy(more, less, b)
    ensures DiffersBy(AddNodes(place, more, bucket, count), AddNodes(place, less, bucket, count), b)
  {
    if count > 0 {
      SameNodesAdded(place, more, less, b, bucket, count - 1);
    }
  }

  lemma {:induction false} RingDiffersBy<T>(place: Placement<T>, xs: seq<T>, b: T, ys: seq<T>, virtualNodes: nat)
    ensures DiffersBy(RingOf(place, xs + [b] + ys, virtualNodes), RingOf(place, xs + ys, virtualNodes), b)
    decreases |ys|
  {
    var more, less := xs + [b] + ys, xs + ys;
    if ys == [] {
      assert more[..|xs|] == xs && less == xs;
      AddNodesOwners(place, RingOf(place, xs, virtualNodes), b, virtualNodes);
    } else {
      var init := ys[..|ys| - 1];
      assert more[..|more| - 1] == xs + [b] + init && less[..|less| - 1] == xs + init;
      RingDiffersBy(place, xs, b, init, virtualNodes);
      SameNodesAdded(place, RingOf(place, xs + [b] + init, virtualNodes), RingOf(place, xs + init, virtualNodes),
                     b, ys[|ys| - 1], virtualNodes);
    }
  }

  lemma LookupDiffersBy<T>(more: map<Position, T>, less: map<Position, T>, b: T, h: Position)
    requires DiffersBy(more, less, b) && more != map[]
    ensures Lookup(more, h) == Some(b) || Lookup(more, h) == Lookup(less, h)
  {
    var p: Position := Clockwise(more.Keys, h);
    if more[p] != b {
      assert p in less.Keys;
      assert less.Keys <= more.Keys;
      if exists q :: q in less.Keys && q >= h {
      } else {
        assert !(p >= h);
      }
      assert IsClockwise(less.Keys, h, p);
      assert Clockwise(less.Keys, h) == p;
    }
  }

  /** Adding a bucket anywhere in the list leaves every key where it was or moves
      it to that bucket; removing one moves only the keys it served. */
  lemma MinimalDisruption<T>(place: Placement<T>, xs: seq<T>, b: T, ys: seq<T>, virtualNodes: nat, h: Position)
    ensures
      var more, less := RingOf(place, xs + [b] + ys, virtualNodes), RingOf(place, xs + ys, virtualNodes);
      Lookup(more, h) == Some(b) || Lookup(more, h) == Lookup(less, h)
  {
    RingDiffersBy(place, xs, b, ys, virtualNodes);
    var more := RingOf(place, xs + [b] + ys, virtualNodes);
    var less := RingOf(place, xs + ys, virtualNodes);
    if more != map[] {
      LookupDiffersBy(more, less, b, h);
    } else {
      assert less == map[];
    }
  }

  // The hash of a key: eight digest bytes, least significant first.

  function LittleEndian(bytes: seq<byte>): nat {
    if bytes == [] then 0 else bytes[0] + 256 * LittleEndian(bytes[1..])
  }

  lemma PowerOfBytes(n: nat)
    ensures Pow2(8 * n + 8) == 256 * Pow2(8 * n)
  {
    var k := 8 * n;
    assert Pow2(k + 4) == 16 * Pow2(k) by {
      assert Pow2(k + 2) == 4 * Pow2(k);
    }
    assert Pow2(k + 8) == 16 * Pow2(k + 4) by {
      assert Pow2(k + 6) == 4 * Pow2(k + 4);
    }
  }

  lemma {:induction false} LittleEndianBound(bytes: seq<byte>)
    ensures LittleEndian(bytes) < Pow2(8 * |bytes|)
  {
    if bytes != [] {
      LittleEndianBound(bytes[1..]);
      PowerOfBytes(|bytes| - 1);
    }
  }

  lemma {:induction false} LittleEndianAppend(bytes: seq<byte>, b: byte)
    ensures LittleEndian(bytes + [b]) == LittleEndian(bytes) + b * Pow2(8 * |bytes|)
  {
    if bytes == [] {
      assert [b][1..] == [];
    } else {
      assert (bytes + [b])[1..] == bytes[1..] + [b];
      LittleEndianAppend(bytes[1..], b);
      PowerOfBytes(|bytes| - 1);
      var w := Pow2(8 * |bytes| - 8);
      assert 256 * (b * w) == b * (256 * w);
    }
  }

  /** Eight bytes are determined by their number. */
  lemma {:induction false} LittleEndianInjective(p: seq<byte>, q: seq<byte>)
    requires |p| == |q| && LittleEndian(p) == LittleEndian(q)
    ensures p == q
  {
    if p != [] {
      LittleEndianInjective(p[1..], q[1..]);
      assert p == [p[0]] + p[1..] && q == [q[0]] + q[1..];
    }
  }

  lemma Pow64()
    ensures Pow2(56) == 0x100_0000_0000_0000 && Pow2(64) == U64
  {
    PowerOfBytes(0);
    PowerOfBytes(1);
    PowerOfBytes(2);
    PowerOfBytes(3);
    PowerOfBytes(4);
    PowerOfBytes(5);
    PowerOfBytes(6);
    PowerOfBytes(7);
  }

  lemma {:induction false} PowerMonotone(j: nat, k: nat)
    requires j <= k
    ensures Pow2(j) <= Pow2(k)
  {
    if j < k {
      PowerMonotone(j, k - 1);
    }
  }

  lemma ByteTimes(b: byte, w: nat)
    ensures b * w <= 255 * w
  {
    assert (255 - b) * w >= 0;
  }

  /** Or-ing in a shifted byte puts it beside the bytes already there: the shift
      loses nothing and nothing overlaps. */
  lemma OrsInByte(v: nat, b: byte, i: nat)
    requires i < 8 && v < Pow2(8 * i)
    ensures Or(v, Shl64(b, 8 * i)) == v + b * Pow2(8 * i)
  {
    var w := Pow2(8 * i);
    PowerMonotone(8 * i, 56);
    Pow64();
    ByteTimes(b, w);
    assert Shl64(b, 8 * i) == b * w;
    OrCommutes(v, b * w);
    OrDisjoint(b, v, 8 * i);
  }

  method HashKey(digest: seq<byte>) returns (v: nat)
    requires |digest| == 32
    ensures v == LittleEndian(digest[..8]) && v < U64
  {
    v := 0;
    for i := 0 to 8
      invariant v == LittleEndian(digest[..i])
    {
      LittleEndianBound(digest[..i]);
      OrsInByte(v, digest[i], i);
      LittleEndianAppend(digest[..i], digest[i]);
      assert digest[..i + 1] == digest[..i] + [digest[i]];
      v := Or(v, Shl64(digest[i], 8 * i));
    }
    LittleEndianBound(digest[..8]);
    Pow64();
  }
}
