/** Weighted choice of a canary target. Weights are 32-bit and their sums wrap,
    as they do in a release build. */
module Canary {
  import opened Wrappers
  import opened Bits

  type u32 = w: int | 0 <= w < 0x1_0000_0000

  datatype Target = Target(upstreamId: string, weight: u32)

  function Add32(x: u32, y: u32): u32 {
    (x + y) % U32
  }

  function Total32(targets: seq<Target>): u32 {
    if targets == [] then 0 else Add32(Total32(targets[..|targets| - 1]), targets[|targets| - 1].weight)
  }

  /** Which target, from position `i` on, takes the roll. */
  function SelectFrom(targets: seq<Target>, i: nat, cumulative: u32, roll: u32): (r: Option<nat>)
    requires i <= |targets|
    ensures r.Some? ==> i <= r.value < |targets| && targets[r.value].weight > 0
    decreases |targets| - i
  {
    if i == |targets| then None
    else if targets[i].weight == 0 then SelectFrom(targets, i + 1, cumulative, roll)
    else
      var c := Add32(cumulative, targets[i].weight);
      if roll < c then Some(i) else SelectFrom(targets, i + 1, c, roll)
  }

  datatype SelectError = ZeroTotal | SelectionFailed

  function Select(targets: seq<Target>, roll: u32): Result<nat, SelectError> {
    if Total32(targets) == 0 then Err(ZeroTotal)
    else match SelectFrom(targets, 0, 0, roll)
      case None => Err(SelectionFailed)
      case Some(i) => Ok(i)
  }

  method SelectCanaryTarget(targets: seq<Target>, roll: u32) returns (r: Result<nat, SelectError>)
    ensures r == Select(targets, roll)
  {
    var total: u32 := 0;
    for i := 0 to |targets|
      invariant total == Total32(targets[..i])
    {
      assert targets[..i + 1][..i] == targets[..i];
      total := Add32(total, targets[i].weight);
    }
    assert targets[..|targets|] == targets;
    if total == 0 {
      return Err(ZeroTotal);
    }
    var cumulative: u32 := 0;
    for i := 0 to |targets|
      invariant SelectFrom(targets, 0, 0, roll) == SelectFrom(targets, i, cumulative, roll)
    {
      if targets[i].weight == 0 {
        continue;
      }
      cumulative := Add32(cumulative, targets[i].weight);
      if roll < cumulative {
        return Ok(i);
      }
    }
    r := Err(SelectionFailed);
  }

  // Exact weights.

  /** The true sum of the first `n` weights. */
  function Sum(targets: seq<Target>, n: nat): nat
    requires n <= |targets|
  {
    if n == 0 then 0 else Sum(targets, n - 1) + targets[n - 1].weight
  }

  lemma SumNext(targets: seq<Target>, n: nat)
    requires n < |targets|
    ensures Sum(targets, n + 1) == Sum(targets, n) + targets[n].weight
  {
  }

  lemma {:induction false} SumMonotone(targets: seq<Target>, m: nat, n: nat)
    requires m <= n <= |targets|
    ensures Sum(targets, m) <= Sum(targets, n)
  {
    if m < n {
      SumMonotone(targets, m, n - 1);
    }
  }

  lemma {:induction false} SumPrefix(targets: seq<Target>, n: nat, k: nat)
    requires k <= n <= |targets|
    ensures Sum(targets[..n], k) == Sum(targets, k)
  {
    if k > 0 {
      SumPrefix(targets, n, k - 1);
    }
  }

  lemma AddMod(x: nat, y: nat)
    ensures (x % U32 + y) % U32 == (x + y) % U32
  {
  }

  lemma {:induction false} Total32Wraps(targets: seq<Target>)
    ensures Total32(targets) == Sum(targets, |targets|) % U32
  {
    if targets != [] {
      var n := |targets| - 1;
      Total32Wraps(targets[..n]);
      SumPrefix(targets, n, n);
      AddMod(Sum(targets, n), targets[n].weight);
    }
  }

  /** Without overflow, target `i` takes exactly the rolls between the sum before
      it and the sum after it. */
  lemma {:induction false} SelectsInterval(targets: seq<Target>, i: nat, cumulative: u32, roll: u32)
    requires i <= |targets| && Sum(targets, |targets|) < U32 && cumulative == Sum(targets, i) <= roll
    ensures
      match SelectFrom(targets, i, cumulative, roll)
      case None => roll >= Sum(targets, |targets|)
      case Some(k) => Sum(targets, k) <= roll < Sum(targets, k + 1)
    decreases |targets| - i
  {
    hide Sum;
    SumMonotone(targets, i, |targets|);
    if i < |targets| {
      SumMonotone(targets, i + 1, |targets|);
      SumNext(targets, i);
      assert Add32(cumulative, targets[i].weight) == Sum(targets, i + 1);
      if !(roll < Sum(targets, i + 1)) || targets[i].weight == 0 {
        SelectsInterval(targets, i + 1, Sum(targets, i + 1), roll);
      }
    }
  }

  /** The rolls that select target `i`. */
  ghost function Rolls(targets: seq<Target>, i: nat): set<int> {
    set r: int | 0 <= r < Total32(targets) && Select(targets, r) == Ok(i)
  }

  ghost function Interval(lo: int, hi: int): (s: set<int>)
    ensures forall r :: r in s <==> lo <= r < hi
    decreases hi - lo
  {
    if lo >= hi then {} else Interval(lo, hi - 1) + {hi - 1}
  }

  lemma {:induction false} IntervalSize(lo: int, hi: int)
    requires lo <= hi
    ensures |Interval(lo, hi)| == hi - lo
    decreases hi - lo
  {
    if lo < hi {
      IntervalSize(lo, hi - 1);
    }
  }

  lemma SelectsTarget(targets: seq<Target>, i: nat, roll: u32)
    requires Sum(targets, |targets|) < U32 && i < |targets| && roll < Sum(targets, |targets|)
    ensures Select(targets, roll) == Ok(i) <==> Sum(targets, i) <= roll < Sum(targets, i + 1)
  {
    Total32Wraps(targets);
    SelectsInterval(targets, 0, 0, roll);
    var k := SelectFrom(targets, 0, 0, roll).value;
    if k < i {
      SumMonotone(targets, k + 1, i);
    } else if i < k {
      SumMonotone(targets, i + 1, k);
    }
  }

  /** The two errors: the 32-bit total is zero, or no target takes the roll, which
      without overflow is a roll of the total or more. */
  lemma SelectErrors(targets: seq<Target>, roll: u32)
    ensures Select(targets, roll) == Err(ZeroTotal) <==> Sum(targets, |targets|) % U32 == 0
    ensures 0 < Sum(targets, |targets|) < U32 ==>
      (Select(targets, roll) == Err(SelectionFailed) <==> roll >= Sum(targets, |targets|))
  {
    Total32Wraps(targets);
    if 0 < Sum(targets, |targets|) < U32 {
      SelectsInterval(targets, 0, 0, roll);
      var found := SelectFrom(targets, 0, 0, roll);
      if found.Some? {
        SumMonotone(targets, found.value + 1, |targets|);
      }
    }
  }

  lemma RollsOfTarget(targets: seq<Target>, i: nat)
    requires Sum(targets, |targets|) < U32 && i < |targets|
    ensures |Rolls(targets, i)| == targets[i].weight
  {
    hide Select, Total32;
    var lo, hi := Sum(targets, i), Sum(targets, i + 1);
    Total32Wraps(targets);
    SumMonotone(targets, i + 1, |targets|);
    forall r: int | 0 <= r < Total32(targets)
      ensures Select(targets, r) == Ok(i) <==> lo <= r < hi
    {
      SelectsTarget(targets, i, r);
    }
    assert Rolls(targets, i) == Interval(lo, hi);
    IntervalSize(lo, hi);
  }

  /** Without overflow and with some weight, every roll selects a target. */
  lemma EveryRollSelects(targets: seq<Target>, roll: u32)
    requires Sum(targets, |targets|) < U32 && roll < Total32(targets)
    ensures Select(targets, roll).Ok?
  {
    Total32Wraps(targets);
    SelectsInterval(targets, 0, 0, roll);
  }

  ghost function RollsBelow(targets: seq<Target>, n: nat): set<int> {
    set r: int | 0 <= r < Total32(targets) && Select(targets, r).Ok? && Select(targets, r).value < n
  }

  lemma {:induction false} RollsAddUp(targets: seq<Target>, n: nat)
    requires n <= |targets| && forall i :: 0 <= i < n ==> |Rolls(targets, i)| == targets[i].weight
    ensures |RollsBelow(targets, n)| == Sum(targets, n)
  {
    hide Select, Total32;
    if n == 0 {
      assert RollsBelow(targets, 0) == {};
    } else {
      RollsAddUp(targets, n - 1);
      assert RollsBelow(targets, n) == RollsBelow(targets, n - 1) + Rolls(targets, n - 1);
      assert RollsBelow(targets, n - 1) !! Rolls(targets, n - 1);
    }
  }

  lemma SubsetSize<T>(a: set<T>, b: set<T>)
    requires a <= b
    ensures |a| <= |b|
  {
    assert b == a + (b - a);
  }

  /** Each target is chosen by exactly as many rolls as its weight, if and only
      if the weights do not add up to 2^32 or more. */
  lemma WeightsAreExact(targets: seq<Target>)
    ensures (forall i :: 0 <= i < |targets| ==> |Rolls(targets, i)| == targets[i].weight)
      <==> Sum(targets, |targets|) < U32
  {
    if Sum(targets, |targets|) < U32 {
      forall i | 0 <= i < |targets|
        ensures |Rolls(targets, i)| == targets[i].weight
      {
        RollsOfTarget(targets, i);
      }
    } else if forall i :: 0 <= i < |targets| ==> |Rolls(targets, i)| == targets[i].weight {
      RollsAddUp(targets, |targets|);
      SubsetSize(RollsBelow(targets, |targets|), Interval(0, Total32(targets)));
      IntervalSize(0, Total32(targets));
      assert false;
    }
  }
}
