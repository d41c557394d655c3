/** The difficulty of proof of work. `GetProofOfWorkTarget` looks at the last eight blocks mined with an algorithm, weighs
    the time each took with a power of two, the newest most, and raises or lowers the number of bits by one when the mean
    is out of bounds. Block times are 32-bit; their difference is shifted in 32 bits before it is added up. */
module WorkTarget {
  import opened Common
  import opened Arithmetic

  const BITS_LOWER_LIMIT := 8
  const BITS_UPPER_LIMIT := 200
  const ADJUST_COUNT := 8
  const UPPER_TARGET := 60
  const LOWER_TARGET := 30
  const UPPER_TARGET_OF_DPOS := 65
  const LOWER_TARGET_OF_DPOS := 40
  const DPOS_HEIGHT := 243800
  const ALGO_MAX := 2
  const TWO32 := 0x1_0000_0000

  function U32(x: int): nat {
    x % TWO32
  }

  /** A primary chain: the genesis block, and blocks mined with proof of work or otherwise. */
  datatype Chain =
    | Genesis(time: nat)
    | Next(prev: Chain, work: bool, algo: int, bits: int, time: nat)

  function Height(c: Chain): nat {
    if c.Genesis? then 0 else 1 + Height(c.prev)
  }

  /** The newest block mined with the algorithm, or else the genesis block. */
  function LastWork(c: Chain, algo: int): (b: Chain)
    ensures Height(b) <= Height(c)
  {
    if c.Genesis? || (c.work && c.algo == algo) then c else LastWork(c.prev, algo)
  }

  /** The time that a block took. */
  function Took(b: Chain): nat
    requires b.Next?
  {
    U32(b.time - b.prev.time)
  }

  /** The times that the newest `n` blocks of the algorithm took. */
  function Spacings(c: Chain, algo: int, n: nat): (s: seq<nat>)
    ensures |s| <= n
    decreases Height(c)
  {
    var b := LastWork(c, algo);
    if n == 0 || b.Genesis? then [] else [Took(b)] + Spacings(b.prev, algo, n - 1)
  }

  /** `x` shifted left by `k` bits. */
  function Shift(x: nat, k: nat): nat {
    if k == 0 then x else 2 * Shift(x, k - 1)
  }

  /** The weighted sum of spacings as the code computes it, and as it is meant; the weight of the first is 2^k. */
  function WrappedSum(s: seq<nat>, k: nat): nat
    requires |s| <= k + 1
    decreases |s|
  {
    if s == [] then 0 else U32(Shift(s[0], k)) + if k == 0 then 0 else WrappedSum(s[1..], k - 1)
  }

  function WeightedSum(s: seq<nat>, k: nat): nat
    requires |s| <= k + 1
    decreases |s|
  {
    if s == [] then 0 else Shift(s[0], k) + if k == 0 then 0 else WeightedSum(s[1..], k - 1)
  }

  function Weights(n: nat, k: nat): nat
    requires n <= k + 1
    decreases n
  {
    if n == 0 then 0 else Shift(1, k) + if k == 0 then 0 else Weights(n - 1, k - 1)
  }

  /** The bounds on the mean spacing for a block at a height. */
  function Upper(height: int): int {
    if height >= DPOS_HEIGHT then UPPER_TARGET_OF_DPOS else UPPER_TARGET
  }

  function Lower(height: int): int {
    if height >= DPOS_HEIGHT then LOWER_TARGET_OF_DPOS else LOWER_TARGET
  }

  function Adjust(bits: int, spacing: int, height: int): int {
    if spacing > Upper(height) && bits > BITS_LOWER_LIMIT then bits - 1
    else if spacing < Lower(height) && bits < BITS_UPPER_LIMIT then bits + 1
    else bits
  }

  /** The spacing that the code arrives at. */
  function Spacing(s: seq<nat>): nat
    requires 0 < |s| <= 8
  {
    WeightsPositive(|s|, 7);
    WrappedSum(s, 7) / Weights(|s|, 7)
  }

  /** The bits demanded of the next block of an algorithm; `init` is the number for the first one. */
  function Target(c: Chain, algo: int, init: int): int {
    var b := LastWork(c, algo);
    if b.Genesis? then init
    else
      Adjust(b.bits, Spacing(Spacings(c, algo, ADJUST_COUNT)), Height(c) + 1)
  }

  // ---------------------------------------------------------------- weights

  lemma {:induction false} ShiftPositive(k: nat)
    ensures Shift(1, k) > 0
  {
    if k > 0 {
      ShiftPositive(k - 1);
    }
  }

  /** The divisor is never zero once a block of the algorithm is found. */
  lemma {:induction false} WeightsPositive(n: nat, k: nat)
    requires n <= k + 1
    ensures n > 0 ==> Weights(n, k) > 0
  {
    ShiftPositive(k);
  }

  lemma {:induction false} WeightsBelow(n: nat, k: nat)
    requires n <= k + 1
    ensures Weights(n, k) < 2 * Shift(1, k)
    decreases n
  {
    ShiftPositive(k);
    if n > 0 && k > 0 {
      WeightsBelow(n - 1, k - 1);
    }
  }

  lemma {:induction false} ShiftIsMul(x: nat, k: nat)
    ensures Shift(x, k) == x * Shift(1, k)
  {
    if k > 0 {
      ShiftIsMul(x, k - 1);
    }
  }

  /** The weighted sum of `n` equal spacings. */
  function EqualSum(x: nat, n: nat, k: nat): nat
    requires n <= k + 1
    decreases n
  {
    if n == 0 then 0 else Shift(x, k) + if k == 0 then 0 else EqualSum(x, n - 1, k - 1)
  }

  lemma Distributes(x: nat, v: nat, w: nat)
    ensures x * (v + w) == x * v + x * w
  {
  }

  lemma {:induction false} EqualSumIs(x: nat, n: nat, k: nat)
    requires n <= k + 1
    ensures EqualSum(x, n, k) == x * Weights(n, k)
    decreases n
  {
    if n > 0 {
      ShiftIsMul(x, k);
      if k > 0 {
        EqualSumIs(x, n - 1, k - 1);
        Distributes(x, Shift(1, k), Weights(n - 1, k - 1));
      }
    }
  }

  lemma {:induction false} ShiftMono(x: nat, y: nat, k: nat)
    requires x <= y
    ensures Shift(x, k) <= Shift(y, k)
  {
    if k > 0 {
      ShiftMono(x, y, k - 1);
    }
  }

  /** The weighted sum lies between those of the least and of the greatest spacing. */
  lemma {:induction false} SumBetween(s: seq<nat>, k: nat, least: nat, greatest: nat)
    requires |s| <= k + 1 && forall i :: 0 <= i < |s| ==> least <= s[i] <= greatest
    ensures EqualSum(least, |s|, k) <= WeightedSum(s, k) <= EqualSum(greatest, |s|, k)
    decreases |s|
  {
    if s != [] {
      ShiftMono(least, s[0], k);
      ShiftMono(s[0], greatest, k);
      if k > 0 {
        SumBetween(s[1..], k - 1, least, greatest);
      }
    }
  }

  // ---------------------------------------------------------------- wrap-around

  /** Every spacing, shifted by its weight, fits in 32 bits. */
  predicate Fits(s: seq<nat>, k: nat)
    requires |s| <= k + 1
    decreases |s|
  {
    s != [] ==> Shift(s[0], k) < TWO32 && (k > 0 ==> Fits(s[1..], k - 1))
  }

  lemma {:induction false} WrappedIsLess(s: seq<nat>, k: nat)
    requires |s| <= k + 1
    ensures if Fits(s, k) then WrappedSum(s, k) == WeightedSum(s, k) else WrappedSum(s, k) <= WeightedSum(s, k) - TWO32
    decreases |s|
  {
    if s != [] {
      if k > 0 {
        WrappedIsLess(s[1..], k - 1);
      }
      Wraps(Shift(s[0], k));
    }
  }

  lemma Wraps(x: nat)
    ensures if x < TWO32 then U32(x) == x else U32(x) <= x - TWO32
  {
  }

  /** The spacing is the weighted mean if and only if no shifted spacing wraps around. */
  lemma SpacingIsMean(s: seq<nat>)
    requires 0 < |s| <= 8
    ensures Weights(|s|, 7) > 0
    ensures Spacing(s) == WeightedSum(s, 7) / Weights(|s|, 7) <==> Fits(s, 7)
  {
    WeightsPositive(|s|, 7);
    WrappedIsLess(s, 7);
    WeightsBelow(|s|, 7);
    assert Shift(1, 7) == 128 by { assert Shift(1, 3) == 8; assert Shift(1, 5) == 32; }
    if !Fits(s, 7) {
      LessByMore(WrappedSum(s, 7), WeightedSum(s, 7), Weights(|s|, 7));
    }
  }

  lemma LessByMore(x: nat, y: nat, d: nat)
    requires d > 0 && x + d <= y
    ensures x / d < y / d
  {
    DivFacts(x, d);
    DivFacts(y, d);
    if x / d >= y / d {
      MulMono(y / d, x / d, d, d);
    }
  }

  /** Unless it wraps around, the spacing lies between the least and the greatest of the last eight. */
  lemma SpacingBetween(s: seq<nat>, least: nat, greatest: nat)
    requires 0 < |s| <= 8 && Fits(s, 7) && forall i :: 0 <= i < |s| ==> least <= s[i] <= greatest
    ensures least <= Spacing(s) <= greatest
  {
    WeightsPositive(|s|, 7);
    WrappedIsLess(s, 7);
    SumBetween(s, 7, least, greatest);
    EqualSumIs(least, |s|, 7);
    EqualSumIs(greatest, |s|, 7);
    MeanBetween(WeightedSum(s, 7), Weights(|s|, 7), least, greatest);
  }

  lemma MeanBetween(x: nat, d: nat, least: nat, greatest: nat)
    requires d > 0 && least * d <= x <= greatest * d
    ensures least <= x / d <= greatest
  {
    DivFacts(x, d);
    QuotientBetween(x / d, x, d, least, greatest);
  }

  lemma QuotientBetween(q: nat, x: nat, d: nat, least: nat, greatest: nat)
    requires d > 0 && q * d <= x < (q + 1) * d && least * d <= x <= greatest * d
    ensures least <= q <= greatest
  {
    LessByProduct(least, q + 1, d);
    assert (greatest + 1) * d == greatest * d + d;
    LessByProduct(q, greatest + 1, d);
  }

  lemma LessByProduct(a: nat, b: nat, d: nat)
    ensures a * d < b * d ==> a < b
  {
    if b <= a {
      MulMono(b, a, d, d);
    }
  }

  /** A block that took 2^25 seconds, more than a year, counts as one that took no time, and the work gets harder. */
  lemma LongGapCountsAsNone(init: int)
    requires BITS_LOWER_LIMIT <= init < BITS_UPPER_LIMIT
    ensures var c := Next(Genesis(1500000000), true, 1, init, 1500000000 + 33554432);
            Spacings(c, 1, ADJUST_COUNT) == [33554432] && Target(c, 1, init) == init + 1
  {
    var c := Next(Genesis(1500000000), true, 1, init, 1500000000 + 33554432);
    assert LastWork(c, 1) == c;
    assert LastWork(c.prev, 1).Genesis?;
    assert Spacings(c, 1, 8) == [U32(33554432)] + Spacings(c.prev, 1, 7);
    assert Shift(33554432, 7) == TWO32 by {
      assert Shift(33554432, 2) == 134217728;
      assert Shift(33554432, 4) == 536870912;
      assert Shift(33554432, 6) == 2147483648;
    }
    assert WrappedSum([33554432], 7) == 0;
    WeightsPositive(1, 7);
  }

  // ---------------------------------------------------------------- whole chains

  /** Every block mined with proof of work carries the bits demanded of it. */
  predicate Mined(c: Chain, init: int) {
    c.Next? ==> Mined(c.prev, init) && (c.work ==> c.bits == Target(c.prev, c.algo, init))
  }

  /** The bits of all blocks mined with proof of work are within the limits. */
  predicate BitsInRange(c: Chain) {
    c.Next? ==> BitsInRange(c.prev) && (c.work ==> BITS_LOWER_LIMIT <= c.bits <= BITS_UPPER_LIMIT)
  }

  lemma {:induction false} LastWorkInRange(c: Chain, algo: int)
    requires BitsInRange(c)
    ensures var b := LastWork(c, algo); b.Next? ==> b.work && b.algo == algo && BITS_LOWER_LIMIT <= b.bits <= BITS_UPPER_LIMIT
  {
    if c.Next? && !(c.work && c.algo == algo) {
      LastWorkInRange(c.prev, algo);
    }
  }

  lemma {:induction false} MinedInRange(c: Chain, init: int)
    requires Mined(c, init) && BITS_LOWER_LIMIT <= init <= BITS_UPPER_LIMIT
    ensures BitsInRange(c)
  {
    if c.Next? {
      MinedInRange(c.prev, init);
      LastWorkInRange(c.prev, c.algo);
    }
  }

  /** On every chain whose blocks carry the bits demanded of them, the bits stay within the limits, the first block of an
      algorithm has the initial number, and any other differs by at most one from the block of its algorithm before it. */
  lemma BitsChangeByOne(c: Chain, init: int)
    requires Mined(c, init) && BITS_LOWER_LIMIT <= init <= BITS_UPPER_LIMIT && c.Next? && c.work
    ensures BITS_LOWER_LIMIT <= c.bits <= BITS_UPPER_LIMIT
    ensures var b := LastWork(c.prev, c.algo); if b.Genesis? then c.bits == init else -1 <= c.bits - b.bits <= 1
  {
    MinedInRange(c, init);
  }

  /** The work follows the pace of the last eight blocks: it stays as it is when all were within the bounds, gets easier
      when all were slower and harder when all were faster, as far as the limits allow; and it gets easier only after a
      block that was slower, and harder only after one that was faster. */
  lemma BitsFollowSpacings(c: Chain, algo: int, init: int, least: nat, greatest: nat)
    requires LastWork(c, algo).Next? && BITS_LOWER_LIMIT <= LastWork(c, algo).bits <= BITS_UPPER_LIMIT
    requires Fits(Spacings(c, algo, ADJUST_COUNT), 7)
    requires forall i :: 0 <= i < |Spacings(c, algo, ADJUST_COUNT)| ==> least <= Spacings(c, algo, ADJUST_COUNT)[i] <= greatest
    ensures var bits, next, height := LastWork(c, algo).bits, Target(c, algo, init), Height(c) + 1;
            (Lower(height) <= least && greatest <= Upper(height) ==> next == bits) &&
            (least > Upper(height) ==> next == Max(bits - 1, BITS_LOWER_LIMIT)) &&
            (greatest < Lower(height) ==> next == Min(bits + 1, BITS_UPPER_LIMIT)) &&
            (next < bits ==> greatest > Upper(height)) && (next > bits ==> least < Lower(height))
  {
    SpacingBetween(Spacings(c, algo, ADJUST_COUNT), least, greatest);
    AdjustFollows(LastWork(c, algo).bits, Spacing(Spacings(c, algo, ADJUST_COUNT)), Height(c) + 1, least, greatest);
  }

  lemma AdjustFollows(bits: int, spacing: int, height: int, least: int, greatest: int)
    requires least <= spacing <= greatest && BITS_LOWER_LIMIT <= bits <= BITS_UPPER_LIMIT
    ensures var next := Adjust(bits, spacing, height);
            (Lower(height) <= least && greatest <= Upper(height) ==> next == bits) &&
            (least > Upper(height) ==> next == Max(bits - 1, BITS_LOWER_LIMIT)) &&
            (greatest < Lower(height) ==> next == Min(bits + 1, BITS_UPPER_LIMIT)) &&
            (next < bits ==> greatest > Upper(height)) && (next > bits ==> least < Lower(height))
  {
  }

  // ---------------------------------------------------------------- GetProofOfWorkTarget

  /** The walk to the newest block of the algorithm. */
  method FindWork(c: Chain, algo: int) returns (b: Chain)
    ensures b == LastWork(c, algo)
  {
    b := c;
    while b.Next? && !(b.work && b.algo == algo)
      invariant LastWork(b, algo) == LastWork(c, algo)
      decreases b
    {
      b := b.prev;
    }
  }

  lemma {:induction false} SumStep(s: seq<nat>, x: nat, k: nat)
    requires |s| <= k
    ensures WrappedSum(s + [x], k) == WrappedSum(s, k) + U32(Shift(x, k - |s|))
    ensures Weights(|s| + 1, k) == Weights(|s|, k) + Shift(1, k - |s|)
    decreases |s|
  {
    if s == [] {
      assert (s + [x])[1..] == [];
    } else {
      assert (s + [x])[1..] == s[1..] + [x];
      SumStep(s[1..], x, k - 1);
    }
  }

  /** `GetProofOfWorkTarget`: nothing for an unknown algorithm or above a block that is not primary. */
  method GetProofOfWorkTarget(c: Chain, primary: bool, algo: int, init: int) returns (bits: Option<int>)
    ensures bits == if algo <= 0 || algo >= ALGO_MAX || !primary then None else Some(Target(c, algo, init))
  {
    if algo <= 0 || algo >= ALGO_MAX || !primary {
      return None;
    }
    var b := FindWork(c, algo);
    if b.Genesis? {
      return Some(init);
    }
    var n := b.bits;
    var spacing := WeighSpacings(c, b, algo);
    return Some(Adjust(n, spacing, Height(c) + 1));
  }

  lemma {:induction false} LastWorkAgain(c: Chain, algo: int)
    ensures var b := LastWork(c, algo); LastWork(b, algo) == b && (b.Next? ==> b.work && b.algo == algo)
  {
    if c.Next? && !(c.work && c.algo == algo) {
      LastWorkAgain(c.prev, algo);
    }
  }

  /** The first part of the spacings is added up. */
  ghost predicate Weighed(all: seq<nat>, done: seq<nat>, rest: seq<nat>, spacing: nat, weight: nat) {
    |done| <= 8 && all == done + rest && spacing == WrappedSum(done, 7) && weight == Weights(|done|, 7)
  }

  lemma WeighStep(all: seq<nat>, done: seq<nat>, took: nat, rest: seq<nat>, spacing: nat, weight: nat, index: nat)
    requires |done| + index == 7 && Weighed(all, done, [took] + rest, spacing, weight)
    ensures Weighed(all, done + [took], rest, spacing + U32(Shift(took, index)), weight + Shift(1, index))
  {
    SumStep(done, took, 7);
    assert done + ([took] + rest) == (done + [took]) + rest;
  }

  lemma SpacingsStep(b: Chain, algo: int, n: nat)
    requires b.Next? && LastWork(b, algo) == b
    ensures Spacings(b, algo, n + 1) == [Took(b)] + Spacings(b.prev, algo, n)
    ensures Spacings(b.prev, algo, n) == Spacings(LastWork(b.prev, algo), algo, n)
    ensures LastWork(LastWork(b.prev, algo), algo) == LastWork(b.prev, algo)
  {
    LastWorkAgain(b.prev, algo);
  }

  lemma NothingLeft(all: seq<nat>, done: seq<nat>, spacing: nat, weight: nat)
    requires Weighed(all, done, [], spacing, weight)
    ensures all == done
  {
  }

  /** The loop over the newest blocks of the algorithm. */
  method SumSpacings(ghost c: Chain, first: Chain, algo: int) returns (spacing: nat, weight: nat)
    requires first == LastWork(c, algo) && first.Next?
    ensures var s := Spacings(c, algo, ADJUST_COUNT); s != [] && spacing == WrappedSum(s, 7) && weight == Weights(|s|, 7)
  {
    LastWorkAgain(c, algo);
    var b := first;
    var index: nat := ADJUST_COUNT - 1;
    spacing, weight := 0, 0;
    ghost var all, done := Spacings(c, algo, ADJUST_COUNT), [];
    while b.Next?
      invariant |done| + index == 7 && LastWork(b, algo) == b && (b.Genesis? ==> done != [])
      invariant Weighed(all, done, Spacings(b, algo, index + 1), spacing, weight)
      decreases index
    {
      var took := Took(b);
      SpacingsStep(b, algo, index);
      WeighStep(all, done, took, Spacings(b.prev, algo, index), spacing, weight, index);
      spacing := spacing + U32(Shift(took, index));
      weight := weight + Shift(1, index);
      done := done + [took];
      if index == 0 {
        break;
      }
      index := index - 1;
      b := FindWork(b.prev, algo);
    }
    NothingLeft(all, done, spacing, weight);
  }

  method WeighSpacings(ghost c: Chain, first: Chain, algo: int) returns (mean: nat)
    requires first == LastWork(c, algo) && first.Next?
    ensures var s := Spacings(c, algo, ADJUST_COUNT); s != [] && mean == Spacing(s)
  {
    var spacing, weight := SumSpacings(c, first, algo);
    WeightsPositive(|Spacings(c, algo, ADJUST_COUNT)|, 7);
    mean := spacing / weight;
  }
}
