/** The choice between proof of work and a delegate for the next primary block. The agreed random number is compared with
    a threshold that falls as more stake is enrolled; above it, a delegate is drawn in proportion to its weight.

    The code computes in 64-bit unsigned integers; every operation that could wrap around is written with `U64`. */
module Ballot {
  import opened Common
  import opened Arithmetic

  const ENROLL_MINIMUM_AMOUNT := 10000000 * COIN
  const ENROLL_MAXIMUM_AMOUNT := 30000000 * COIN
  const ENROLL_MAXIMUM_TOTAL_AMOUNT := 690000000 * COIN
  const UNIT_AMOUNT := 1000 * COIN
  const MAXIMUM_TIMES := 1000000 * COIN
  const CHANGE_MINT_RATE_HEIGHT := 565620
  const MAX_DELEGATE_THRESH := 23

  /** An enrolled delegate with the amount voted for it. */
  datatype Entry = Entry(dest: nat, amount: int)

  /** A delegate that takes part in the draw, with its weight. */
  datatype Share = Share(dest: nat, weight: nat)

  /** The result of a ballot: proof of work, a delegate, or a division by zero. */
  datatype Outcome = Work | Delegate(dest: nat) | Undefined

  /** Whole units of an amount; the division truncates toward zero. */
  function Units(amount: int): int {
    if amount >= 0 then amount / UNIT_AMOUNT else -((-amount) / UNIT_AMOUNT)
  }

  function Weight(amount: int): nat {
    U64(Units(Min(amount, ENROLL_MAXIMUM_AMOUNT)))
  }

  function MaxWeight(supply: int): nat {
    U64(Units(Min(supply, ENROLL_MAXIMUM_TOTAL_AMOUNT)))
  }

  function TotalAmount(amounts: seq<Entry>): int {
    if amounts == [] then 0 else TotalAmount(amounts[..|amounts| - 1]) + amounts[|amounts| - 1].amount
  }

  function TotalWeight(shares: seq<Share>): nat {
    if shares == [] then 0 else shares[0].weight + TotalWeight(shares[1..])
  }

  /** What is known of enrolled delegates: there are at most 23, they are distinct, and together they hold no more than the
      money supply. */
  predicate Enrolled(amounts: seq<Entry>, supply: int) {
    |amounts| <= MAX_DELEGATE_THRESH && TotalAmount(amounts) <= supply < 0x8000_0000_0000_0000 &&
    (forall i :: 0 <= i < |amounts| ==> amounts[i].amount >= 0) &&
    (forall i, j :: 0 <= i < j < |amounts| ==> amounts[i].dest != amounts[j].dest)
  }

  // ---------------------------------------------------------------- the delegates in the draw

  predicate Sorted(shares: seq<Share>) {
    forall i, j :: 0 <= i < j < |shares| ==> shares[i].dest < shares[j].dest
  }

  function ShareOf(e: Entry): Share {
    Share(e.dest, Weight(e.amount))
  }

  /** The enrolled delegates that have a ballot, with their weights. */
  function Chosen(ballot: set<nat>, amounts: seq<Entry>): set<Share> {
    if amounts == [] then {}
    else
      var e := amounts[|amounts| - 1];
      Chosen(ballot, amounts[..|amounts| - 1]) + if e.dest in ballot then {ShareOf(e)} else {}
  }

  lemma {:induction false} ChosenMeaning(ballot: set<nat>, amounts: seq<Entry>, s: Share)
    ensures s in Chosen(ballot, amounts) <==> s.dest in ballot && exists i :: 0 <= i < |amounts| && s == ShareOf(amounts[i])
  {
    if amounts != [] {
      var n := |amounts| - 1;
      ChosenMeaning(ballot, amounts[..n], s);
      if s in Chosen(ballot, amounts[..n]) {
        var i :| 0 <= i < n && s == ShareOf(amounts[..n][i]);
        assert s == ShareOf(amounts[i]);
      }
      if i :| 0 <= i < |amounts| && s == ShareOf(amounts[i]) {
        assert i < n ==> s == ShareOf(amounts[..n][i]);
      }
    }
  }

  /** The shares are those of the enrolled delegates with a ballot, in the order of their addresses. */
  ghost predicate IsSelection(shares: seq<Share>, ballot: set<nat>, amounts: seq<Entry>) {
    Sorted(shares) && (set s | s in shares) == Chosen(ballot, amounts)
  }

  /** Assignment to an ordered map. */
  function Put(shares: seq<Share>, s: Share): seq<Share> {
    if shares == [] || s.dest < shares[0].dest then [s] + shares
    else if s.dest == shares[0].dest then [s] + shares[1..]
    else [shares[0]] + Put(shares[1..], s)
  }

  lemma {:induction false} PutNew(shares: seq<Share>, s: Share)
    requires Sorted(shares) && forall x :: x in shares ==> x.dest != s.dest
    ensures Sorted(Put(shares, s)) && TotalWeight(Put(shares, s)) == TotalWeight(shares) + s.weight
    ensures forall x :: x in Put(shares, s) <==> x in shares || x == s
  {
    if shares != [] && s.dest >= shares[0].dest {
      assert shares[0] in shares;
      PutNew(shares[1..], s);
      var rest := Put(shares[1..], s);
      forall i | 0 <= i < |rest| ensures shares[0].dest < rest[i].dest {
        assert rest[i] in rest;
      }
      assert Put(shares, s)[1..] == rest;
    } else {
      assert Put(shares, s)[1..] == shares;
    }
  }

  /** One more delegate in the draw. */
  lemma SelectionGrows(shares: seq<Share>, ballot: set<nat>, amounts: seq<Entry>, k: nat)
    requires k < |amounts| && IsSelection(shares, ballot, amounts[..k]) && amounts[k].dest in ballot
    requires forall i :: 0 <= i < k ==> amounts[i].dest != amounts[k].dest
    ensures IsSelection(Put(shares, ShareOf(amounts[k])), ballot, amounts[..k + 1])
    ensures TotalWeight(Put(shares, ShareOf(amounts[k]))) == TotalWeight(shares) + Weight(amounts[k].amount)
  {
    var s := ShareOf(amounts[k]);
    assert amounts[..k + 1][..k] == amounts[..k];
    forall x | x in shares ensures x.dest != s.dest {
      assert x in Chosen(ballot, amounts[..k]);
      ChosenMeaning(ballot, amounts[..k], x);
    }
    PutNew(shares, s);
  }

  lemma WeightBounds(amount: int)
    requires amount >= 0
    ensures Weight(amount) <= 30000 && Weight(amount) * UNIT_AMOUNT <= Min(amount, ENROLL_MAXIMUM_AMOUNT)
  {
  }

  lemma MaxWeightBounds(supply: int, total: int)
    requires 0 <= supply && 0 <= total <= 690000 && total * UNIT_AMOUNT <= supply
    ensures total <= MaxWeight(supply) <= 690000
  {
  }

  /** The amounts of the delegates in the draw, each capped. */
  function TotalCapped(ballot: set<nat>, amounts: seq<Entry>): int {
    if amounts == [] then 0
    else
      var e := amounts[|amounts| - 1];
      TotalCapped(ballot, amounts[..|amounts| - 1]) + if e.dest in ballot then Min(e.amount, ENROLL_MAXIMUM_AMOUNT) else 0
  }

  /** What holds after the first `k` enrolled delegates. */
  ghost predicate Collected(shares: seq<Share>, total: nat, ballot: set<nat>, amounts: seq<Entry>, k: nat)
    requires k <= |amounts|
  {
    IsSelection(shares, ballot, amounts[..k]) && total == TotalWeight(shares) <= 30000 * k &&
    total * UNIT_AMOUNT <= TotalAmount(amounts[..k])
  }

  ghost predicate Trusted(trust: nat, ballot: set<nat>, amounts: seq<Entry>, k: nat)
    requires k <= |amounts|
  {
    trust == TotalCapped(ballot, amounts[..k]) <= ENROLL_MAXIMUM_AMOUNT * k
  }

  lemma UnitsAdd(total: nat, weight: nat, k: nat, sum: int, amount: int)
    requires total <= 30000 * k && weight <= 30000 && k < MAX_DELEGATE_THRESH
    requires total * UNIT_AMOUNT <= sum && weight * UNIT_AMOUNT <= amount
    ensures U64(total + weight) == total + weight <= 30000 * (k + 1) && (total + weight) * UNIT_AMOUNT <= sum + amount
  {
  }

  lemma CollectedStep(shares: seq<Share>, total: nat, ballot: set<nat>, amounts: seq<Entry>, k: nat, supply: int)
    requires Enrolled(amounts, supply) && k < |amounts| && Collected(shares, total, ballot, amounts, k)
    ensures var e := amounts[k];
            if e.dest in ballot then Collected(Put(shares, ShareOf(e)), U64(total + Weight(e.amount)), ballot, amounts, k + 1)
            else Collected(shares, total, ballot, amounts, k + 1)
  {
    var e := amounts[k];
    WeightBounds(e.amount);
    assert amounts[..k + 1][..k] == amounts[..k];
    if e.dest in ballot {
      SelectionGrows(shares, ballot, amounts, k);
      UnitsAdd(total, Weight(e.amount), k, TotalAmount(amounts[..k]), e.amount);
    }
  }

  lemma TrustedStep(trust: nat, ballot: set<nat>, amounts: seq<Entry>, k: nat, supply: int)
    requires Enrolled(amounts, supply) && k < |amounts| && Trusted(trust, ballot, amounts, k)
    ensures var e := amounts[k];
            if e.dest in ballot then Trusted(U64(trust + U64(Min(e.amount, ENROLL_MAXIMUM_AMOUNT))), ballot, amounts, k + 1)
            else Trusted(trust, ballot, amounts, k + 1)
  {
    assert amounts[..k + 1][..k] == amounts[..k];
  }

  /** The loop that collects the delegates: the enrolled weight never wraps around and never exceeds the maximum weight. */
  method Select(ballot: set<nat>, amounts: seq<Entry>, supply: int) returns (shares: seq<Share>, total: nat, trust: nat)
    ensures total < TWO64
    ensures supply >= 0 && Enrolled(amounts, supply) ==>
              IsSelection(shares, ballot, amounts) && total == TotalWeight(shares) <= MaxWeight(supply) <= 690000 &&
              trust == TotalCapped(ballot, amounts) / ENROLL_MINIMUM_AMOUNT <= 69
  {
    shares, total, trust := [], 0, 0;
    for k := 0 to |amounts|
      invariant Enrolled(amounts, supply) ==> Collected(shares, total, ballot, amounts, k) && Trusted(trust, ballot, amounts, k)
      invariant total < TWO64
    {
      if Enrolled(amounts, supply) {
        CollectedStep(shares, total, ballot, amounts, k, supply);
        TrustedStep(trust, ballot, amounts, k, supply);
      }
      if amounts[k].dest in ballot {
        total := U64(total + Weight(amounts[k].amount));
        trust := U64(trust + U64(Min(amounts[k].amount, ENROLL_MAXIMUM_AMOUNT)));
        shares := Put(shares, ShareOf(amounts[k]));
      }
    }
    trust := trust / ENROLL_MINIMUM_AMOUNT;
    assert amounts[..|amounts|] == amounts;
    if supply >= 0 && Enrolled(amounts, supply) {
      MaxWeightBounds(supply, total);
    }
  }

  // ---------------------------------------------------------------- the threshold

  function Square(x: nat): (r: nat)
    ensures x > 0 ==> r > 0
  {
    MulMono(0, x, 0, x);
    x * x
  }

  function Cube(x: nat): nat {
    MulMono(0, Square(x), 0, x);
    Square(x) * x
  }

  function WorkOf(cube: nat, square: nat, height: int): nat
    requires square > 0
  {
    if height >= CHANGE_MINT_RATE_HEIGHT then cube / square / 10 else cube / square
  }

  /** The weight of proof of work against an enrolled weight of `e`, where `m` is the maximum weight. */
  function WorkWeight(m: nat, e: nat, height: int): nat
    requires 0 < m && e <= m
  {
    WorkOf(Cube(m - e), Square(m), height)
  }

  /** Whether the ballot is decided without a division by zero. */
  predicate Defined(m: nat, e: nat, height: int) {
    m > 0 && (e > 0 || height < CHANGE_MINT_RATE_HEIGHT || m >= 10)
  }

  /** Random numbers below this one mean proof of work. */
  function Threshold(m: nat, e: nat, height: int): nat
    requires e <= m && Defined(m, e, height)
  {
    DivisorNotZero(m, e, height);
    WorkWeight(m, e, height) * 256 / (WorkWeight(m, e, height) + e)
  }

  /** What the weight of proof of work can be: at most what is not enrolled, all of the maximum when nothing is. */
  lemma WorkWeightBounds(m: nat, e: nat, height: int)
    requires 0 < m && e <= m
    ensures WorkWeight(m, e, height) <= m - e
    ensures e == 0 ==> WorkWeight(m, e, height) == if height >= CHANGE_MINT_RATE_HEIGHT then m / 10 else m
  {
    var a := m - e;
    MulMono(a, m, a, m);
    MulMono(Square(a), Square(m), a, a);
    DivMono(Cube(a), a * Square(m), Square(m));
    DivOf(a, Square(m), 0);
  }

  /** The divisor is zero exactly in the cases that are not `Defined`. */
  lemma DivisorNotZero(m: nat, e: nat, height: int)
    requires 0 < m && e <= m
    ensures WorkWeight(m, e, height) + e > 0 <==> Defined(m, e, height)
  {
    WorkWeightBounds(m, e, height);
  }

  lemma WorkFalls(m: nat, e: nat, f: nat, height: int)
    requires 0 < m && e <= f <= m
    ensures WorkWeight(m, f, height) <= WorkWeight(m, e, height)
  {
    var a, b := m - f, m - e;
    MulMono(a, b, a, b);
    MulMono(Square(a), Square(b), a, b);
    DivMono(Cube(a), Cube(b), Square(m));
    DivMono(Cube(a) / Square(m), Cube(b) / Square(m), 10);
  }

  lemma FractionMono(a: nat, b: nat, c: nat, d: nat)
    requires b > 0 && d > 0 && a * d <= c * b
    ensures a / b <= c / d
  {
    var q, r := a / b, c / d;
    DivFacts(a, b);
    DivFacts(c, d);
    if q > r {
      MulMono(r + 1, q, d, d);
      CrossMul(a, b, c, d, q);
    }
  }

  lemma CrossMul(a: nat, b: nat, c: nat, d: nat, q: nat)
    requires b > 0 && q * b <= a && c < q * d
    ensures c * b < a * d
  {
    MulMono(c + 1, q * d, b, b);
    MulMono(q * b, a, d, d);
    assert (q * d) * b == (q * b) * d;
  }

  /** The more is enrolled, the smaller the chance of proof of work. */
  lemma ThresholdFalls(m: nat, e: nat, f: nat, height: int)
    requires e <= f <= m && Defined(m, e, height)
    ensures Defined(m, f, height) && Threshold(m, f, height) <= Threshold(m, e, height)
  {
    DivisorNotZero(m, e, height);
    DivisorNotZero(m, f, height);
    WorkFalls(m, e, f, height);
    ShareMono(WorkWeight(m, f, height), f, WorkWeight(m, e, height), e);
  }

  lemma ShareMono(w: nat, f: nat, v: nat, e: nat)
    requires w <= v && e <= f && w + f > 0 && v + e > 0
    ensures w * 256 / (w + f) <= v * 256 / (v + e)
  {
    MulMono(w, v, e, f);
    assert w * 256 * (v + e) == 256 * (w * v) + 256 * (w * e);
    assert v * 256 * (w + f) == 256 * (w * v) + 256 * (v * f);
    FractionMono(w * 256, w + f, v * 256, v + e);
  }

  /** The threshold is at most 256; it is 256 when nothing is enrolled, so that then every random byte means proof of
      work. */
  lemma ThresholdBounds(m: nat, e: nat, height: int)
    requires e <= m && Defined(m, e, height)
    ensures Threshold(m, e, height) <= 256 && (e == 0 ==> Threshold(m, e, height) == 256)
  {
    var w := WorkWeight(m, e, height);
    DivisorNotZero(m, e, height);
    MulMono(w, w + e, 256, 256);
    DivMono(w * 256, 256 * (w + e), w + e);
    DivOf(256, w + e, 0);
  }

  /** With the maximum weight of the main network no product wraps around. */
  lemma NoWrap(m: nat, e: nat)
    requires 0 < m <= 690000 && e <= m
    ensures WrappedCube(m - e) == Cube(m - e) && WrappedSquare(m) == Square(m) && U64(m - e) == m - e
  {
    var a := m - e;
    MulMono(a, 690000, a, 690000);
    MulMono(m, 690000, m, 690000);
    MulMono(a * a, 690000 * 690000, a, 690000);
  }

  function WrappedSquare(x: nat): nat {
    U64(x * x)
  }

  function WrappedCube(x: nat): nat {
    U64(U64(x * x) * x)
  }

  /** The quotient that the random byte is compared with, unless the divisor is zero. */
  function Quotient(work: nat, e: nat): Option<int> {
    if U64(work + e) == 0 then None else Some(U64(work * 256) / U64(work + e))
  }

  /** The threshold as the code computes it, unless a divisor is zero. */
  function WrappedThreshold(m: nat, e: nat, height: int): Option<int> {
    if WrappedSquare(m) == 0 then None else Quotient(WorkOf(WrappedCube(U64(m - e)), WrappedSquare(m), height), e)
  }

  lemma WorkIsExact(m: nat, e: nat, height: int)
    requires 0 < m <= 690000 && e <= m
    ensures WrappedSquare(m) > 0
    ensures WorkOf(WrappedCube(U64(m - e)), WrappedSquare(m), height) == WorkWeight(m, e, height)
  {
    NoWrap(m, e);
  }

  lemma QuotientIsExact(w: nat, e: nat)
    requires w + e < TWO64 && w * 256 < TWO64
    ensures Quotient(w, e) == if w + e > 0 then Some(w * 256 / (w + e)) else None
  {
  }

  /** With the maximum weight of the main network the threshold is computed exactly. */
  lemma ThresholdIsExact(m: nat, e: nat, height: int)
    requires e <= m <= 690000
    ensures WrappedThreshold(m, e, height) == if Defined(m, e, height) then Some(Threshold(m, e, height)) else None
  {
    if m > 0 {
      WorkIsExact(m, e, height);
      WorkWeightBounds(m, e, height);
      QuotientIsExact(WorkWeight(m, e, height), e);
      DivisorNotZero(m, e, height);
    }
  }

  // ---------------------------------------------------------------- the draw

  /** The number `n` falls to the `i`-th delegate: it lies in the interval that begins with the weights before it. */
  predicate FallsTo(shares: seq<Share>, i: nat, n: int) {
    i < |shares| && TotalWeight(shares[..i]) <= n < TotalWeight(shares[..i]) + shares[i].weight
  }

  lemma {:induction false} TotalWeightStep(shares: seq<Share>, i: nat)
    requires i < |shares|
    ensures TotalWeight(shares[..i + 1]) == TotalWeight(shares[..i]) + shares[i].weight
  {
    if i > 0 {
      TotalWeightStep(shares[1..], i - 1);
      assert shares[..i + 1][1..] == shares[1..][..i] && shares[..i][1..] == shares[1..][..i - 1];
    }
  }

  lemma {:induction false} TotalWeightRises(shares: seq<Share>, i: nat, j: nat)
    requires i <= j <= |shares|
    ensures TotalWeight(shares[..i]) <= TotalWeight(shares[..j])
    decreases j - i
  {
    if i < j {
      TotalWeightStep(shares, i);
      TotalWeightRises(shares, i + 1, j);
    }
  }

  /** A number falls to one delegate only. */
  lemma FallsToOne(shares: seq<Share>, i: nat, j: nat, n: int)
    requires FallsTo(shares, i, n) && FallsTo(shares, j, n)
    ensures i == j
  {
    TotalWeightStep(shares, i);
    TotalWeightStep(shares, j);
    if i < j {
      TotalWeightRises(shares, i + 1, j);
    } else if j < i {
      TotalWeightRises(shares, j + 1, i);
    }
  }

  /** The scan that subtracts the weights one by one finds exactly the delegate to which the number falls. */
  method Draw(shares: seq<Share>, number: nat) returns (o: Outcome)
    requires number < TWO64
    ensures number < TotalWeight(shares) ==> exists i: nat :: FallsTo(shares, i, number) && o == Delegate(shares[i].dest)
  {
    var n := number;
    for i := 0 to |shares|
      invariant number < TotalWeight(shares) ==> n == number - TotalWeight(shares[..i]) >= 0
    {
      TotalWeightStep(shares, i);
      if n < shares[i].weight {
        assert number < TotalWeight(shares) ==> FallsTo(shares, i, number);
        return Delegate(shares[i].dest);
      }
      if number < TotalWeight(shares) {
        assert n - shares[i].weight < TWO64;
      }
      n := U64(n - shares[i].weight);
    }
    assert shares[..|shares|] == shares;
    return Work;
  }

  // ---------------------------------------------------------------- GetDelegatedBallot

  /** The exclusive or of the bytes of the agreed number. */
  function Selected(agreement: seq<bv8>): bv8 {
    if agreement == [] then 0 else Selected(agreement[..|agreement| - 1]) ^ agreement[|agreement| - 1]
  }

  method XorBytes(agreement: seq<bv8>) returns (selected: bv8)
    ensures selected == Selected(agreement)
  {
    selected := 0;
    for i := 0 to |agreement|
      invariant selected == Selected(agreement[..i])
    {
      assert agreement[..i + 1][..i] == agreement[..i];
      selected := selected ^ agreement[i];
    }
    assert agreement[..|agreement|] == agreement;
  }

  /** Whether a ballot is held at all. */
  predicate IsHeld(agreement: seq<bv8>, ballot: set<nat>, supply: int) {
    (exists i :: 0 <= i < |agreement| && agreement[i] != 0) && ballot != {} && supply >= 0
  }

  /** The outcome that the design asks for, over exact integers: with `e` the enrolled weight, a random byte below the
      threshold means proof of work, and any other draws the delegate to which the number falls. */
  ghost predicate Decides(o: Outcome, shares: seq<Share>, selected: nat, m: nat, height: int) {
    var e := TotalWeight(shares);
    e <= m &&
    if !Defined(m, e, height) then o == Undefined
    else if selected < Threshold(m, e, height) then o == Work
    else e > 0 && exists i: nat :: FallsTo(shares, i, selected * MAXIMUM_TIMES % e) && o == Delegate(shares[i].dest)
  }

  /** `GetDelegatedBallot`. For delegates enrolled as `Enrolled` says, no operation wraps around; the ballot is undefined
      only when the maximum weight is zero, or below 10 with nothing enrolled after the change of the mint rate; and it
      decides as the design asks for. */
  method GetDelegatedBallot(agreement: seq<bv8>, ballot: set<nat>, amounts: seq<Entry>, supply: int, height: int, trustIn: nat)
    returns (o: Outcome, trust: nat, ghost shares: seq<Share>)
    ensures !IsHeld(agreement, ballot, supply) ==> o == Work && trust == trustIn
    ensures IsHeld(agreement, ballot, supply) && Enrolled(amounts, supply) ==>
              IsSelection(shares, ballot, amounts) && trust == TotalCapped(ballot, amounts) / ENROLL_MINIMUM_AMOUNT &&
              Decides(o, shares, Selected(agreement) as nat, MaxWeight(supply), height)
  {
    shares := [];
    if (forall i :: 0 <= i < |agreement| ==> agreement[i] == 0) || ballot == {} {
      return Work, trustIn, [];
    }
    if supply < 0 {
      return Work, trustIn, [];
    }
    var byte := XorBytes(agreement);
    var selected := byte as nat;
    var chosen, total;
    chosen, total, trust := Select(ballot, amounts, supply);
    shares := chosen;
    o := Resolve(chosen, total, MaxWeight(supply), selected, height);
  }

  /** The second half of `GetDelegatedBallot`. */
  method Resolve(shares: seq<Share>, total: nat, m: nat, selected: nat, height: int) returns (o: Outcome)
    requires selected < 256 && total < TWO64
    ensures total == TotalWeight(shares) <= m <= 690000 ==> Decides(o, shares, selected, m, height)
  {
    if total <= m <= 690000 {
      ThresholdIsExact(m, total, height);
      if Defined(m, total, height) {
        ThresholdBounds(m, total, height);
      }
    }
    var threshold := WrappedThreshold(m, total, height);
    if threshold.None? {
      return Undefined;
    }
    o := Work;
    if selected >= threshold.value {
      if total == 0 {
        return Undefined;
      }
      o := Draw(shares, selected * MAXIMUM_TIMES % total);
    }
  }
}
