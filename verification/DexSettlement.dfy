/** Settling a match of the decentralised exchange. The matched amount sits on the address of a match template; until the
    seller's height it can leave it in three payments only: to the buyer, to the matcher and to the seller's deal address,
    each checked against the value of the coin that is spent. What a payment does not use returns to the address.

    The amounts are computed in 64-bit unsigned integers; every operation that could wrap around is written with `U64`. */
module DexSettlement {
  import opened Common
  import opened Arithmetic

  const MIN_TX_FEE := 10000
  const MIN_MATCH_AMOUNT := 10000
  const MAX_MATCH_TOKEN := 1844674407
  const FEE_PRECISION := 10000

  datatype Match = Match(amount: int, fee: int, buyer: nat, matcher: nat, deal: nat, sellerValidHeight: int)
  {
    /** The checks of the template's parameters and of the order that pays into the match address. */
    predicate Valid() {
      0 < amount <= MAX_MATCH_TOKEN * COIN && 1 < fee < FEE_PRECISION && amount >= MIN_TX_FEE * 3 + MIN_MATCH_AMOUNT
    }

    /** What is left of the matched amount after three transaction fees. */
    function Net(): int {
      amount - MIN_TX_FEE * 3
    }

    function BuyerAmount(): int {
      U64(U64(Net()) * U64(FEE_PRECISION - fee)) / FEE_PRECISION
    }

    function RewardAmount(): int {
      U64(U64(Net()) * U64(fee / 2)) / FEE_PRECISION
    }

    function Split(): Shares {
      Shares(amount, BuyerAmount(), RewardAmount())
    }
  }

  /** The matched amount and what of it goes to the buyer and to the matcher. */
  datatype Shares = Shares(total: int, buyer: int, reward: int)
  {
    /** What is left for the deal address. */
    function Deal(): int {
      total - buyer - reward - MIN_TX_FEE * 3
    }

    predicate Fair() {
      0 <= buyer && 0 <= reward <= Deal()
    }

    /** The value of the coin before the first, second and third payment, and after the last. */
    function Needed(step: nat): int {
      if step == 0 then total
      else if step == 1 then total - buyer - MIN_TX_FEE
      else if step == 2 then total - buyer - reward - MIN_TX_FEE * 2
      else 0
    }
  }

  /** A payment from the match address. `signed` stands for the checks of its signature data and of the buyer's secret. */
  datatype Tx = Tx(sendTo: nat, amount: int, fee: int, signed: bool)

  /** `VerifyDexMatchTx`: whether a payment that spends a coin of value `valueIn` is valid. */
  predicate Verify(m: Match, s: Shares, tx: Tx, valueIn: int, height: int) {
    height <= m.sellerValidHeight ==>
      tx.signed && tx.fee == MIN_TX_FEE &&
      if tx.sendTo == m.buyer then valueIn == s.total && tx.amount == s.buyer
      else if tx.sendTo == m.matcher then valueIn == s.total - s.buyer - MIN_TX_FEE && tx.amount == s.reward
      else tx.sendTo == m.deal &&
           valueIn == s.total - s.buyer - s.reward - MIN_TX_FEE * 2 && tx.amount == valueIn - MIN_TX_FEE
  }

  function Change(tx: Tx, valueIn: int): int {
    valueIn - tx.amount - tx.fee
  }

  // ---------------------------------------------------------------- the amounts

  lemma Small(x: nat)
    requires x < TWO64
    ensures U64(x) == x
  {
  }

  /** A share computed modulo 2^64 is exact if and only if its product fits in 64 bits. */
  lemma ShareIsExact(a: nat, b: nat)
    requires a < TWO64 && b < TWO64
    ensures U64(U64(a) * U64(b)) / FEE_PRECISION == a * b / FEE_PRECISION <==> a * b < TWO64
  {
    Small(a);
    Small(b);
    MulMono(0, a, 0, b);
    var x := a * b;
    if x >= TWO64 {
      assert U64(x) <= x - TWO64;
    }
  }

  /** The largest amount that a match may have is just small enough: no product wraps around. */
  lemma NoWrap(m: Match)
    requires m.Valid()
    ensures m.BuyerAmount() == m.Net() * (FEE_PRECISION - m.fee) / FEE_PRECISION
    ensures m.RewardAmount() == m.Net() * (m.fee / 2) / FEE_PRECISION
  {
    MulMono(m.Net(), MAX_MATCH_TOKEN * COIN, FEE_PRECISION - m.fee, FEE_PRECISION);
    MulMono(m.Net(), MAX_MATCH_TOKEN * COIN, m.fee / 2, FEE_PRECISION);
    ShareIsExact(m.Net(), FEE_PRECISION - m.fee);
    ShareIsExact(m.Net(), m.fee / 2);
  }

  /** The fee is shared by the matcher and the deal address: rounding favours the latter. */
  lemma FeeShares(net: nat, fee: nat)
    requires 1 < fee < FEE_PRECISION
    ensures var b, r := net * (FEE_PRECISION - fee) / FEE_PRECISION, net * (fee / 2) / FEE_PRECISION;
            0 <= b <= net && 0 <= r && 2 * r <= net - b
  {
    var p := FEE_PRECISION;
    var half := fee / 2;
    MulMono(0, net, 0, p - fee);
    MulMono(0, net, 0, half);
    var x, y := net * (p - fee), net * half;
    assert x == net * p - net * fee;
    MulMono(net, net, 2 * half, fee);
    assert net * (2 * half) == 2 * y;
    assert x + 2 * y <= net * p;
    DivFacts(x, p);
    DivFacts(y, p);
  }

  /** The three payments and their fees use up the matched amount exactly. No part is negative, and the deal address gets
      no less than the matcher. */
  lemma Conserves(m: Match)
    requires m.Valid()
    ensures m.Split().Fair()
    ensures m.BuyerAmount() + m.RewardAmount() + m.Split().Deal() + 3 * MIN_TX_FEE == m.amount
  {
    NoWrap(m);
    FeeShares(m.Net(), m.fee);
  }

  // ---------------------------------------------------------------- the order of the payments

  /** The payments of a settlement, in order. */
  function Settlement(m: Match, s: Shares): seq<Tx> {
    [Tx(m.buyer, s.buyer, MIN_TX_FEE, true), Tx(m.matcher, s.reward, MIN_TX_FEE, true), Tx(m.deal, s.Deal(), MIN_TX_FEE, true)]
  }

  /** The value of the coin decides which payment is next: only this one is valid, and its change is exactly what the
      payment after it needs; the third leaves nothing. */
  lemma ValueDecidesStep(m: Match, s: Shares, tx: Tx, k: nat, height: int)
    requires s.Fair() && height <= m.sellerValidHeight && k <= 3 && Verify(m, s, tx, s.Needed(k), height)
    ensures k < 3 && tx == Settlement(m, s)[k] && Change(tx, s.Needed(k)) == s.Needed(k + 1)
  {
  }

  /** Payments that spend a coin of value `valueIn` one after the other, each the change of the one before. */
  predicate Spends(m: Match, s: Shares, txs: seq<Tx>, valueIn: int, height: int) {
    txs != [] ==> Verify(m, s, txs[0], valueIn, height) && Spends(m, s, txs[1..], Change(txs[0], valueIn), height)
  }

  lemma {:induction false} SpendsInOrder(m: Match, s: Shares, txs: seq<Tx>, k: nat, height: int)
    requires s.Fair() && height <= m.sellerValidHeight && k <= 3 && Spends(m, s, txs, s.Needed(k), height)
    ensures txs <= Settlement(m, s)[k..]
    decreases |txs|
  {
    if txs != [] {
      ValueDecidesStep(m, s, txs[0], k, height);
      SpendsInOrder(m, s, txs[1..], k + 1, height);
      assert Settlement(m, s)[k..] == [Settlement(m, s)[k]] + Settlement(m, s)[k + 1..];
      assert txs == [txs[0]] + txs[1..];
    }
  }

  /** Until the seller's height, whatever valid payments are made from a match coin, they are the first ones of the
      settlement, in their order. */
  lemma OnlyTheSettlement(m: Match, txs: seq<Tx>, height: int)
    requires m.Valid() && height <= m.sellerValidHeight && Spends(m, m.Split(), txs, m.amount, height)
    ensures txs <= Settlement(m, m.Split())
  {
    Conserves(m);
    SpendsInOrder(m, m.Split(), txs, 0, height);
    assert Settlement(m, m.Split())[0..] == Settlement(m, m.Split());
  }

  /** A payment to an address that stands for two of the three is always checked as the first of these. */
  lemma StepIsValid(m: Match, s: Shares, k: nat, height: int)
    requires s.Fair() && height <= m.sellerValidHeight && k < 3
    ensures Verify(m, s, Settlement(m, s)[k], s.Needed(k), height) <==>
            (k >= 1 ==> [m.buyer, m.matcher, m.deal][k] != m.buyer) && (k == 2 ==> m.deal != m.matcher)
  {
  }

  /** The settlement can be completed if and only if the three addresses are distinct. */
  lemma SettlementCompletes(m: Match, height: int)
    requires m.Valid() && height <= m.sellerValidHeight
    ensures Spends(m, m.Split(), Settlement(m, m.Split()), m.amount, height) <==>
            m.buyer != m.matcher && m.buyer != m.deal && m.matcher != m.deal
  {
    Conserves(m);
    var s := m.Split();
    ThreeSteps(m, s, height);
    StepIsValid(m, s, 0, height);
    StepIsValid(m, s, 1, height);
    StepIsValid(m, s, 2, height);
  }

  lemma ThreeSteps(m: Match, s: Shares, height: int)
    ensures Spends(m, s, Settlement(m, s), s.Needed(0), height) <==>
            forall k :: 0 <= k < 3 ==> Verify(m, s, Settlement(m, s)[k], s.Needed(k), height)
  {
    var txs := Settlement(m, s);
    assert txs[1..][1..] == [txs[2]] && [txs[2]][1..] == [];
    assert txs[1..][0] == txs[1];
    assert Spends(m, s, [txs[2]], s.Needed(2), height) <==> Verify(m, s, txs[2], s.Needed(2), height);
  }

  // ---------------------------------------------------------------- payments that join coins

  /** A payment that spends several coins of the match address at once. */
  datatype Payment = Payment(inputs: seq<int>, tx: Tx)

  function Sum(coins: seq<int>): int {
    if coins == [] then 0 else coins[0] + Sum(coins[1..])
  }

  predicate IsStage(s: Shares, coin: int) {
    coin == s.Needed(0) || coin == s.Needed(1) || coin == s.Needed(2)
  }

  /** The coins of the address after a payment: its change replaces what it spends. */
  function Spend(coins: multiset<int>, p: Payment): multiset<int> {
    var change := Change(p.tx, Sum(p.inputs));
    coins - multiset(p.inputs) + if change > 0 then multiset{change} else multiset{}
  }

  /** Payments one after the other, each valid and from coins that are there. */
  ghost predicate ArePayments(m: Match, coins: multiset<int>, payments: seq<Payment>, height: int)
    decreases |payments|
  {
    payments != [] ==>
      multiset(payments[0].inputs) <= coins && payments[0].inputs != [] &&
      Verify(m, m.Split(), payments[0].tx, Sum(payments[0].inputs), height) &&
      ArePayments(m, Spend(coins, payments[0]), payments[1..], height)
  }

  function CoinsAfter(coins: multiset<int>, payments: seq<Payment>): multiset<int>
    decreases |payments|
  {
    if payments == [] then coins else CoinsAfter(Spend(coins, payments[0]), payments[1..])
  }

  lemma {:induction false} SumOfSome(coins: seq<int>, i: nat)
    requires i < |coins| && forall k :: 0 <= k < |coins| ==> coins[k] > 0
    ensures Sum(coins) >= coins[i] && (|coins| > 1 ==> Sum(coins) > coins[i])
  {
    if i > 0 {
      SumOfSome(coins[1..], i - 1);
    } else if |coins| > 1 {
      SumOfSome(coins[1..], 0);
    }
  }

  /** Whatever coins a valid payment joins, it is one of the three payments, and its change is what the next one needs. It
      spends a single coin of just that value, or several smaller ones, which come from later steps. */
  lemma JoinedPayment(m: Match, p: Payment, height: int) returns (k: nat)
    requires m.Valid() && height <= m.sellerValidHeight && p.inputs != []
    requires (forall i :: 0 <= i < |p.inputs| ==> IsStage(m.Split(), p.inputs[i])) && Verify(m, m.Split(), p.tx, Sum(p.inputs), height)
    ensures k < 3 && Sum(p.inputs) == m.Split().Needed(k) && p.tx == Settlement(m, m.Split())[k]
    ensures Change(p.tx, Sum(p.inputs)) == m.Split().Needed(k + 1)
    ensures p.inputs == [m.Split().Needed(k)] ||
            (|p.inputs| > 1 && k < 2 && forall i :: 0 <= i < |p.inputs| ==> p.inputs[i] < m.Split().Needed(k))
  {
    Conserves(m);
    var s := m.Split();
    k := if p.tx.sendTo == m.buyer then 0 else if p.tx.sendTo == m.matcher then 1 else 2;
    ValueDecidesStep(m, s, p.tx, k, height);
    StagesFall(s);
    if |p.inputs| == 1 {
      assert p.inputs == [p.inputs[0]] && p.inputs[1..] == [];
    } else {
      forall i | 0 <= i < |p.inputs| ensures p.inputs[i] < s.Needed(k) {
        SumOfSome(p.inputs, i);
      }
    }
  }

  lemma StagesFall(s: Shares)
    requires s.Fair()
    ensures s.Needed(0) > s.Needed(1) > s.Needed(2) > s.Needed(3) == 0
  {
  }

  /** Until the seller's height every coin of the address keeps the value of one of the three steps, however payments join
      coins. */
  lemma {:induction false} CoinsKeepStages(m: Match, coins: multiset<int>, payments: seq<Payment>, height: int)
    requires m.Valid() && height <= m.sellerValidHeight && ArePayments(m, coins, payments, height)
    requires forall c :: c in coins ==> IsStage(m.Split(), c)
    ensures forall c :: c in CoinsAfter(coins, payments) ==> IsStage(m.Split(), c)
    decreases |payments|
  {
    if payments != [] {
      var p := payments[0];
      forall i | 0 <= i < |p.inputs| ensures IsStage(m.Split(), p.inputs[i]) {
        assert p.inputs[i] in multiset(p.inputs);
      }
      var k := JoinedPayment(m, p, height);
      assert k < 2 ==> IsStage(m.Split(), m.Split().Needed(k + 1));
      CoinsKeepStages(m, Spend(coins, p), payments[1..], height);
    }
  }
}
