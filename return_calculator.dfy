/**
 * The dollar-cost-averaging return of `calc_return`, over exact reals.
 *
 * A fixed amount buys fractional shares at the purchase indices 0, f, 2f, ...
 * of the price series (the slice `monthly_highs[0::f]`); the shares are valued
 * at the LAST price of the whole series, whether or not that index was a
 * purchase; the result is that worth over the amount invested, together with
 * the amount invested.
 */
module ReturnCalculator {
  import opened Outcomes

  /** The exceptions `calc_return` raises: a zero slice step (ValueError) and the
      last price of an empty series (IndexError). */
  datatype ReturnError = ZeroSliceStep | EmptySeries

  /** The pair `calc_return` returns: final worth over total invested, and total invested. */
  datatype DcaReturn = DcaReturn(multiple: real, totalInvested: real)

  // ---------------------------------------------------------------------------
  // The purchase indices: monthly_highs[0::f]
  // ---------------------------------------------------------------------------

  /** `s[0::step]` for a positive step. */
  function EveryNth(s: seq<real>, step: nat): seq<real>
    requires step >= 1
    decreases |s|
  {
    if |s| == 0 then [] else [s[0]] + EveryNth(s[if step <= |s| then step else |s|..], step)
  }

  /** An index the slice `[0::step]` visits: a multiple of a positive step, or index 0
      alone for a negative step (Python walks backwards from 0). */
  predicate IsPurchaseIndex(i: nat, step: int) {
    if step > 0 then i % step == 0 else step < 0 && i == 0
  }

  /** `s[0::step]` for any non-zero step. */
  function PurchasePrices(s: seq<real>, step: int): seq<real>
    requires step != 0
  {
    if step > 0 then EveryNth(s, step) else if |s| == 0 then [] else [s[0]]
  }

  /** How many purchases a series of `n` prices gets: ceil(n / step) for a positive step. */
  function PurchaseCount(n: nat, step: int): nat {
    if step > 0 then (n + step - 1) / step else if n == 0 then 0 else 1
  }

  /** The slice takes as many entries as there are multiples of the step below |s|:
      the last one taken lies inside the series and one more step would leave it. */
  lemma {:induction false} EveryNthLength(s: seq<real>, step: nat)
    requires step >= 1
    ensures |EveryNth(s, step)| > 0 ==> (|EveryNth(s, step)| - 1) * step < |s|
    ensures |s| <= |EveryNth(s, step)| * step
    decreases |s|
  {
    if |s| > 0 {
      var rest := s[if step <= |s| then step else |s|..];
      EveryNthLength(rest, step);
      var q := |EveryNth(rest, step)|;
      assert |EveryNth(s, step)| == q + 1;
      assert (q + 1) * step == q * step + step;
      if q > 0 {
        assert (q - 1) * step + step == q * step;
      }
    }
  }

  /** The j-th entry of the slice is the entry at j * step. */
  lemma {:induction false} EveryNthAt(s: seq<real>, step: nat, j: nat)
    requires step >= 1 && j < |EveryNth(s, step)|
    ensures j * step < |s| && EveryNth(s, step)[j] == s[j * step]
    decreases |s|
  {
    var rest := s[if step <= |s| then step else |s|..];
    assert EveryNth(s, step) == [s[0]] + EveryNth(rest, step);
    if j > 0 {
      EveryNthAt(rest, step, j - 1);
      assert (j - 1) * step + step == j * step;
    }
  }

  /** The number of purchases is ceil(n / step). */
  lemma PurchasePricesCount(s: seq<real>, step: int)
    requires step != 0
    ensures |PurchasePrices(s, step)| == PurchaseCount(|s|, step)
  {
    if step > 0 {
      EveryNthLength(s, step);
      CeilingDivision(|s|, step, |EveryNth(s, step)|);
    }
  }

  /** `q` is ceil(n / step) when it is the least count of steps that covers n. */
  lemma CeilingDivision(n: nat, step: nat, q: nat)
    requires step >= 1
    requires q > 0 ==> (q - 1) * step < n
    requires n <= q * step
    ensures q == (n + step - 1) / step
  {
    var x := n + step - 1;
    assert (q + 1) * step == q * step + step;
    if q > 0 {
      assert (q - 1) * step == q * step - step;
    }
    DivisionUnique(x, step, q);
  }

  lemma {:induction false} ProductAtLeast(a: int, b: int)
    requires a >= 1 && b >= 1
    ensures a * b >= b
  {
    if a > 1 {
      ProductAtLeast(a - 1, b);
      assert a * b == (a - 1) * b + b;
    }
  }

  /** Euclidean division is determined by its bracketing multiples. */
  lemma DivisionUnique(x: int, f: int, q: int)
    requires f >= 1
    requires q * f <= x < q * f + f
    ensures x / f == q && x % f == x - q * f
  {
    var d := x / f;
    assert x == d * f + x % f && 0 <= x % f < f;
    assert (d - q) * f == d * f - q * f;
    if d > q {
      ProductAtLeast(d - q, f);
    } else if d < q {
      ProductAtLeast(q - d, f);
    }
  }

  /** The prices bought at are exactly those at the purchase indices. */
  lemma PurchasePricesAt(s: seq<real>, step: int)
    requires step != 0
    ensures forall j :: 0 <= j < |PurchasePrices(s, step)| ==>
              exists i :: 0 <= i < |s| && IsPurchaseIndex(i, step) && PurchasePrices(s, step)[j] == s[i]
    ensures forall i :: 0 <= i < |s| && IsPurchaseIndex(i, step) ==> s[i] in PurchasePrices(s, step)
  {
    var r := PurchasePrices(s, step);
    if step > 0 {
      forall j | 0 <= j < |r|
        ensures exists i :: 0 <= i < |s| && IsPurchaseIndex(i, step) && r[j] == s[i]
      {
        EveryNthAt(s, step, j);
        MultipleIsPurchaseIndex(j, step);
        assert IsPurchaseIndex(j * step, step) && r[j] == s[j * step];
      }
      forall i | 0 <= i < |s| && IsPurchaseIndex(i, step) ensures s[i] in r {
        PurchaseIndexIsVisited(s, step, i);
        assert r[i / step] in r;
      }
    } else if |s| > 0 {
      assert r == [s[0]] && IsPurchaseIndex(0, step);
    }
  }

  lemma PurchaseIndexIsVisited(s: seq<real>, step: nat, i: nat)
    requires step >= 1 && i < |s| && i % step == 0
    ensures i / step < |EveryNth(s, step)| && EveryNth(s, step)[i / step] == s[i]
  {
    var r := EveryNth(s, step);
    EveryNthLength(s, step);
    var j := i / step;
    assert i == j * step + i % step;
    assert j * step == (j - |r|) * step + |r| * step;
    if j > |r| {
      ProductAtLeast(j - |r|, step);
    }
    EveryNthAt(s, step, j);
  }

  lemma MultipleIsPurchaseIndex(j: nat, step: nat)
    requires step >= 1
    ensures IsPurchaseIndex(j * step, step)
  {
    DivisionUnique(j * step, step, j);
  }

  // ---------------------------------------------------------------------------
  // calc_return
  // ---------------------------------------------------------------------------

  predicate NoZero(prices: seq<real>) {
    forall i :: 0 <= i < |prices| ==> prices[i] != 0.0
  }

  /** `np.sum(amount / prices)`: the shares the amount buys at each price. */
  function Shares(prices: seq<real>, amount: real): real
    requires NoZero(prices)
  {
    if |prices| == 0 then 0.0 else amount / prices[0] + Shares(prices[1..], amount)
  }

  /** `calc_return(monthly_highs, amount_per_time, month_freq)`. */
  function CalcReturn(highs: seq<real>, amount: real, freq: int): (r: Result<DcaReturn, ReturnError>)
    requires amount != 0.0
    requires forall i :: 0 <= i < |highs| && IsPurchaseIndex(i, freq) ==> highs[i] != 0.0
    ensures freq == 0 ==> r == Err(ZeroSliceStep)
    ensures freq != 0 && |highs| == 0 ==> r == Err(EmptySeries)
    ensures r.Ok? <==> freq != 0 && |highs| > 0
    ensures r.Ok? ==> r.value.totalInvested == amount * PurchaseCount(|highs|, freq) as real
  {
    if freq == 0 then Err(ZeroSliceStep)
    else
      var costs := PurchasePrices(highs, freq);
      PurchasePricesAt(highs, freq);
      PurchasePricesCount(highs, freq);
      if |highs| == 0 then Err(EmptySeries)
      else
        assert NoZero(costs) by {
          forall j | 0 <= j < |costs| ensures costs[j] != 0.0 {
            var i :| 0 <= i < |highs| && IsPurchaseIndex(i, freq) && costs[j] == highs[i];
          }
        }
        Ok(Invest(costs, highs[|highs| - 1], amount))
  }

  /** Buy with `amount` at every price of `costs`, then value the shares at `last`. */
  function Invest(costs: seq<real>, last: real, amount: real): DcaReturn
    requires NoZero(costs) && |costs| > 0 && amount != 0.0
  {
    var shares := Shares(costs, amount);
    var finalWorth := shares * last;
    var totalInvested := amount * |costs| as real;
    DcaReturn(finalWorth / totalInvested, totalInvested)
  }

  // ---------------------------------------------------------------------------
  // Properties of the return
  // ---------------------------------------------------------------------------

  /** The shares bought scale with the amount: `amount` buys `amount` times what 1 buys. */
  lemma {:induction false} SharesScale(prices: seq<real>, amount: real)
    requires NoZero(prices)
    ensures Shares(prices, amount) == amount * Shares(prices, 1.0)
    decreases |prices|
  {
    if |prices| > 0 {
      SharesScale(prices[1..], amount);
      assert amount / prices[0] == amount * (1.0 / prices[0]);
    }
  }

  /** At one constant price every purchase buys the same number of shares. */
  lemma {:induction false} SharesAtConstantPrice(prices: seq<real>, price: real, amount: real)
    requires price != 0.0
    requires forall i :: 0 <= i < |prices| ==> prices[i] == price
    ensures NoZero(prices)
    ensures Shares(prices, amount) == (|prices| as real) * (amount / price)
    decreases |prices|
  {
    if |prices| > 0 {
      SharesAtConstantPrice(prices[1..], price, amount);
    }
  }

  /** Cancelling a non-zero factor from a quotient. */
  lemma CancelFactor(a: real, x: real, n: real)
    requires a != 0.0 && n != 0.0
    ensures (a * x) / (a * n) == x / n
  {
    assert (x / n) * (a * n) == a * x;
  }

  /** The multiple of one investment does not depend on the amount. */
  lemma InvestMultiple(costs: seq<real>, last: real, amount: real)
    requires NoZero(costs) && |costs| > 0 && amount != 0.0
    ensures Invest(costs, last, amount).multiple == Shares(costs, 1.0) * last / (|costs| as real)
  {
    var n := |costs| as real;
    var shares := Shares(costs, amount);
    var total := amount * n;
    assert total != 0.0;
    assert Invest(costs, last, amount).multiple == (shares * last) / total;
    SharesScale(costs, amount);
    ScaledQuotient(amount, Shares(costs, 1.0), last, n);
  }

  lemma ScaledQuotient(a: real, x: real, l: real, n: real)
    requires a != 0.0 && n != 0.0
    ensures ((a * x) * l) / (a * n) == (x * l) / n
  {
    assert (a * x) * l == a * (x * l);
    CancelFactor(a, x * l, n);
  }

  /** The prices bought at are all non-zero when every purchase index has a non-zero price. */
  lemma PurchasePricesNoZero(highs: seq<real>, freq: int)
    requires freq != 0
    requires forall i :: 0 <= i < |highs| && IsPurchaseIndex(i, freq) ==> highs[i] != 0.0
    ensures NoZero(PurchasePrices(highs, freq))
  {
    var costs := PurchasePrices(highs, freq);
    PurchasePricesAt(highs, freq);
    forall j | 0 <= j < |costs| ensures costs[j] != 0.0 {
      var i :| 0 <= i < |highs| && IsPurchaseIndex(i, freq) && costs[j] == highs[i];
    }
  }

  /** A successful return is one investment at the purchase prices, valued at the last price. */
  lemma CalcReturnInvests(highs: seq<real>, amount: real, freq: int)
    requires amount != 0.0
    requires forall i :: 0 <= i < |highs| && IsPurchaseIndex(i, freq) ==> highs[i] != 0.0
    requires freq != 0 && |highs| > 0
    ensures var costs := PurchasePrices(highs, freq);
            && |costs| > 0 && NoZero(costs)
            && CalcReturn(highs, amount, freq) == Ok(Invest(costs, highs[|highs| - 1], amount))
  {
    PurchasePricesNoZero(highs, freq);
    PurchasePricesCount(highs, freq);
  }

  /** The return in closed form: the shares one unit buys at the purchase prices, valued at the
      last price, over the number of purchases; and the amount times the number of purchases
      invested. */
  lemma CalcReturnClosedForm(highs: seq<real>, amount: real, freq: int)
    requires amount != 0.0
    requires forall i :: 0 <= i < |highs| && IsPurchaseIndex(i, freq) ==> highs[i] != 0.0
    requires freq != 0 && |highs| > 0
    ensures NoZero(PurchasePrices(highs, freq)) && PurchaseCount(|highs|, freq) > 0
    ensures CalcReturn(highs, amount, freq).Ok?
    ensures CalcReturn(highs, amount, freq).value.multiple
            == Shares(PurchasePrices(highs, freq), 1.0) * highs[|highs| - 1] / (PurchaseCount(|highs|, freq) as real)
    ensures CalcReturn(highs, amount, freq).value.totalInvested == amount * PurchaseCount(|highs|, freq) as real
  {
    var costs := PurchasePrices(highs, freq);
    CalcReturnInvests(highs, amount, freq);
    PurchasePricesCount(highs, freq);
    InvestMultiple(costs, highs[|highs| - 1], amount);
  }

  /** The amount cancels: any two non-zero amounts give the same multiple. */
  lemma AmountCancels(highs: seq<real>, amount1: real, amount2: real, freq: int)
    requires amount1 != 0.0 && amount2 != 0.0
    requires forall i :: 0 <= i < |highs| && IsPurchaseIndex(i, freq) ==> highs[i] != 0.0
    requires freq != 0 && |highs| > 0
    ensures CalcReturn(highs, amount1, freq).value.multiple == CalcReturn(highs, amount2, freq).value.multiple
  {
    var costs := PurchasePrices(highs, freq);
    var last := highs[|highs| - 1];
    CalcReturnInvests(highs, amount1, freq);
    CalcReturnInvests(highs, amount2, freq);
    InvestMultiple(costs, last, amount1);
    InvestMultiple(costs, last, amount2);
  }

  /** At a constant price the shares are worth exactly what was paid. */
  lemma InvestAtConstantPrice(costs: seq<real>, price: real, amount: real)
    requires price != 0.0 && amount != 0.0 && |costs| > 0
    requires forall i :: 0 <= i < |costs| ==> costs[i] == price
    ensures NoZero(costs) && Invest(costs, price, amount).multiple == 1.0
  {
    SharesAtConstantPrice(costs, price, 1.0);
    InvestMultiple(costs, price, amount);
    var n := |costs| as real;
    var one := Shares(costs, 1.0);
    assert one == n * (1.0 / price);
    assert one * price == n;
  }

  /** With a constant price the multiple is 1: the strategy breaks even. */
  lemma ConstantPriceBreaksEven(highs: seq<real>, price: real, amount: real, freq: int)
    requires price != 0.0 && amount != 0.0
    requires forall i :: 0 <= i < |highs| ==> highs[i] == price
    requires freq != 0 && |highs| > 0
    ensures CalcReturn(highs, amount, freq).value.multiple == 1.0
  {
    var costs := PurchasePrices(highs, freq);
    PurchasePricesAt(highs, freq);
    assert forall j :: 0 <= j < |costs| ==> costs[j] == price;
    CalcReturnInvests(highs, amount, freq);
    InvestAtConstantPrice(costs, price, amount);
  }

  /** With one purchase (a step at least the series length, or a negative step) the amount is
      invested once and the multiple is the last price over the first. */
  lemma SinglePurchase(highs: seq<real>, amount: real, freq: int)
    requires amount != 0.0 && |highs| > 0 && highs[0] != 0.0
    requires freq >= |highs| || freq < 0
    ensures CalcReturn(highs, amount, freq) == Ok(DcaReturn(highs[|highs| - 1] / highs[0], amount))
  {
    var costs := PurchasePrices(highs, freq);
    if freq > 0 {
      assert highs[if freq <= |highs| then freq else |highs|..] == [];
      assert costs == [highs[0]] + EveryNth([], freq);
    }
    assert costs == [highs[0]];
    forall i | 0 <= i < |highs| && IsPurchaseIndex(i, freq) ensures highs[i] != 0.0 {
      if freq > 0 && i > 0 {
        DivisionUnique(i, freq, 0);
      }
    }
    var last := highs[|highs| - 1];
    CalcReturnInvests(highs, amount, freq);
    InvestMultiple(costs, last, amount);
    assert Shares(costs, 1.0) == 1.0 / highs[0];
    assert (1.0 / highs[0]) * last / 1.0 == last / highs[0];
    assert Invest(costs, last, amount).totalInvested == amount;
    assert Invest(costs, last, amount).multiple == last / highs[0];
    assert Invest(costs, last, amount) == DcaReturn(last / highs[0], amount);
  }

  /** Prices 100 then 50, 1000 every period: 10 + 20 = 30 shares worth 1500 for 2000 invested. */
  lemma WorkedExample()
    ensures CalcReturn([100.0, 50.0], 1000.0, 1) == Ok(DcaReturn(0.75, 2000.0))
  {
    var highs := [100.0, 50.0];
    assert EveryNth(highs, 1) == [100.0] + EveryNth([50.0], 1);
    assert EveryNth([50.0], 1) == [50.0] + EveryNth([], 1);
    assert PurchasePrices(highs, 1) == highs;
    assert Shares(highs, 1000.0) == 30.0;
    assert Invest(highs, 50.0, 1000.0) == DcaReturn(0.75, 2000.0);
  }
}
