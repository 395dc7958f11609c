/** The SDK's withdrawal fee estimate and the threshold below which a withdrawal is not worth it. */
module Fees {
  import opened Wrappers

  const BPS_DENOMINATOR: int := 10000
  const TIP_DENOMINATOR: int := 100
  const REFERENCE_AMOUNT: int := 1_000_000_000_000_000_000

  /** BigInt division truncates towards zero. */
  function Truncate(a: int, b: int): int
    requires b > 0
  {
    if a >= 0 then a / b else -((-a) / b)
  }

  /** Gas limit, gas price, tip percentage, fee in basis points and, if there is a vault, its fee. */
  datatype Estimator = Estimator(gas: int, gasPrice: int, tipMultiplier: int, feeBps: int, vaultFee: Option<int>)

  datatype Estimate = Estimate(gasCost: int, relayerTip: int, protocolFee: int, totalFee: int, net: int, economical: bool)

  function EstimateWithdrawFee(e: Estimator, exitValue: int): Estimate {
    var gasCost := e.gas * e.gasPrice;
    var relayerTip := Truncate(gasCost * e.tipMultiplier, TIP_DENOMINATOR) - gasCost;
    var protocolFee := match e.vaultFee
      case Some(f) => f
      case None => Truncate(exitValue * e.feeBps, BPS_DENOMINATOR);
    var totalFee := gasCost + relayerTip + protocolFee;
    var net := if exitValue > totalFee then exitValue - totalFee else 0;
    Estimate(gasCost, relayerTip, protocolFee, totalFee, net, net > 0 && totalFee * 2 < exitValue)
  }

  function Economical(e: Estimator, x: int): bool {
    EstimateWithdrawFee(e, x).economical
  }

  function MinimumEconomicalWithdrawal(e: Estimator): int {
    var est := EstimateWithdrawFee(e, REFERENCE_AMOUNT);
    var gasAndTip := est.gasCost + est.relayerTip;
    var denominator := BPS_DENOMINATOR - 2 * e.feeBps;
    if denominator <= 0 then 0 else Truncate(gasAndTip * 2 * BPS_DENOMINATOR, denominator)
  }

  /** The estimate adds up: three parts to the total, total and net to the amount, and when it is worth it. */
  lemma EstimateAddsUp(e: Estimator, x: int)
    ensures var est := EstimateWithdrawFee(e, x);
      && est.gasCost == e.gas * e.gasPrice
      && est.totalFee == est.gasCost + est.relayerTip + est.protocolFee
      && est.net >= 0 && (est.net > 0 ==> est.net + est.totalFee == x) && (est.net == 0 <==> x <= est.totalFee)
      && (est.economical <==> est.totalFee < x && 2 * est.totalFee < x)
  {
  }

  /** The default multiplier of 110 tips a tenth of the gas cost, and 30 basis points are 3 in 1000, both rounded down. */
  lemma DefaultRates(gas: int, gasPrice: int, x: int)
    requires gas * gasPrice >= 0 && x >= 0
    ensures var est := EstimateWithdrawFee(Estimator(gas, gasPrice, 110, 30, None), x);
      est.relayerTip == gas * gasPrice / 10 && est.protocolFee == 3 * x / 1000
  {
    var g := gas * gasPrice;
    assert g * 110 / 100 == g + g / 10;
    assert x * 30 / 10000 == 3 * x / 1000;
  }

  /** A flat vault fee replaces the rate, whatever the rate is. */
  lemma VaultFeeIsFlat(e: Estimator, x: int)
    requires e.vaultFee.Some?
    ensures EstimateWithdrawFee(e, x).protocolFee == e.vaultFee.value
  {
  }

  /** The tip is what the multiplier leaves above the gas cost, so gas and tip together do not depend on the amount. */
  lemma GasAndTipIs(e: Estimator, x: int)
    ensures EstimateWithdrawFee(e, x).gasCost + EstimateWithdrawFee(e, x).relayerTip == GasAndTip(e)
    ensures e.gas * e.gasPrice * e.tipMultiplier >= 0 ==>
      100 * GasAndTip(e) <= e.gas * e.gasPrice * e.tipMultiplier < 100 * GasAndTip(e) + 100
  {
  }

  /** Gas plus tip, the part of the fee that does not depend on the amount. */
  function GasAndTip(e: Estimator): int {
    Truncate(e.gas * e.gasPrice * e.tipMultiplier, TIP_DENOMINATOR)
  }

  /** Sensible settings: no negative price, and a fee charged in basis points of the amount. */
  predicate Ordinary(e: Estimator) {
    e.vaultFee.None? && e.feeBps >= 0 && GasAndTip(e) >= 0
  }

  lemma DivisionBounds(a: int, b: int)
    requires b > 0
    ensures b * (a / b) <= a < b * (a / b) + b
  {
  }

  lemma Monotone(a: int, b: int, k: int)
    requires k > 0 && a <= b
    ensures a * k <= b * k
  {
    assert (b - a) * k >= 0;
  }

  lemma FloorAtLeast(n: int, a: int, k: int)
    requires k > 0
    ensures n <= a / k <==> n * k <= a
  {
    DivisionBounds(a, k);
    if n <= a / k {
      Monotone(n, a / k, k);
    } else {
      Monotone(a / k + 1, n, k);
    }
  }

  /** With ordinary settings an amount is economical exactly when it is over twice its fee. */
  lemma EconomicalIff(e: Estimator, x: int)
    requires Ordinary(e) && x >= 0
    ensures Economical(e, x) <==> 2 * (GasAndTip(e) + x * e.feeBps / BPS_DENOMINATOR) < x
  {
    assert x * e.feeBps >= 0;
  }

  lemma MinimumIs(e: Estimator)
    requires Ordinary(e) && 2 * e.feeBps < BPS_DENOMINATOR
    ensures MinimumEconomicalWithdrawal(e) == (GasAndTip(e) * 2 * BPS_DENOMINATOR) / (BPS_DENOMINATOR - 2 * e.feeBps)
  {
  }

  lemma MultiplyOut(x: int, b: int)
    ensures x * (BPS_DENOMINATOR - 2 * b) == BPS_DENOMINATOR * x - 2 * (x * b)
  {
  }

  lemma Scale(k: int, x: int, q: int)
    requires k > 0 && x > q
    ensures x * k >= k * q + k
  {
    assert (x - q - 1) * k >= 0;
    assert x * k == (x - q - 1) * k + k * q + k;
  }

  /** The arithmetic of the threshold, with both floors. */
  lemma OverTwiceTheFee(g: int, b: int, x: int)
    requires 2 * b < BPS_DENOMINATOR && x > (g * 2 * BPS_DENOMINATOR) / (BPS_DENOMINATOR - 2 * b)
    ensures g >= 0 ==> x > 0
    ensures 2 * (g + x * b / BPS_DENOMINATOR) < x
  {
    var k := BPS_DENOMINATOR - 2 * b;
    DivisionBounds(g * 2 * BPS_DENOMINATOR, k);
    Scale(k, x, (g * 2 * BPS_DENOMINATOR) / k);
    MultiplyOut(x, b);
    DivisionBounds(x * b, BPS_DENOMINATOR);
    FloorAtLeast(0, g * 2 * BPS_DENOMINATOR, k);
  }

  /** Everything strictly above the threshold is economical. */
  lemma AboveThreshold(e: Estimator, x: int)
    requires Ordinary(e) && 2 * e.feeBps < BPS_DENOMINATOR && x > MinimumEconomicalWithdrawal(e)
    ensures Economical(e, x)
  {
    MinimumIs(e);
    OverTwiceTheFee(GasAndTip(e), e.feeBps, x);
    EconomicalIff(e, x);
  }

  /** A negative amount is economical exactly when its (negative) fee is below it and below half of it. */
  lemma NegativeEconomicalIff(e: Estimator, x: int)
    requires Ordinary(e) && x < 0
    ensures Economical(e, x) <==> (-x) * e.feeBps / BPS_DENOMINATOR > GasAndTip(e) - x
  {
    assert (-x) * e.feeBps >= 0;
    assert x * e.feeBps == -((-x) * e.feeBps);
  }

  /** What an economical amount must exceed. */
  lemma EconomicalBound(e: Estimator, x: int)
    requires Ordinary(e) && Economical(e, x)
    ensures x * (BPS_DENOMINATOR - 2 * e.feeBps) > (2 * GasAndTip(e) - 1) * BPS_DENOMINATOR
  {
    MultiplyOut(x, e.feeBps);
    if x >= 0 {
      EconomicalIff(e, x);
      DivisionBounds(x * e.feeBps, BPS_DENOMINATOR);
    } else {
      NegativeEconomicalIff(e, x);
      DivisionBounds((-x) * e.feeBps, BPS_DENOMINATOR);
      assert (-x) * e.feeBps == -(x * e.feeBps);
    }
  }

  /** An economical amount undershoots the threshold by less than D / (D - 2b). */
  lemma NotFarBelowThreshold(e: Estimator, x: int)
    requires Ordinary(e) && 2 * e.feeBps < BPS_DENOMINATOR && Economical(e, x)
    ensures (MinimumEconomicalWithdrawal(e) - x) * (BPS_DENOMINATOR - 2 * e.feeBps) < BPS_DENOMINATOR
  {
    var g, k, m := GasAndTip(e), BPS_DENOMINATOR - 2 * e.feeBps, MinimumEconomicalWithdrawal(e);
    EconomicalBound(e, x);
    MinimumIs(e);
    DivisionBounds(g * 2 * BPS_DENOMINATOR, k);
    Distribute(m, x, k);
  }

  lemma Distribute(m: int, x: int, k: int)
    ensures (m - x) * k == k * m - x * k
  {
  }

  /** The promise "above the threshold it is economical" holds exactly while twice the fee rate stays below one. */
  lemma ThresholdHoldsIff(e: Estimator)
    requires Ordinary(e)
    ensures (forall x :: x > MinimumEconomicalWithdrawal(e) ==> Economical(e, x)) <==> 2 * e.feeBps < BPS_DENOMINATOR
  {
    if 2 * e.feeBps < BPS_DENOMINATOR {
      forall x | x > MinimumEconomicalWithdrawal(e)
        ensures Economical(e, x)
      {
        AboveThreshold(e, x);
      }
    } else {
      EconomicalIff(e, 2);
      assert 2 > MinimumEconomicalWithdrawal(e) && !Economical(e, 2);
    }
  }

  /**
   The comment "never economical" at half the amount or more is true exactly when the rate is at most
   a whole and gas costs something, or the rate is a whole.
   */
  lemma NeverEconomicalIff(e: Estimator)
    requires Ordinary(e) && 2 * e.feeBps >= BPS_DENOMINATOR
    ensures (forall x :: !Economical(e, x))
       <==> e.feeBps <= BPS_DENOMINATOR && (GasAndTip(e) > 0 || e.feeBps == BPS_DENOMINATOR)
  {
    if e.feeBps > BPS_DENOMINATOR {
      RefundIsEconomical(e);
    } else if GasAndTip(e) == 0 && e.feeBps < BPS_DENOMINATOR {
      EconomicalIff(e, 1);
      assert Economical(e, 1);
    } else {
      forall x
        ensures !Economical(e, x)
      {
        if x >= 0 {
          EconomicalIff(e, x);
          HighFee(e.feeBps, x);
        } else {
          NegativeEconomicalIff(e, x);
          WholeFee(e.feeBps, -x);
        }
      }
    }
  }

  /** A rate above a whole "charges" a large enough negative amount a fee below itself. */
  lemma RefundIsEconomical(e: Estimator)
    requires Ordinary(e) && e.feeBps > BPS_DENOMINATOR
    ensures Economical(e, -BPS_DENOMINATOR * (GasAndTip(e) + 1))
  {
    var n := GasAndTip(e) + 1;
    NegativeEconomicalIff(e, -BPS_DENOMINATOR * n);
    WholeDivides(n, e.feeBps);
    Monotone(BPS_DENOMINATOR + 1, e.feeBps, n);
  }

  lemma WholeDivides(n: int, b: int)
    ensures BPS_DENOMINATOR * n * b / BPS_DENOMINATOR == b * n
  {
    assert BPS_DENOMINATOR * n * b == BPS_DENOMINATOR * (b * n);
  }

  /** A negative amount that is called economical, at a rate of two. */
  lemma NegativeAmountIsEconomical()
    ensures Economical(Estimator(0, 1, 110, 20000, None), -1)
  {
  }

  /** At half the amount the fee misses half by less than one unit; at the whole it is at least the whole. */
  lemma HighFee(b: int, x: int)
    requires 2 * b >= BPS_DENOMINATOR && x >= 0
    ensures 2 * (x * b / BPS_DENOMINATOR) > x - 2
    ensures b >= BPS_DENOMINATOR ==> x * b / BPS_DENOMINATOR >= x
  {
    DivisionBounds(x * b, BPS_DENOMINATOR);
    MultiplyOut(x, b);
    assert x * (BPS_DENOMINATOR - 2 * b) <= 0;
    if b >= BPS_DENOMINATOR {
      assert x * (b - BPS_DENOMINATOR) >= 0;
      assert x * (b - BPS_DENOMINATOR) == x * b - BPS_DENOMINATOR * x;
    }
  }

  /** Up to the whole the fee is at most the amount. */
  lemma WholeFee(b: int, y: int)
    requires b <= BPS_DENOMINATOR && y >= 0
    ensures y * b / BPS_DENOMINATOR <= y
  {
    DivisionBounds(y * b, BPS_DENOMINATOR);
    assert y * (BPS_DENOMINATOR - b) >= 0;
    assert y * (BPS_DENOMINATOR - b) == BPS_DENOMINATOR * y - y * b;
  }

  // ----- With a fee vault -----

  /** With a flat fee an amount is economical exactly when it is over twice gas, tip and fee. */
  lemma FlatEconomicalIff(e: Estimator, x: int)
    requires e.vaultFee.Some? && e.vaultFee.value >= 0 && GasAndTip(e) >= 0
    ensures Economical(e, x) <==> 2 * (GasAndTip(e) + e.vaultFee.value) < x
  {
  }

  lemma VaultMinimum(e: Estimator)
    requires GasAndTip(e) >= 0
    ensures MinimumEconomicalWithdrawal(e) ==
      if 2 * e.feeBps < BPS_DENOMINATOR then (GasAndTip(e) * 2 * BPS_DENOMINATOR) / (BPS_DENOMINATOR - 2 * e.feeBps) else 0
  {
  }

  /**
   With a vault the fee is flat, and the returned minimum, which knows only the basis points, is a
   true bound exactly when the basis points would already cover the flat fee at that minimum.
   */
  lemma VaultThresholdIff(e: Estimator)
    requires e.vaultFee.Some? && e.vaultFee.value >= 0 && GasAndTip(e) >= 0
    ensures (forall x :: x > MinimumEconomicalWithdrawal(e) ==> Economical(e, x)) <==>
      if 2 * e.feeBps < BPS_DENOMINATOR
      then e.vaultFee.value * (BPS_DENOMINATOR - 2 * e.feeBps) <= 2 * e.feeBps * GasAndTip(e)
      else GasAndTip(e) + e.vaultFee.value == 0
  {
    FlatThreshold(e);
    VaultMinimum(e);
    if 2 * e.feeBps < BPS_DENOMINATOR {
      FlatFeeCovered(GasAndTip(e), e.vaultFee.value, e.feeBps);
    }
  }

  lemma FlatFeeCovered(g: int, v: int, b: int)
    requires 2 * b < BPS_DENOMINATOR
    ensures 2 * (g + v) <= (g * 2 * BPS_DENOMINATOR) / (BPS_DENOMINATOR - 2 * b)
       <==> v * (BPS_DENOMINATOR - 2 * b) <= 2 * b * g
  {
    var k := BPS_DENOMINATOR - 2 * b;
    FloorAtLeast(2 * (g + v), g * 2 * BPS_DENOMINATOR, k);
    assert 2 * (g + v) * k == 2 * (g * k) + 2 * (v * k);
    MultiplyOut(g, b);
  }

  lemma FlatThreshold(e: Estimator)
    requires e.vaultFee.Some? && e.vaultFee.value >= 0 && GasAndTip(e) >= 0
    ensures (forall x :: x > MinimumEconomicalWithdrawal(e) ==> Economical(e, x))
       <==> 2 * (GasAndTip(e) + e.vaultFee.value) <= MinimumEconomicalWithdrawal(e)
  {
    var t, m := 2 * (GasAndTip(e) + e.vaultFee.value), MinimumEconomicalWithdrawal(e);
    forall x
      ensures Economical(e, x) <==> t < x
    {
      FlatEconomicalIff(e, x);
    }
    assert t > m ==> !Economical(e, t);
  }

  /** At the default gas limit, tip and rate, a flat fee of 10000 makes an amount above the minimum uneconomical. */
  lemma VaultThresholdFails()
    ensures var e := Estimator(350000, 1, 110, 30, Some(10000));
      790000 > MinimumEconomicalWithdrawal(e) && !Economical(e, 790000)
  {
  }
}
