/**
 * The standalone trade classifier: the same midpoint aggressor rule and
 * signed size, and a net-flow builder whose columns hold dollar premium
 * (price times size times the contract multiplier of 100), signed by the
 * aggressor and routed by right.
 */
module PremiumFlow {
  import opened Types
  import TradeFlow

  /** The trade record here has the same seven fields as the plotting script's. */
  type Trade = TradeFlow.Trade

  /** Shares of stock per option contract. */
  const ContractMultiplier: real := 100.0

  /** BUY when the trade printed at or above the midpoint, SELL otherwise. */
  function GetAggressor(t: Trade): (side: Side)
    ensures side != Unknown
    ensures side == Buy <==> t.price >= (t.bid + t.ask) / 2.0
  {
    var mid := (t.bid + t.ask) / 2.0;
    if t.price >= mid then Buy else Sell
  }

  /** Both classifiers apply the same aggressor rule. */
  lemma SameAggressorRule(t: Trade)
    ensures GetAggressor(t) == TradeFlow.GetAggressor(t)
  {
  }

  /** `get_size_flow`: the size, negated for a sell. */
  function GetSizeFlow(t: Trade): (flow: int)
    ensures flow == t.size || flow == -t.size
    ensures flow == t.size <==> GetAggressor(t) == Buy || t.size == 0
  {
    var isBuy := GetAggressor(t) == Buy;
    if isBuy then t.size else -t.size
  }

  /** Both classifiers sign the size alike. */
  lemma SameSizeFlow(t: Trade)
    ensures GetSizeFlow(t) == TradeFlow.GetSizeFlow(t)
  {
  }

  /** The loop body of `calculate_net_flow`: dollar premium, negated when the trade was not a buy. */
  function ContractPremium(t: Trade): real {
    var mid := (t.bid + t.ask) / 2.0;
    var isBuy := t.price >= mid;
    var premium := t.price * t.size as real * ContractMultiplier;
    if !isBuy then -premium else premium
  }

  /** The dollar premium is the contract multiplier times the plotting script's `get_premium`. */
  lemma ContractPremiumScalesPremium(t: Trade)
    ensures ContractPremium(t) == ContractMultiplier * TradeFlow.GetPremium(t)
  {
    var p := t.price * t.size as real;
    assert t.price * t.size as real * ContractMultiplier == ContractMultiplier * p;
  }

  /**
   * Every entry has magnitude 100 times price times size, and for a trade
   * with positive price and size it is negative exactly when the trade
   * printed below the midpoint.
   */
  lemma ContractPremiumSign(t: Trade)
    ensures ContractPremium(t) == 100.0 * t.price * t.size as real
         || ContractPremium(t) == -(100.0 * t.price * t.size as real)
    ensures t.price > 0.0 && t.size > 0 ==>
              (ContractPremium(t) < 0.0 <==> t.price < (t.bid + t.ask) / 2.0)
  {
    var q := t.price * t.size as real;
    assert t.price * t.size as real * ContractMultiplier == 100.0 * t.price * t.size as real;
    if t.price > 0.0 && t.size > 0 {
      assert q > 0.0;
      assert 100.0 * t.price * t.size as real == 100.0 * q;
    }
  }

  /**
   * `calculate_net_flow`: the dollar premium of each trade at its own index
   * of the call column (right "C") or the put column (any other right); the
   * other column keeps its 0. Each entry is 100 times the plotting script's
   * premium column at that index.
   */
  method CalculateNetFlow(trades: seq<Trade>, order: seq<nat>) returns (callPremium: array<real>, putPremium: array<real>)
    requires TradeFlow.VisitsEachIndexOnce(order, |trades|)
    ensures fresh(callPremium) && fresh(putPremium)
    ensures callPremium[..] == TradeFlow.CallColumn(trades, ContractPremium)
    ensures putPremium[..] == TradeFlow.PutColumn(trades, ContractPremium)
    ensures forall i :: 0 <= i < |trades| ==>
              callPremium[i] == ContractMultiplier * TradeFlow.CallColumn(trades, TradeFlow.GetPremium)[i]
    ensures forall i :: 0 <= i < |trades| ==>
              putPremium[i] == ContractMultiplier * TradeFlow.PutColumn(trades, TradeFlow.GetPremium)[i]
  {
    callPremium, putPremium := TradeFlow.RouteByRight(trades, order, ContractPremium);
    forall i | 0 <= i < |trades|
      ensures ContractPremium(trades[i]) == ContractMultiplier * TradeFlow.GetPremium(trades[i])
    {
      ContractPremiumScalesPremium(trades[i]);
    }
  }
}
