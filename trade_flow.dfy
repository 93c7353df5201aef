/**
 * The midpoint aggressor rule and the signed flow per trade (the trade
 * classifier of the day-trade plotting script): each trade is a buy when it
 * printed at or above the quote midpoint, and its premium or size is routed,
 * signed, into a call column or a put column at the trade's own index.
 */
module TradeFlow {
  import opened Types
  import OptionChain

  /** One trade with the quote in force when it printed. */
  datatype Trade = Trade(time: real, price: real, size: int, right: string, bid: real, ask: real, strike: real)

  /** The right that selects the call column; every other right goes to the put column. */
  const CallRight: string := "C"

  function Midpoint(t: Trade): real {
    (t.bid + t.ask) / 2.0
  }

  /** BUY when the trade printed at or above the midpoint, SELL otherwise. */
  function GetAggressor(t: Trade): (side: Side)
    ensures side != Unknown
  {
    if t.price >= Midpoint(t) then Buy else Sell
  }

  /** The midpoint rule is a threshold: the aggressor is BUY exactly from the midpoint up, so a print at the midpoint is a buy. */
  lemma AggressorThreshold(t: Trade)
    ensures GetAggressor(t) == Buy <==> t.price >= Midpoint(t)
    ensures GetAggressor(t) == Sell <==> t.price < Midpoint(t)
    ensures t.price == Midpoint(t) ==> GetAggressor(t) == Buy
  {
  }

  /**
   * Where the two classifiers can both speak, they agree: a print strictly
   * above the ask of a non-crossed quote is a buy for both, and one strictly
   * below the bid a sell, whenever the quote-hit and quote-shift steps of the
   * layered classifier do not fire for the quote change that followed.
   */
  lemma AgreesWithLayeredClassifier(t: Trade, nextBid: real, nextAsk: real,
                                    bidSize: int, askSize: int, nextBidSize: int, nextAskSize: int)
    requires t.bid <= t.ask && (t.price > t.ask || t.price < t.bid)
    requires !OptionChain.QuoteHitFires(t.price, t.bid, t.ask, bidSize, askSize, nextBidSize, nextAskSize)
    requires !OptionChain.QuoteShiftFires(t.bid, t.ask, nextBid, nextAsk)
    ensures OptionChain.ClassifyTrade(t.price, t.bid, t.ask, nextBid, nextAsk, bidSize, askSize, nextBidSize, nextAskSize)
         == GetAggressor(t)
  {
  }

  /** `get_premium`: price times size, negated for a sell. */
  function GetPremium(t: Trade): (premium: real)
    ensures GetAggressor(t) == Buy ==> premium == t.price * t.size as real
    ensures GetAggressor(t) == Sell ==> premium == -(t.price * t.size as real)
  {
    var p := t.price * t.size as real;
    if GetAggressor(t) == Buy then p else -p
  }

  /** `get_size_flow`: the size, negated for a sell. */
  function GetSizeFlow(t: Trade): (flow: int)
    ensures GetAggressor(t) == Buy ==> flow == t.size
    ensures GetAggressor(t) == Sell ==> flow == -t.size
  {
    if GetAggressor(t) == Buy then t.size else -t.size
  }

  /** The signed premium is the price times the signed size. */
  lemma PremiumIsPriceTimesSizeFlow(t: Trade)
    ensures GetPremium(t) == t.price * GetSizeFlow(t) as real
  {
    if GetAggressor(t) == Sell {
      assert (-t.size) as real == -(t.size as real);
    }
  }

  /** The premium that `classify_trades` computes inline, without calling `get_premium`. */
  function InlinePremium(t: Trade): real {
    var isBuy := t.price >= Midpoint(t);
    if isBuy then t.price * t.size as real else -t.price * t.size as real
  }

  /** The inline computation and `get_premium` give the same value. */
  lemma InlinePremiumIsGetPremium(t: Trade)
    ensures InlinePremium(t) == GetPremium(t)
  {
    assert -t.price * t.size as real == -(t.price * t.size as real);
  }

  /** `get_size_flow` as the float the flow arrays hold. */
  function SizeFlowValue(t: Trade): real {
    GetSizeFlow(t) as real
  }

  // ---------------------------------------------------------------------------
  // Routing into call and put columns
  // ---------------------------------------------------------------------------

  function Indices(n: nat): seq<nat> {
    seq(n, i => i)
  }

  /** `order` visits every index below n exactly once, as `np.argsort` does. */
  predicate VisitsEachIndexOnce(order: seq<nat>, n: nat) {
    multiset(order) == multiset(Indices(n))
  }

  /** Entry i of the call column: the trade's value when its right is "C", else the pre-filled 0. */
  function CallColumn(trades: seq<Trade>, value: Trade -> real): (col: seq<real>)
    ensures |col| == |trades|
  {
    seq(|trades|, i requires 0 <= i < |trades| => if trades[i].right == CallRight then value(trades[i]) else 0.0)
  }

  /** Entry i of the put column: the trade's value when its right is not "C", else the pre-filled 0. */
  function PutColumn(trades: seq<Trade>, value: Trade -> real): (col: seq<real>)
    ensures |col| == |trades|
  {
    seq(|trades|, i requires 0 <= i < |trades| => if trades[i].right == CallRight then 0.0 else value(trades[i]))
  }

  /** At every index one of the two columns keeps its 0, and the other holds the trade's value. */
  lemma ColumnsSplitEachTrade(trades: seq<Trade>, value: Trade -> real, i: nat)
    requires i < |trades|
    ensures CallColumn(trades, value)[i] == 0.0 || PutColumn(trades, value)[i] == 0.0
    ensures CallColumn(trades, value)[i] + PutColumn(trades, value)[i] == value(trades[i])
  {
  }

  /**
   * The shared loop of the three column builders: two zero-filled arrays,
   * then, for each index in the visiting order, the trade's value written at
   * that index of the call or the put array.
   */
  method RouteByRight(trades: seq<Trade>, order: seq<nat>, value: Trade -> real)
    returns (calls: array<real>, puts: array<real>)
    requires VisitsEachIndexOnce(order, |trades|)
    ensures fresh(calls) && fresh(puts)
    ensures calls[..] == CallColumn(trades, value)
    ensures puts[..] == PutColumn(trades, value)
  {
    var n := |trades|;
    calls := new real[n](_ => 0.0);
    puts := new real[n](_ => 0.0);
    var k := 0;
    while k < |order|
      invariant 0 <= k <= |order|
      invariant calls.Length == n && puts.Length == n
      invariant forall i :: 0 <= i < n ==>
        calls[i] == (if i in order[..k] && trades[i].right == CallRight then value(trades[i]) else 0.0)
      invariant forall i :: 0 <= i < n ==>
        puts[i] == (if i in order[..k] && trades[i].right != CallRight then value(trades[i]) else 0.0)
    {
      var i := order[k];
      assert i in multiset(Indices(n)) by {
        assert i in multiset(order);
      }
      var trade := trades[i];
      if trade.right == CallRight {
        calls[i] := value(trade);
      } else {
        puts[i] := value(trade);
      }
      assert order[..k + 1] == order[..k] + [i];
      k := k + 1;
    }
    forall i | 0 <= i < n ensures i in order {
      assert Indices(n)[i] == i;
      assert i in multiset(Indices(n));
    }
    assert order[..k] == order;
  }

  // ---------------------------------------------------------------------------
  // The three column builders of the classifier
  // ---------------------------------------------------------------------------

  /**
   * `classify_trades`: signed premium per trade (computed inline), routed by
   * right. The result is a function of the trades alone, not of the order
   * in which the loop visits them.
   */
  method ClassifyTrades(trades: seq<Trade>, order: seq<nat>) returns (callPremium: array<real>, putPremium: array<real>)
    requires VisitsEachIndexOnce(order, |trades|)
    ensures fresh(callPremium) && fresh(putPremium)
    ensures callPremium[..] == CallColumn(trades, GetPremium)
    ensures putPremium[..] == PutColumn(trades, GetPremium)
  {
    callPremium, putPremium := RouteByRight(trades, order, InlinePremium);
    forall i | 0 <= i < |trades| ensures InlinePremium(trades[i]) == GetPremium(trades[i]) {
      InlinePremiumIsGetPremium(trades[i]);
    }
  }

  /** `calculate_net_premiums`: `get_premium` per trade, routed by right. */
  method CalculateNetPremiums(trades: seq<Trade>, order: seq<nat>) returns (callPremium: array<real>, putPremium: array<real>)
    requires VisitsEachIndexOnce(order, |trades|)
    ensures fresh(callPremium) && fresh(putPremium)
    ensures callPremium[..] == CallColumn(trades, GetPremium)
    ensures putPremium[..] == PutColumn(trades, GetPremium)
  {
    callPremium, putPremium := RouteByRight(trades, order, GetPremium);
  }

  /** `calculate_net_flow`: `get_size_flow` per trade, routed by right. */
  method CalculateNetFlow(trades: seq<Trade>, order: seq<nat>) returns (callFlow: array<real>, putFlow: array<real>)
    requires VisitsEachIndexOnce(order, |trades|)
    ensures fresh(callFlow) && fresh(putFlow)
    ensures callFlow[..] == CallColumn(trades, SizeFlowValue)
    ensures putFlow[..] == PutColumn(trades, SizeFlowValue)
  {
    callFlow, putFlow := RouteByRight(trades, order, SizeFlowValue);
  }
}
