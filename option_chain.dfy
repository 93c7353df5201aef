/**
 * The option-chain service: the layered trade-aggressor classifier, the
 * filter that keeps the tradeable contracts of a bulk quote response, the
 * contract key, and the stream subscription request.
 */
module OptionChain {
  import opened Types
  import opened Dates

  // ===========================================================================
  // classify_trade
  // ===========================================================================

  function Midpoint(bid: real, ask: real): real {
    (bid + ask) / 2.0
  }

  /** Where the trade sits in the spread, 0 at the bid and 1 at the ask; 0.5 when the spread is not positive. */
  function RelativePrice(tradePrice: real, bid: real, ask: real): real {
    var spread := ask - bid;
    if spread > 0.0 then (tradePrice - bid) / spread else 0.5
  }

  /** Step 1 of the classifier (exact match to a resting quote whose size then shrinks) decides the trade. */
  predicate QuoteHitFires(tradePrice: real, bid: real, ask: real,
                          bidSize: int, askSize: int, nextBidSize: int, nextAskSize: int) {
    (tradePrice == ask && askSize > nextAskSize) || (tradePrice == bid && bidSize > nextBidSize)
  }

  /** Step 2 of the classifier (one side of the quote moved towards the other, the other stayed) decides the trade. */
  predicate QuoteShiftFires(bid: real, ask: real, nextBid: real, nextAsk: real) {
    (nextAsk < ask && nextBid == bid) || (nextBid > bid && nextAsk == ask)
  }

  /** Step 3's volume-pressure rule: exactly one side's quoted size shrank. */
  predicate SizePressureFires(bidSize: int, askSize: int, nextBidSize: int, nextAskSize: int) {
    (nextAskSize < askSize && nextBidSize == bidSize) || (nextBidSize < bidSize && nextAskSize == askSize)
  }

  /**
   * Some rule of step 3 decides a trade strictly inside the spread: the 10%
   * rules, volume pressure, price pressure or the 70/30 split (whose bounds
   * contain the 10% ones).
   */
  predicate InsideRuleFires(tradePrice: real, bid: real, ask: real, nextBid: real, nextAsk: real,
                            bidSize: int, askSize: int, nextBidSize: int, nextAskSize: int) {
    var relative := RelativePrice(tradePrice, bid, ask);
    && bid < tradePrice < ask
    && (|| relative > 0.7 || relative < 0.3
        || SizePressureFires(bidSize, askSize, nextBidSize, nextAskSize)
        || nextAsk < ask || nextBid > bid)
  }

  /**
   * The aggressor of one trade, from the trade price, the quote before and
   * after it, and the quoted sizes before and after it. First match wins.
   */
  function ClassifyTrade(tradePrice: real, bid: real, ask: real, nextBid: real, nextAsk: real,
                         bidSize: int, askSize: int, nextBidSize: int, nextAskSize: int): (side: Side)
    // Step 1: a resting order at the ask (bid) that was lifted (hit).
    ensures tradePrice == ask && askSize > nextAskSize ==> side == Buy
    ensures !(tradePrice == ask && askSize > nextAskSize) && tradePrice == bid && bidSize > nextBidSize
      ==> side == Sell
    // Step 2: the quote moved after the trade.
    ensures !QuoteHitFires(tradePrice, bid, ask, bidSize, askSize, nextBidSize, nextAskSize) ==>
      (nextAsk < ask && nextBid == bid ==> side == Buy) && (nextBid > bid && nextAsk == ask ==> side == Sell)
    // Step 3: strictly inside the spread, within 10% of either side.
    ensures (!QuoteHitFires(tradePrice, bid, ask, bidSize, askSize, nextBidSize, nextAskSize)
             && !QuoteShiftFires(bid, ask, nextBid, nextAsk) && bid < tradePrice < ask) ==>
      (RelativePrice(tradePrice, bid, ask) > 0.9 ==> side == Buy)
      && (RelativePrice(tradePrice, bid, ask) < 0.1 ==> side == Sell)
    // Step 3, between 10% and 90%: volume pressure, then price pressure, then the 70/30 split.
    ensures (!QuoteHitFires(tradePrice, bid, ask, bidSize, askSize, nextBidSize, nextAskSize)
             && !QuoteShiftFires(bid, ask, nextBid, nextAsk) && bid < tradePrice < ask
             && 0.1 <= RelativePrice(tradePrice, bid, ask) <= 0.9) ==>
      && (nextAskSize < askSize && nextBidSize == bidSize ==> side == Buy)
      && (nextBidSize < bidSize && nextAskSize == askSize ==> side == Sell)
      && (!SizePressureFires(bidSize, askSize, nextBidSize, nextAskSize) ==>
            && (nextAsk < ask ==> side == Buy)
            && (nextAsk >= ask && nextBid > bid ==> side == Sell)
            && (nextAsk >= ask && nextBid <= bid ==>
                  (RelativePrice(tradePrice, bid, ask) > 0.7 ==> side == Buy)
                  && (RelativePrice(tradePrice, bid, ask) < 0.3 ==> side == Sell)))
    // Step 4: outside the quote.
    ensures (!QuoteHitFires(tradePrice, bid, ask, bidSize, askSize, nextBidSize, nextAskSize)
             && !QuoteShiftFires(bid, ask, nextBid, nextAsk)) ==>
      (tradePrice > ask ==> side == Buy) && (tradePrice < bid && tradePrice <= ask ==> side == Sell)
    // Step 5: when nothing earlier decides, the direction of the midpoint does.
    ensures (!QuoteHitFires(tradePrice, bid, ask, bidSize, askSize, nextBidSize, nextAskSize)
             && !QuoteShiftFires(bid, ask, nextBid, nextAsk)
             && !InsideRuleFires(tradePrice, bid, ask, nextBid, nextAsk, bidSize, askSize, nextBidSize, nextAskSize)
             && bid <= tradePrice <= ask) ==>
      && (Midpoint(nextBid, nextAsk) > Midpoint(bid, ask) ==> side == Buy)
      && (Midpoint(nextBid, nextAsk) < Midpoint(bid, ask) ==> side == Sell)
      && (Midpoint(nextBid, nextAsk) == Midpoint(bid, ask) ==> side == Unknown)
    // Only an unchanged midpoint leaves the trade unclassified, and only inside the quote.
    ensures side == Unknown ==>
      Midpoint(nextBid, nextAsk) == Midpoint(bid, ask) && bid <= tradePrice <= ask
  {
    // Step 1: exact quote matches with a size decrease
    if tradePrice == ask && askSize > nextAskSize then Buy
    else if tradePrice == bid && bidSize > nextBidSize then Sell
    // Step 2: quote movement
    else if nextAsk < ask && nextBid == bid then Buy
    else if nextBid > bid && nextAsk == ask then Sell
    else
      var relative := RelativePrice(tradePrice, bid, ask);
      var inside :=
        if bid < tradePrice < ask then
          // Step 3: inside the spread
          if relative > 0.9 then Some(Buy)
          else if relative < 0.1 then Some(Sell)
          else if nextAskSize < askSize && nextBidSize == bidSize then Some(Buy)
          else if nextBidSize < bidSize && nextAskSize == askSize then Some(Sell)
          else if nextAsk < ask then Some(Buy)
          else if nextBid > bid then Some(Sell)
          else if relative > 0.7 then Some(Buy)
          else if relative < 0.3 then Some(Sell)
          else None
        else None;
      if inside.Some? then inside.value
      // Step 4: outside the quote
      else if tradePrice > ask then Buy
      else if tradePrice < bid then Sell
      // Step 5: midpoint tick test
      else if Midpoint(nextBid, nextAsk) > Midpoint(bid, ask) then Buy
      else if Midpoint(nextBid, nextAsk) < Midpoint(bid, ask) then Sell
      else Unknown
  }

  function Opposite(side: Side): Side {
    match side
    case Buy => Sell
    case Sell => Buy
    case Unknown => Unknown
  }

  /**
   * The rules are mirror images of each other: reflecting every price through
   * zero and swapping the bid and ask sides turns BUY into SELL and back,
   * except where the first-match order breaks a tie towards BUY (both step-1
   * rules at once, both price-pressure rules at once, or a crossed quote).
   */
  lemma MirrorSymmetry(tradePrice: real, bid: real, ask: real, nextBid: real, nextAsk: real,
                       bidSize: int, askSize: int, nextBidSize: int, nextAskSize: int)
    requires bid <= ask
    requires !(tradePrice == ask && askSize > nextAskSize && tradePrice == bid && bidSize > nextBidSize)
    requires !(nextAsk < ask && nextBid > bid)
    ensures ClassifyTrade(-tradePrice, -ask, -bid, -nextAsk, -nextBid, askSize, bidSize, nextAskSize, nextBidSize)
         == Opposite(ClassifyTrade(tradePrice, bid, ask, nextBid, nextAsk, bidSize, askSize, nextBidSize, nextAskSize))
  {
    if bid < tradePrice < ask {
      var spread := ask - bid;
      var rel := RelativePrice(tradePrice, bid, ask);
      var rel' := RelativePrice(-tradePrice, -ask, -bid);
      assert rel == (tradePrice - bid) / spread;
      assert rel' == (ask - tradePrice) / spread;
      QuotientOfDifference(spread, tradePrice - bid, spread);
      assert ask - tradePrice == spread - (tradePrice - bid);
      assert spread / spread == 1.0;
      assert rel' == 1.0 - rel;
    }
  }

  lemma QuotientOfDifference(a: real, b: real, c: real)
    requires c != 0.0
    ensures (a - b) / c == a / c - b / c
  {
  }

  /** The tie-break in step 1 favours BUY: a trade at a locked quote whose two sizes both shrink is a buy, and so is its mirror image. */
  lemma QuoteHitTieGoesToBuy(price: real, size: int)
    ensures ClassifyTrade(price, price, price, price, price, size + 1, size + 1, size, size) == Buy
    ensures ClassifyTrade(-price, -price, -price, -price, -price, size + 1, size + 1, size, size) == Buy
  {
  }

  // ===========================================================================
  // filter_active_contracts
  // ===========================================================================

  /** A scalar in the contract part of the quote response. */
  datatype Field = Null | Text(s: string) | Int(i: int)

  /** A contract object of the response: its keys and their values. */
  type Dict = map<string, Field>

  /** `d.get(k)`: the value, or None when the key is absent. */
  function Get(d: Dict, k: string): Field {
    if k in d then d[k] else Null
  }

  /** Python truthiness: None, the empty string and 0 are false. */
  predicate Truthy(f: Field) {
    match f
    case Null => false
    case Text(s) => s != ""
    case Int(i) => i != 0
  }

  function NatToDecimal(n: nat): (s: string)
    ensures s != [] && forall k :: 0 <= k < |s| ==> IsDigit(s[k])
  {
    if n < 10 then [DigitChar(n)] else NatToDecimal(n / 10) + [DigitChar(n % 10)]
  }

  /** `str(f)`. */
  function Show(f: Field): string {
    match f
    case Null => "None"
    case Text(s) => s
    case Int(i) => if i < 0 then "-" + NatToDecimal(-i) else NatToDecimal(i)
  }

  /** The quote part of one response entry; `None` marks a key the entry lacks. */
  datatype Quote = Quote(bid: Option<real>, ask: Option<real>, bidSize: Option<int>, askSize: Option<int>)

  /** One entry of the response list; `None` marks a missing "contract" or "quote" key. */
  datatype Entry = Entry(contract: Option<Dict>, quote: Option<Quote>)

  datatype OptionContract = OptionContract(
    root: Field, expiration: string, strike: string, right: Field, bidSize: int, askSize: int)

  /** `data.get('response', [])`. */
  function Entries(response: Option<seq<Entry>>): seq<Entry> {
    if response.Some? then response.value else []
  }

  /**
   * The contract one entry contributes, or `None` when the loop body skips it
   * (a `continue`, or an exception the loop catches).
   */
  function Admit(e: Entry, today: Date): Option<OptionContract>
  {
    if e.contract.None? || e.quote.None? then None
    else
      var contract, quote := e.contract.value, e.quote.value;
      if !(Truthy(Get(contract, "expiration")) && Truthy(Get(contract, "strike")) && Truthy(Get(contract, "right")))
      then None
      else if quote.bid.None? || quote.bid.value <= 0.0 || quote.ask.None? || quote.ask.value <= 0.0 then None
      else
        var expiration := Show(contract["expiration"]);
        match ParseYmd(expiration)
        case None => None
        case Some(expDate) =>
          if !Before(today, expDate) then None
          else if "root" !in contract || quote.bidSize.None? || quote.askSize.None? then None
          else Some(OptionContract(contract["root"], expiration, Show(contract["strike"]), contract["right"],
                                   quote.bidSize.value, quote.askSize.value))
  }

  /**
   * An entry is admitted exactly when it has a contract and a quote, truthy
   * expiration, strike and right, a positive bid and ask, an expiration label
   * that parses to a date after today, a root, and both sizes; the contract
   * it yields copies those fields.
   */
  lemma AdmitConditions(e: Entry, today: Date)
    ensures Admit(e, today).Some? <==>
      && e.contract.Some? && e.quote.Some?
      && Truthy(Get(e.contract.value, "expiration"))
      && Truthy(Get(e.contract.value, "strike"))
      && Truthy(Get(e.contract.value, "right"))
      && e.quote.value.bid.Some? && e.quote.value.bid.value > 0.0
      && e.quote.value.ask.Some? && e.quote.value.ask.value > 0.0
      && ParseYmd(Show(e.contract.value["expiration"])).Some?
      && Before(today, ParseYmd(Show(e.contract.value["expiration"])).value)
      && "root" in e.contract.value
      && e.quote.value.bidSize.Some? && e.quote.value.askSize.Some?
    ensures Admit(e, today).Some? ==>
      && Admit(e, today).value.root == e.contract.value["root"]
      && Admit(e, today).value.expiration == Show(e.contract.value["expiration"])
      && Admit(e, today).value.strike == Show(e.contract.value["strike"])
      && Admit(e, today).value.right == e.contract.value["right"]
      && Admit(e, today).value.bidSize == e.quote.value.bidSize.value
      && Admit(e, today).value.askSize == e.quote.value.askSize.value
  {
  }

  /** The values `f` yields for the elements of `xs`, in order, skipping the elements it maps to `None`. */
  function FilterMap<T, U>(xs: seq<T>, f: T -> Option<U>): seq<U>
    decreases |xs|
  {
    if xs == [] then []
    else
      var init := FilterMap(xs[..|xs| - 1], f);
      match f(xs[|xs| - 1])
      case Some(y) => init + [y]
      case None => init
  }

  /** The positions of the elements `f` keeps, in increasing order. */
  function KeptIndices<T, U>(xs: seq<T>, f: T -> Option<U>): seq<nat>
    decreases |xs|
  {
    if xs == [] then []
    else
      var init := KeptIndices(xs[..|xs| - 1], f);
      if f(xs[|xs| - 1]).Some? then init + [|xs| - 1] else init
  }

  /** The kept positions are increasing positions of the list, one per output value. */
  lemma {:induction false} KeptIndicesShape<T, U>(xs: seq<T>, f: T -> Option<U>)
    ensures |FilterMap(xs, f)| == |KeptIndices(xs, f)| <= |xs|
    ensures forall k :: 0 <= k < |KeptIndices(xs, f)| ==> KeptIndices(xs, f)[k] < |xs|
    ensures forall k, l :: 0 <= k < l < |KeptIndices(xs, f)| ==> KeptIndices(xs, f)[k] < KeptIndices(xs, f)[l]
    decreases |xs|
  {
    if xs != [] {
      KeptIndicesShape(xs[..|xs| - 1], f);
    }
  }

  /** Output value k is what `f` yields for the element at kept position k. */
  lemma {:induction false} FilterMapFromKept<T, U>(xs: seq<T>, f: T -> Option<U>)
    ensures |FilterMap(xs, f)| == |KeptIndices(xs, f)|
    ensures forall k :: 0 <= k < |KeptIndices(xs, f)| ==>
      KeptIndices(xs, f)[k] < |xs| && f(xs[KeptIndices(xs, f)[k]]) == Some(FilterMap(xs, f)[k])
    decreases |xs|
  {
    KeptIndicesShape(xs, f);
    if xs != [] {
      var init := xs[..|xs| - 1];
      FilterMapFromKept(init, f);
      KeptIndicesShape(init, f);
    }
  }

  /** A position is kept exactly when `f` yields a value for its element. */
  lemma {:induction false} KeptIndicesComplete<T, U>(xs: seq<T>, f: T -> Option<U>)
    ensures forall i :: 0 <= i < |xs| ==> (f(xs[i]).Some? <==> i in KeptIndices(xs, f))
    decreases |xs|
  {
    if xs != [] {
      var n := |xs| - 1;
      var init := xs[..n];
      KeptIndicesComplete(init, f);
      KeptIndicesShape(init, f);
      assert n !in KeptIndices(init, f);
    }
  }

  /** The contracts the loop collects from `entries`, in order. */
  function Active(entries: seq<Entry>, today: Date): seq<OptionContract> {
    FilterMap(entries, e => Admit(e, today))
  }

  /** The positions of the admitted entries, in increasing order. */
  function AdmittedIndices(entries: seq<Entry>, today: Date): seq<nat> {
    KeptIndices(entries, e => Admit(e, today))
  }

  /**
   * The filter keeps exactly the admitted entries, in input order: output
   * k comes from entry idx[k], the positions are increasing, and an entry is
   * among them exactly when it is admitted.
   */
  lemma ActiveExactly(entries: seq<Entry>, today: Date)
    ensures var r, idx := Active(entries, today), AdmittedIndices(entries, today);
      && |r| == |idx| <= |entries|
      && (forall k :: 0 <= k < |idx| ==> idx[k] < |entries|)
      && (forall k, l :: 0 <= k < l < |idx| ==> idx[k] < idx[l])
      && (forall k :: 0 <= k < |idx| ==> Admit(entries[idx[k]], today) == Some(r[k]))
      && (forall i :: 0 <= i < |entries| ==> (Admit(entries[i], today).Some? <==> i in idx))
  {
    var f := e => Admit(e, today);
    KeptIndicesShape(entries, f);
    FilterMapFromKept(entries, f);
    KeptIndicesComplete(entries, f);
  }

  /**
   * filter_active_contracts: walks the response list and appends one
   * contract per admitted entry.
   */
  method FilterActiveContracts(response: Option<seq<Entry>>, today: Date) returns (contracts: seq<OptionContract>)
    ensures contracts == Active(Entries(response), today)
    ensures |contracts| <= |Entries(response)|
    ensures forall c :: c in contracts ==> exists i :: 0 <= i < |Entries(response)| && Admit(Entries(response)[i], today) == Some(c)
  {
    var entries := Entries(response);
    contracts := [];
    var i := 0;
    while i < |entries|
      invariant 0 <= i <= |entries|
      invariant contracts == Active(entries[..i], today)
    {
      assert entries[..i + 1][..i] == entries[..i];
      var admitted := Admit(entries[i], today);
      if admitted.Some? {
        contracts := contracts + [admitted.value];
      }
      i := i + 1;
    }
    assert entries[..i] == entries;
    ActiveExactly(entries, today);
    forall c | c in contracts
      ensures exists i :: 0 <= i < |entries| && Admit(entries[i], today) == Some(c)
    {
      var k :| 0 <= k < |contracts| && contracts[k] == c;
      var idx := AdmittedIndices(entries, today);
      assert Admit(entries[idx[k]], today) == Some(c);
    }
  }

  // ===========================================================================
  // get_contract_key and create_stream_request
  // ===========================================================================

  const KeySeparator: char := '_'

  /** `f"{root}_{expiration}_{strike}_{right}"`, or `None` for the KeyError of a missing field. */
  function GetContractKey(contract: Dict): (key: Option<string>)
    ensures key.Some? <==>
      "root" in contract && "expiration" in contract && "strike" in contract && "right" in contract
  {
    if "root" in contract && "expiration" in contract && "strike" in contract && "right" in contract then
      Some(Join([Show(contract["root"]), Show(contract["expiration"]),
                 Show(contract["strike"]), Show(contract["right"])]))
    else None
  }

  /** The parts, separated by underscores. */
  function Join(parts: seq<string>): string {
    if parts == [] then "" else if |parts| == 1 then parts[0] else parts[0] + [KeySeparator] + Join(parts[1..])
  }

  /** `s.split('_')`. */
  function Split(s: string): (parts: seq<string>)
    ensures parts != []
  {
    if s == [] then [""]
    else
      var rest := Split(s[1..]);
      if s[0] == KeySeparator then [""] + rest else [[s[0]] + rest[0]] + rest[1..]
  }

  lemma {:induction false} SplitPlain(a: string)
    requires KeySeparator !in a
    ensures Split(a) == [a]
  {
    if a != [] {
      SplitPlain(a[1..]);
      assert [a[0]] + a[1..] == a;
    }
  }

  lemma {:induction false} SplitAfter(a: string, b: string)
    requires KeySeparator !in a
    ensures Split(a + [KeySeparator] + b) == [a] + Split(b)
  {
    if a == [] {
      assert a + [KeySeparator] + b == [KeySeparator] + b;
      assert ([KeySeparator] + b)[1..] == b;
    } else {
      SplitAfter(a[1..], b);
      assert (a + [KeySeparator] + b)[1..] == a[1..] + [KeySeparator] + b;
      assert [a[0]] + a[1..] == a;
    }
  }

  /** Splitting a key at its underscores gives the parts back when none of them contains one. */
  lemma {:induction false} SplitJoin(parts: seq<string>)
    requires parts != []
    requires forall k :: 0 <= k < |parts| ==> KeySeparator !in parts[k]
    ensures Split(Join(parts)) == parts
  {
    if |parts| == 1 {
      SplitPlain(parts[0]);
    } else {
      SplitJoin(parts[1..]);
      SplitAfter(parts[0], Join(parts[1..]));
      assert [parts[0]] + parts[1..] == parts;
    }
  }

  /** The key identifies the contract: its four fields can be read back from it, when none contains an underscore. */
  lemma ContractKeyRoundTrip(contract: Dict)
    requires "root" in contract && "expiration" in contract && "strike" in contract && "right" in contract
    requires forall f :: f in contract.Values ==> KeySeparator !in Show(f)
    ensures Split(GetContractKey(contract).value)
         == [Show(contract["root"]), Show(contract["expiration"]), Show(contract["strike"]), Show(contract["right"])]
  {
    SplitJoin([Show(contract["root"]), Show(contract["expiration"]), Show(contract["strike"]), Show(contract["right"])]);
  }

  /** With an underscore inside a field, two different contracts share a key. */
  lemma ContractKeyCollision()
    ensures GetContractKey(map["root" := Text("A_B"), "expiration" := Text("C"), "strike" := Text("1"), "right" := Text("P")])
         == GetContractKey(map["root" := Text("A"), "expiration" := Text("B_C"), "strike" := Text("1"), "right" := Text("P")])
  {
    assert Join(["1", "P"]) == "1_P";
    assert Join(["C", "1", "P"]) == "C_1_P";
    assert Join(["B_C", "1", "P"]) == "B_C_1_P";
    assert Join(["A_B", "C", "1", "P"]) == "A_B_C_1_P";
    assert Join(["A", "B_C", "1", "P"]) == "A_B_C_1_P";
  }

  datatype StreamRequest = StreamRequest(
    msgType: string, secType: string, reqType: string, add: bool, id: int, contract: Dict)

  const DefaultReqType: string := "TRADE"

  /** The subscription message for one contract. */
  function CreateStreamRequest(contract: OptionContract, streamId: int, reqType: string := DefaultReqType): (req: StreamRequest)
    ensures req.msgType == "STREAM" && req.secType == "OPTION" && req.add
    ensures req.reqType == reqType && req.id == streamId
    ensures req.contract.Keys == {"root", "expiration", "strike", "right"}
    ensures req.contract["root"] == contract.root && req.contract["right"] == contract.right
    ensures Show(req.contract["expiration"]) == contract.expiration && Show(req.contract["strike"]) == contract.strike
  {
    StreamRequest("STREAM", "OPTION", reqType, true, streamId,
      map["root" := contract.root, "expiration" := Text(contract.expiration),
          "strike" := Text(contract.strike), "right" := contract.right])
  }

  /**
   * A subscription made for a filtered contract carries the same key as the
   * contract object of the response it came from.
   */
  lemma StreamRequestKeepsKey(e: Entry, today: Date, streamId: int, reqType: string)
    requires Admit(e, today).Some?
    ensures GetContractKey(CreateStreamRequest(Admit(e, today).value, streamId, reqType).contract)
         == GetContractKey(e.contract.value)
  {
  }
}
