/**
 * The per-root implied-volatility quote store: admission filters and a
 * last-write-wins update keyed by (strike, expiry, right), the sorted
 * expiration labels, the put/call-merged smile of one expiry, and the
 * at-the-money strike estimate.
 *
 * The implied-volatility solver, the spot price, today's date, the wall
 * clock and the natural logarithm are parameters.
 */
module VolSurface {
  import opened Types
  import opened Dates
  import opened Sorting
  import OC = OptionChain

  /** Where a quote is stored within its root: strike (in dollars), expiry and right. */
  datatype QuoteKey = QuoteKey(strike: real, expiry: Date, right: OC.Field)

  /** `QuotePoint`: what is stored for one key; the timestamp is the wall-clock reading at storage. */
  datatype QuotePoint = QuotePoint(strike: real, expiry: Date, impliedVol: real, timestamp: real)

  /** The bid and ask of the quote message; `None` marks a missing key, which reads as 0. */
  datatype QuoteData = QuoteData(bid: Option<real>, ask: Option<real>)

  /** The quotes of one root. */
  type Book = map<QuoteKey, QuotePoint>

  /** The implied-volatility solver: spot, strike, years to expiry, rate, option price, is-call. */
  type IvSolver = (real, real, real, real, real, bool) -> Option<real>

  const StrikeScale: real := 1000.0
  const MaxRelativeSpread: real := 0.15
  const MinIv: real := 0.05
  const MaxIv: real := 2.0
  const DaysPerYear: real := 365.0
  const CallRight: OC.Field := OC.Text("C")
  const PutRight: OC.Field := OC.Text("P")

  /** A stored point agrees with its key and carries an admitted volatility. */
  predicate Consistent(k: QuoteKey, p: QuotePoint) {
    && p.strike == k.strike && p.expiry == k.expiry
    && MinIv <= p.impliedVol <= MaxIv
    && ValidDate(k.expiry)
  }

  predicate BookValid(book: Book) {
    forall k :: k in book ==> Consistent(k, book[k])
  }

  function BookOf(quotes: map<OC.Field, Book>, root: OC.Field): Book {
    if root in quotes then quotes[root] else map[]
  }

  // ---------------------------------------------------------------------------
  // update_quote
  // ---------------------------------------------------------------------------

  /** The value of a plain decimal digit string. */
  function DigitsValue(s: string): (v: nat)
    requires forall i :: 0 <= i < |s| ==> IsDigit(s[i])
  {
    if s == [] then 0 else 10 * DigitsValue(s[..|s| - 1]) + DigitValue(s[|s| - 1])
  }

  /** `float(f)`, with `None` for the exception it raises; text is read only as a plain digit string. */
  function ToFloat(f: OC.Field): Option<real> {
    match f
    case Null => None
    case Int(i) => Some(i as real)
    case Text(s) =>
      if s != [] && forall i :: 0 <= i < |s| ==> IsDigit(s[i]) then Some(DigitsValue(s) as real) else None
  }

  /** The four contract fields the update reads before its `try` block. */
  datatype ContractFields = ContractFields(root: OC.Field, strike: real, expiry: Date, right: OC.Field)

  /** Reading the contract; `None` when a key is missing, the strike is not a number or the expiration not a date. */
  function DecodeContract(contract: OC.Dict): (r: Option<ContractFields>)
    ensures r.Some? ==> ValidDate(r.value.expiry)
    ensures r.Some? <==>
      && "root" in contract && "strike" in contract && "expiration" in contract && "right" in contract
      && ToFloat(contract["strike"]).Some?
      && ParseYmd(OC.Show(contract["expiration"])).Some?
    ensures r.Some? ==>
      && r.value.root == contract["root"] && r.value.right == contract["right"]
      && r.value.strike == ToFloat(contract["strike"]).value / StrikeScale
      && r.value.expiry == ParseYmd(OC.Show(contract["expiration"])).value
  {
    if "root" !in contract || "strike" !in contract then None
    else match ToFloat(contract["strike"])
      case None => None
      case Some(strike) =>
        if "expiration" !in contract then None
        else match ParseYmd(OC.Show(contract["expiration"]))
          case None => None
          case Some(expiry) =>
            if "right" !in contract then None
            else Some(ContractFields(contract["root"], strike / StrikeScale, expiry, contract["right"]))
  }

  /** How one update ends: an exception, one of the five skips, or a stored point. */
  datatype Outcome =
    | Raised
    | InvalidBidAsk
    | WideSpread
    | NoSpot
    | Expired
    | InvalidIv
    | Stored(key: QuoteKey, point: QuotePoint)

  /** `quote_data.get(name, 0)`. */
  function QuoteValue(v: Option<real>): real {
    if v.Some? then v.value else 0.0
  }

  /** The midpoint of a quote message. */
  function QuoteMid(quote: QuoteData): real {
    (QuoteValue(quote.bid) + QuoteValue(quote.ask)) / 2.0
  }

  /** `(expiry - today).days / 365`. */
  function YearsToExpiry(today: Date, expiry: Date): real
    requires ValidDate(today) && ValidDate(expiry)
  {
    DaysBetween(today, expiry) as real / DaysPerYear
  }

  /** The solver's answer for a decoded contract: zero rate, the quote midpoint as price, a call when the right is "C". */
  function SolvedVol(c: ContractFields, quote: QuoteData, spot: real, today: Date, solver: IvSolver): Option<real>
    requires ValidDate(today) && ValidDate(c.expiry)
  {
    solver(spot, c.strike, YearsToExpiry(today, c.expiry), 0.0, QuoteMid(quote), c.right == CallRight)
  }

  /** The decision `update_quote` takes for one contract and quote. */
  function Assess(contract: OC.Dict, quote: QuoteData, spot: Option<real>, today: Date,
                  solver: IvSolver, now: real): (r: Outcome)
    requires ValidDate(today)
    ensures r == Raised <==> DecodeContract(contract).None?
    ensures r.Stored? ==> Consistent(r.key, r.point) && r.point.timestamp == now
    ensures r.Stored? ==>
      var c := DecodeContract(contract).value;
      r.key == QuoteKey(c.strike, c.expiry, c.right)
  {
    match DecodeContract(contract)
    case None => Raised
    case Some(c) =>
      var bid, ask := QuoteValue(quote.bid), QuoteValue(quote.ask);
      if bid <= 0.0 || ask <= 0.0 then InvalidBidAsk
      else
        var spread := (ask - bid) / ((ask + bid) / 2.0);
        if spread > MaxRelativeSpread then WideSpread
        else if spot.None? || spot.value == 0.0 then NoSpot
        else if YearsToExpiry(today, c.expiry) <= 0.0 then Expired
        else
          var iv := SolvedVol(c, quote, spot.value, today, solver);
          if iv.None? || iv.value < MinIv || iv.value > MaxIv then InvalidIv
          else Stored(QuoteKey(c.strike, c.expiry, c.right), QuotePoint(c.strike, c.expiry, iv.value, now))
  }

  /** A missing, zero or negative bid or ask is skipped before anything else is looked at. */
  lemma NonPositiveQuoteSkipped(contract: OC.Dict, quote: QuoteData, spot: Option<real>, today: Date,
                                solver: IvSolver, now: real)
    requires ValidDate(today) && DecodeContract(contract).Some?
    requires QuoteValue(quote.bid) <= 0.0 || QuoteValue(quote.ask) <= 0.0
    ensures Assess(contract, quote, spot, today, solver, now) == InvalidBidAsk
  {
  }

  /**
   * With a positive bid and ask, the spread filter rejects exactly the quotes
   * whose ask exceeds the bid by more than 15% of the midpoint
   * (40 (ask - bid) > 3 (ask + bid)); a spread of exactly 15% passes.
   */
  lemma SpreadFilter(contract: OC.Dict, quote: QuoteData, spot: Option<real>, today: Date,
                     solver: IvSolver, now: real)
    requires ValidDate(today) && DecodeContract(contract).Some?
    requires QuoteValue(quote.bid) > 0.0 && QuoteValue(quote.ask) > 0.0
    ensures Assess(contract, quote, spot, today, solver, now) == WideSpread
        <==> 40.0 * (QuoteValue(quote.ask) - QuoteValue(quote.bid)) > 3.0 * (QuoteValue(quote.ask) + QuoteValue(quote.bid))
  {
    var bid, ask := QuoteValue(quote.bid), QuoteValue(quote.ask);
    assert Assess(contract, quote, spot, today, solver, now) == WideSpread
      <==> (ask - bid) / ((ask + bid) / 2.0) > MaxRelativeSpread;
    RelativeSpreadTooWide(bid, ask);
  }

  /** The relative spread exceeds 15% exactly when 40 (ask - bid) > 3 (ask + bid). */
  lemma RelativeSpreadTooWide(bid: real, ask: real)
    requires bid > 0.0 && ask > 0.0
    ensures (ask - bid) / ((ask + bid) / 2.0) > MaxRelativeSpread <==> 40.0 * (ask - bid) > 3.0 * (ask + bid)
  {
    var m := (ask + bid) / 2.0;
    var d := ask - bid;
    var spread := d / m;
    QuotientTimesDivisor(d, m);
    ScaleComparison(spread, MaxRelativeSpread, m);
    assert spread > MaxRelativeSpread <==> d > MaxRelativeSpread * m;
    assert MaxRelativeSpread * m == 3.0 * (ask + bid) / 40.0;
  }

  lemma QuotientTimesDivisor(a: real, m: real)
    requires m != 0.0
    ensures (a / m) * m == a
  {
  }

  lemma ScaleComparison(a: real, b: real, m: real)
    requires m > 0.0
    ensures a > b <==> a * m > b * m
  {
    if a > b {
      assert (a - b) * m > 0.0;
    } else {
      assert (b - a) * m >= 0.0;
    }
  }

  /**
   * Every check of `update_quote` passes: the contract reads, the bid and
   * ask are positive, the spread is at most 15% of the midpoint, a non-zero
   * spot is known, the expiry is after today and the solver's volatility
   * lies in [0.05, 2.0].
   */
  predicate PassesEveryFilter(contract: OC.Dict, quote: QuoteData, spot: Option<real>, today: Date, solver: IvSolver)
    requires ValidDate(today)
  {
    var bid, ask := QuoteValue(quote.bid), QuoteValue(quote.ask);
    && DecodeContract(contract).Some?
    && bid > 0.0 && ask > 0.0
    && 40.0 * (ask - bid) <= 3.0 * (ask + bid)
    && spot.Some? && spot.value != 0.0
    && Before(today, DecodeContract(contract).value.expiry)
    && var iv := SolvedVol(DecodeContract(contract).value, quote, spot.value, today, solver);
       iv.Some? && MinIv <= iv.value <= MaxIv
  }

  /**
   * A quote is stored exactly when it passes every check, and then under the
   * key (strike/1000, expiry, right) of its contract, with the solver's volatility.
   */
  lemma StoredExactly(contract: OC.Dict, quote: QuoteData, spot: Option<real>, today: Date,
                      solver: IvSolver, now: real)
    requires ValidDate(today)
    ensures Assess(contract, quote, spot, today, solver, now).Stored?
        <==> PassesEveryFilter(contract, quote, spot, today, solver)
    ensures Assess(contract, quote, spot, today, solver, now).Stored? ==>
      var c, o := DecodeContract(contract).value, Assess(contract, quote, spot, today, solver, now);
      && o.key == QuoteKey(c.strike, c.expiry, c.right)
      && o.point.impliedVol == SolvedVol(c, quote, spot.value, today, solver).value
  {
    var bid, ask := QuoteValue(quote.bid), QuoteValue(quote.ask);
    if DecodeContract(contract).Some? && bid > 0.0 && ask > 0.0 {
      RelativeSpreadTooWide(bid, ask);
      if spot.Some? && spot.value != 0.0 {
        var c := DecodeContract(contract).value;
        OrdinalOrder(today, c.expiry);
        assert YearsToExpiry(today, c.expiry) > 0.0 <==> Before(today, c.expiry);
      }
    }
  }

  /** With a positive bid and ask and a spread within 15%, the quote is skipped for want of a spot exactly when none, or zero, is known. */
  lemma NoSpotSkipped(contract: OC.Dict, quote: QuoteData, spot: Option<real>, today: Date,
                      solver: IvSolver, now: real)
    requires ValidDate(today) && DecodeContract(contract).Some?
    requires QuoteValue(quote.bid) > 0.0 && QuoteValue(quote.ask) > 0.0
    requires 40.0 * (QuoteValue(quote.ask) - QuoteValue(quote.bid)) <= 3.0 * (QuoteValue(quote.ask) + QuoteValue(quote.bid))
    ensures Assess(contract, quote, spot, today, solver, now) == NoSpot <==> spot.None? || spot.value == 0.0
  {
    RelativeSpreadTooWide(QuoteValue(quote.bid), QuoteValue(quote.ask));
  }

  /**
   * Once the quote has passed the bid/ask, spread and spot checks, it is
   * skipped as expired exactly when its expiry is not after today.
   */
  lemma ExpiredSkipped(contract: OC.Dict, quote: QuoteData, spot: Option<real>, today: Date,
                       solver: IvSolver, now: real)
    requires ValidDate(today) && DecodeContract(contract).Some?
    requires Assess(contract, quote, spot, today, solver, now) !in {Raised, InvalidBidAsk, WideSpread, NoSpot}
    ensures Assess(contract, quote, spot, today, solver, now) == Expired
        <==> !Before(today, DecodeContract(contract).value.expiry)
  {
    var c := DecodeContract(contract).value;
    OrdinalOrder(today, c.expiry);
    var days := DaysBetween(today, c.expiry);
    assert YearsToExpiry(today, c.expiry) <= 0.0 <==> days <= 0;
  }

  /**
   * A quote that reaches the solver is stored exactly when the solver gives
   * a volatility within [0.05, 2.0], both bounds included, and the stored
   * point carries that volatility.
   */
  lemma VolatilityFilter(contract: OC.Dict, quote: QuoteData, spot: Option<real>, today: Date,
                         solver: IvSolver, now: real)
    requires ValidDate(today)
    requires Assess(contract, quote, spot, today, solver, now) == InvalidIv
          || Assess(contract, quote, spot, today, solver, now).Stored?
    ensures spot.Some? && DecodeContract(contract).Some?
    ensures
      var iv := SolvedVol(DecodeContract(contract).value, quote, spot.value, today, solver);
      && (Assess(contract, quote, spot, today, solver, now).Stored? <==> iv.Some? && MinIv <= iv.value <= MaxIv)
      && (Assess(contract, quote, spot, today, solver, now).Stored? ==>
            Assess(contract, quote, spot, today, solver, now).point.impliedVol == iv.value)
  {
  }

  /** The book after an outcome: a stored point replaces whatever its key held; nothing else changes. */
  function Apply(book: Book, o: Outcome): (r: Book)
    ensures o.Stored? ==> o.key in r && r[o.key] == o.point
    ensures forall k :: k in book && !(o.Stored? && k == o.key) ==> k in r && r[k] == book[k]
    ensures forall k :: k in r ==> k in book || (o.Stored? && k == o.key)
  {
    if o.Stored? then book[o.key := o.point] else book
  }

  /** Storing an outcome that `Assess` produced keeps every point consistent with its key. */
  lemma ApplyKeepsBookValid(book: Book, contract: OC.Dict, quote: QuoteData, spot: Option<real>, today: Date,
                            solver: IvSolver, now: real)
    requires ValidDate(today) && BookValid(book)
    ensures BookValid(Apply(book, Assess(contract, quote, spot, today, solver, now)))
  {
  }

  // ---------------------------------------------------------------------------
  // get_surface_data and estimate_spot_from_quotes: specifications
  // ---------------------------------------------------------------------------

  /** The smile value at a strike of one expiry: the call/put average, else whichever of the two is stored. */
  function CombinedAt(book: Book, e: Date, s: real): Option<real> {
    var c, p := QuoteKey(s, e, CallRight), QuoteKey(s, e, PutRight);
    if c in book && p in book then Some((book[c].impliedVol + book[p].impliedVol) / 2.0)
    else if c in book then Some(book[c].impliedVol)
    else if p in book then Some(book[p].impliedVol)
    else None
  }

  /** A merged volatility lies between the call's and the put's, so within the admitted range. */
  lemma CombinedAtInRange(book: Book, e: Date, s: real)
    requires BookValid(book) && CombinedAt(book, e, s).Some?
    ensures MinIv <= CombinedAt(book, e, s).value <= MaxIv
    ensures QuoteKey(s, e, CallRight) in book && QuoteKey(s, e, PutRight) in book ==>
      var cv, pv := book[QuoteKey(s, e, CallRight)].impliedVol, book[QuoteKey(s, e, PutRight)].impliedVol;
      (cv <= CombinedAt(book, e, s).value <= pv) || (pv <= CombinedAt(book, e, s).value <= cv)
  {
    var c, p := QuoteKey(s, e, CallRight), QuoteKey(s, e, PutRight);
    if c in book {
      assert Consistent(c, book[c]);
    }
    if p in book {
      assert Consistent(p, book[p]);
    }
  }

  /** The strikes of expiry e that have a smile value. */
  ghost function SurfaceStrikes(book: Book, e: Date): set<real> {
    set k | k in book && k.expiry == e && CombinedAt(book, e, k.strike).Some? :: k.strike
  }

  /** The smile of one expiry: log-moneyness, volatility and strike, one point per strike, by ascending strike. */
  datatype Surface = Surface(moneyness: seq<real>, vols: seq<real>, strikes: seq<real>)

  /** `get_surface_data`'s result: `None`, an exception, or the (one-element tuple around the) smile. */
  datatype SurfaceResult = NoData | Failed | Smile(surface: Surface)

  function RealLess(a: real, b: real): bool {
    a < b
  }

  lemma RealLessIsStrictTotalOrder(s: set<real>)
    ensures StrictTotalOrderOn(s, RealLess)
  {
  }

  lemma BeforeIsStrictTotalOrder(s: set<Date>)
    ensures StrictTotalOrderOn(s, Before)
  {
  }

  /** Both a call and a put are stored at strike s of expiry e. */
  predicate HasPair(book: Book, e: Date, s: real) {
    QuoteKey(s, e, CallRight) in book && QuoteKey(s, e, PutRight) in book
  }

  function Abs(v: real): real {
    if v < 0.0 then -v else v
  }

  /** The distance between the call's and the put's volatility at a strike that has both. */
  function Gap(book: Book, e: Date, s: real): real
    requires HasPair(book, e, s)
  {
    Abs(book[QuoteKey(s, e, CallRight)].impliedVol - book[QuoteKey(s, e, PutRight)].impliedVol)
  }

  /** e is the expiry of a stored key and no stored key expires earlier. */
  ghost predicate IsEarliestExpiry(book: Book, e: Date) {
    && (exists k :: k in book && k.expiry == e)
    && forall k :: k in book ==> !Before(k.expiry, e)
  }

  /** Two dates that are both the earliest are the same date. */
  lemma EarliestExpiryUnique(book: Book, e1: Date, e2: Date)
    requires IsEarliestExpiry(book, e1) && IsEarliestExpiry(book, e2)
    ensures e1 == e2
  {
    var k1 :| k1 in book && k1.expiry == e1;
    var k2 :| k2 in book && k2.expiry == e2;
    assert !Before(e1, e2) && !Before(e2, e1);
  }

  /** A set holding every element of a non-empty set is non-empty. */
  lemma NonEmptySubset<T>(a: set<T>, b: set<T>)
    requires a != {} && forall x :: x in a ==> x in b
    ensures b != {}
  {
    var x :| x in a;
    assert x in b;
  }

  /** Some element of a non-empty set: the next key a dictionary loop visits. */
  method Choose<T>(s: set<T>) returns (x: T)
    requires s != {}
    ensures x in s
  {
    x :| x in s;
  }

  /** The first loop of `get_surface_data`: the volatilities of expiry e, by strike and then by right. */
  method GroupByStrike(book: Book, e: Date) returns (strikeQuotes: map<real, map<OC.Field, real>>)
    ensures forall s, rt :: QuoteKey(s, e, rt) in book ==> s in strikeQuotes
    ensures forall s :: s in strikeQuotes ==> exists rt :: QuoteKey(s, e, rt) in book
    ensures forall s, rt :: s in strikeQuotes ==> (rt in strikeQuotes[s] <==> QuoteKey(s, e, rt) in book)
    ensures forall s, rt :: s in strikeQuotes && rt in strikeQuotes[s] ==>
      strikeQuotes[s][rt] == book[QuoteKey(s, e, rt)].impliedVol
  {
    strikeQuotes := map[];
    var todo := book.Keys;
    ghost var done: set<QuoteKey> := {};
    while todo != {}
      invariant todo + done == book.Keys && todo !! done
      invariant forall s, rt :: QuoteKey(s, e, rt) in done ==> s in strikeQuotes
      invariant forall s :: s in strikeQuotes ==> exists rt :: QuoteKey(s, e, rt) in done
      invariant forall s, rt :: s in strikeQuotes ==> (rt in strikeQuotes[s] <==> QuoteKey(s, e, rt) in done)
      invariant forall s, rt :: s in strikeQuotes && rt in strikeQuotes[s] ==>
        QuoteKey(s, e, rt) in book && strikeQuotes[s][rt] == book[QuoteKey(s, e, rt)].impliedVol
      decreases todo
    {
      var k := Choose(todo);
      if k.expiry == e {
        assert k == QuoteKey(k.strike, e, k.right);
        var vols := if k.strike in strikeQuotes then strikeQuotes[k.strike] else map[];
        strikeQuotes := strikeQuotes[k.strike := vols[k.right := book[k].impliedVol]];
      }
      todo := todo - {k};
      done := done + {k};
    }
  }

  /** The merged volatility of one strike's rights: the call/put average, else whichever of the two is there. */
  function CombinedVol(vols: map<OC.Field, real>): Option<real> {
    if CallRight in vols && PutRight in vols then Some((vols[CallRight] + vols[PutRight]) / 2.0)
    else if CallRight in vols then Some(vols[CallRight])
    else if PutRight in vols then Some(vols[PutRight])
    else None
  }

  /** The second loop of `get_surface_data`: one point for every strike that has a call or a put. */
  method MergeRights(strikeQuotes: map<real, map<OC.Field, real>>) returns (combined: map<real, real>)
    ensures forall s :: s in combined <==> s in strikeQuotes && CombinedVol(strikeQuotes[s]).Some?
    ensures forall s :: s in combined ==> Some(combined[s]) == CombinedVol(strikeQuotes[s])
  {
    combined := map[];
    var pending := strikeQuotes.Keys;
    while pending != {}
      invariant pending <= strikeQuotes.Keys
      invariant forall s :: s in combined ==> s in strikeQuotes && s !in pending
      invariant forall s :: s in strikeQuotes && s !in pending ==>
        (s in combined <==> CombinedVol(strikeQuotes[s]).Some?)
      invariant forall s :: s in combined ==> Some(combined[s]) == CombinedVol(strikeQuotes[s])
      decreases pending
    {
      var s := Choose(pending);
      var vols := strikeQuotes[s];
      if CallRight in vols && PutRight in vols {
        combined := combined[s := (vols[CallRight] + vols[PutRight]) / 2.0];
      } else if CallRight in vols {
        combined := combined[s := vols[CallRight]];
      } else if PutRight in vols {
        combined := combined[s := vols[PutRight]];
      }
      pending := pending - {s};
    }
  }

  /** The labels at i and j read as dates, the first before the second. */
  predicate LabelDatesAscendAt(labels: seq<string>, i: nat, j: nat)
    requires i < j < |labels|
  {
    && ParseYmd(labels[i]).Some? && ParseYmd(labels[j]).Some?
    && Before(ParseYmd(labels[i]).value, ParseYmd(labels[j]).value)
  }

  /** Every label reads as a date, and the dates strictly ascend. */
  predicate LabelDatesAscend(labels: seq<string>) {
    forall i, j :: 0 <= i < j < |labels| ==> LabelDatesAscendAt(labels, i, j)
  }

  /** The merged points of expiry e: exactly the strikes with a smile value, each with that value. */
  ghost predicate IsMergedSmile(book: Book, e: Date, combined: map<real, real>) {
    && (forall s :: s in combined <==> s in SurfaceStrikes(book, e))
    && (forall s :: s in combined ==> CombinedAt(book, e, s) == Some(combined[s]))
  }

  /** The two loops of `get_surface_data` together: group by strike, then merge the rights. */
  method MergedPoints(book: Book, e: Date) returns (combined: map<real, real>)
    ensures IsMergedSmile(book, e, combined)
  {
    var strikeQuotes := GroupByStrike(book, e);
    combined := MergeRights(strikeQuotes);
    forall s | s in strikeQuotes ensures CombinedVol(strikeQuotes[s]) == CombinedAt(book, e, s) {
      var vols := strikeQuotes[s];
      assert (CallRight in vols <==> QuoteKey(s, e, CallRight) in book)
          && (PutRight in vols <==> QuoteKey(s, e, PutRight) in book);
    }
    forall s ensures s in combined <==> s in SurfaceStrikes(book, e) {
      if s in SurfaceStrikes(book, e) {
        var k :| k in book && k.expiry == e && CombinedAt(book, e, k.strike).Some? && k.strike == s;
        assert QuoteKey(s, e, k.right) == k;
      }
    }
  }

  /** The sort by strike and the split into moneyness, volatility and strike lists. */
  method SortByStrike(combined: map<real, real>, spot: real, ln: real -> real) returns (pts: Surface)
    requires spot != 0.0
    ensures |pts.strikes| == |pts.vols| == |pts.moneyness|
    ensures Ascending(pts.strikes, RealLess)
    ensures forall s :: s in pts.strikes <==> s in combined
    ensures forall i :: 0 <= i < |pts.strikes| ==>
      && pts.strikes[i] in combined && pts.vols[i] == combined[pts.strikes[i]]
      && pts.moneyness[i] == ln(pts.strikes[i] / spot)
  {
    RealLessIsStrictTotalOrder(combined.Keys);
    var strikes := SortDistinct(combined.Keys, RealLess);
    var vols := seq(|strikes|, i requires 0 <= i < |strikes| => combined[strikes[i]]);
    var moneyness := seq(|strikes|, i requires 0 <= i < |strikes| => ln(strikes[i] / spot));
    pts := Surface(moneyness, vols, strikes);
  }

  /** Labels in string order are dates in date order, and each label reads back as its date. */
  lemma LabelsAscendAsDates(a: Date, b: Date)
    requires ValidDate(a) && ValidDate(b) && LexLess(FormatYmd(a), FormatYmd(b))
    ensures ParseYmd(FormatYmd(a)) == Some(a) && ParseYmd(FormatYmd(b)) == Some(b) && Before(a, b)
  {
    ParseFormat(a);
    ParseFormat(b);
    LabelOrder(a, b);
  }

  /** `sorted(set(expiries))[0]`: the earliest expiry of a stored key, or `None` for an empty book. */
  method EarliestExpiry(book: Book) returns (target: Option<Date>)
    ensures target.None? ==> forall e :: !IsEarliestExpiry(book, e)
    ensures target.Some? ==> IsEarliestExpiry(book, target.value)
  {
    var expirySet := set k | k in book :: k.expiry;
    BeforeIsStrictTotalOrder(expirySet);
    var expiries := SortDistinct(expirySet, Before);
    if expiries == [] {
      assert forall k :: k in book ==> k.expiry in expirySet;
      assert expirySet == {};
      assert book.Keys == {};
      return None;
    }
    var e := expiries[0];
    assert e in expirySet;
    forall k | k in book ensures !Before(k.expiry, e) {
      assert k.expiry in expiries;
    }
    return Some(e);
  }

  /**
   * The loop of `estimate_spot_from_quotes` over ascending strikes: the first
   * strike with both a call and a put whose volatility gap is strictly
   * smaller than every earlier one's, so the smallest gap, lowest strike first.
   */
  method ClosestPair(book: Book, target: Date, strikes: seq<real>) returns (best: Option<real>)
    requires Ascending(strikes, RealLess)
    ensures best.None? ==> forall j :: 0 <= j < |strikes| ==> !HasPair(book, target, strikes[j])
    ensures best.Some? ==> best.value in strikes && HasPair(book, target, best.value)
    ensures best.Some? ==> forall j :: 0 <= j < |strikes| && HasPair(book, target, strikes[j]) ==>
      Gap(book, target, best.value) < Gap(book, target, strikes[j])
      || (Gap(book, target, best.value) == Gap(book, target, strikes[j]) && best.value <= strikes[j])
  {
    best := None;
    var bestSpread := 0.0;
    ghost var bestIndex := 0;
    var i := 0;
    while i < |strikes|
      invariant 0 <= i <= |strikes|
      invariant best.None? ==> forall j :: 0 <= j < i ==> !HasPair(book, target, strikes[j])
      invariant best.Some? ==>
        && bestIndex < i && strikes[bestIndex] == best.value
        && HasPair(book, target, best.value) && bestSpread == Gap(book, target, best.value)
      invariant best.Some? ==> forall j :: 0 <= j < i && HasPair(book, target, strikes[j]) ==>
        bestSpread < Gap(book, target, strikes[j])
        || (bestSpread == Gap(book, target, strikes[j]) && best.value <= strikes[j])
    {
      var strike := strikes[i];
      var callKey, putKey := QuoteKey(strike, target, CallRight), QuoteKey(strike, target, PutRight);
      if callKey in book && putKey in book {
        var spread := Abs(book[callKey].impliedVol - book[putKey].impliedVol);
        if best.None? || spread < bestSpread {
          bestSpread := spread;
          best := Some(strike);
          bestIndex := i;
        }
      }
      i := i + 1;
    }
  }

  // ---------------------------------------------------------------------------
  // The store
  // ---------------------------------------------------------------------------

  /** `VolatilitySurface`: the quotes of every root seen so far. */
  class VolatilitySurface {
    var quotes: map<OC.Field, Book>
    var targetDate: string
    var todayExpiry: string

    /** Every stored point agrees with its key and carries an admitted volatility. */
    ghost predicate Valid()
      reads this
    {
      forall root :: root in quotes ==> BookValid(quotes[root])
    }

    /** An empty store; the target date defaults to today's label when none (or an empty one) is given. */
    constructor(targetDate: Option<string>, today: Date)
      requires ValidDate(today)
      ensures Valid() && quotes == map[]
      ensures this.targetDate == if targetDate.Some? && targetDate.value != "" then targetDate.value else FormatYmd(today)
      ensures todayExpiry == FormatYmd(today)
    {
      quotes := map[];
      this.targetDate := if targetDate.Some? && targetDate.value != "" then targetDate.value else FormatYmd(today);
      todayExpiry := FormatYmd(today);
    }

    /**
     * `update_quote`: an exception leaves the store as it was; otherwise the
     * root gets a book if it had none, and an admitted point replaces
     * whatever its key held, leaving every other key and root alone.
     */
    method UpdateQuote(contract: OC.Dict, quote: QuoteData, spot: Option<real>, today: Date,
                       solver: IvSolver, now: real) returns (outcome: Outcome)
      requires Valid() && ValidDate(today)
      modifies this
      ensures Valid()
      ensures outcome == Assess(contract, quote, spot, today, solver, now)
      ensures targetDate == old(targetDate) && todayExpiry == old(todayExpiry)
      ensures outcome == Raised ==> quotes == old(quotes)
      ensures outcome != Raised ==>
        var root := DecodeContract(contract).value.root;
        quotes == old(quotes)[root := Apply(BookOf(old(quotes), root), outcome)]
    {
      var fields := DecodeContract(contract);
      if fields.None? {
        return Raised;
      }
      var root := fields.value.root;
      if root !in quotes {
        quotes := quotes[root := map[]];
      }
      outcome := Assess(contract, quote, spot, today, solver, now);
      if outcome.Stored? {
        quotes := quotes[root := quotes[root][outcome.key := outcome.point]];
      }
      ApplyKeepsBookValid(BookOf(old(quotes), root), contract, quote, spot, today, solver, now);
    }

    /** `get_expiries`: the distinct expiration labels of the root, ascending as strings and so as dates. */
    method GetExpiries(root: OC.Field) returns (expiries: seq<string>)
      requires Valid()
      ensures root !in quotes ==> expiries == []
      ensures forall s :: s in expiries <==>
        root in quotes && exists k :: k in quotes[root] && ValidDate(k.expiry) && s == FormatYmd(k.expiry)
      ensures Ascending(expiries, LexLess)
      ensures LabelDatesAscend(expiries)
    {
      if root !in quotes {
        return [];
      }
      var book := quotes[root];
      var labels := set k | k in book && ValidDate(k.expiry) :: FormatYmd(k.expiry);
      LexIsStrictTotalOrder(labels);
      expiries := SortDistinct(labels, LexLess);
      forall i, j | 0 <= i < j < |expiries|
        ensures LabelDatesAscendAt(expiries, i, j)
      {
        assert expiries[i] in labels && expiries[j] in labels;
        var ki :| ki in book && ValidDate(ki.expiry) && expiries[i] == FormatYmd(ki.expiry);
        var kj :| kj in book && ValidDate(kj.expiry) && expiries[j] == FormatYmd(kj.expiry);
        LabelsAscendAsDates(ki.expiry, kj.expiry);
      }
    }

    /**
     * `get_surface_data`: `None` for an unknown or empty root or when no
     * strike of the selected expiry has a call or a put; an exception for an
     * unparsable expiry label or a missing or zero spot; otherwise one point
     * per strike, ascending, with the merged volatility and ln(strike/spot).
     */
    method GetSurfaceData(root: OC.Field, selectedExpiry: string, spot: Option<real>, ln: real -> real)
      returns (r: SurfaceResult)
      requires Valid()
      ensures root !in quotes || quotes[root] == map[] ==> r == NoData
      ensures root in quotes && quotes[root] != map[] && ParseYmd(selectedExpiry).None? ==> r == Failed
      ensures root in quotes && quotes[root] != map[] && ParseYmd(selectedExpiry).Some? ==>
        var book, e := quotes[root], ParseYmd(selectedExpiry).value;
        && (SurfaceStrikes(book, e) == {} ==> r == NoData)
        && (SurfaceStrikes(book, e) != {} && (spot.None? || spot.value == 0.0) ==> r == Failed)
        && (SurfaceStrikes(book, e) != {} && spot.Some? && spot.value != 0.0 ==> r.Smile?)
      ensures r.Smile? ==>
        var book, e, pts := quotes[root], ParseYmd(selectedExpiry).value, r.surface;
        && |pts.strikes| == |pts.vols| == |pts.moneyness|
        && Ascending(pts.strikes, RealLess)
        && (forall s :: s in pts.strikes <==> s in SurfaceStrikes(book, e))
        && (forall i :: 0 <= i < |pts.strikes| ==>
              && CombinedAt(book, e, pts.strikes[i]) == Some(pts.vols[i])
              && MinIv <= pts.vols[i] <= MaxIv
              && pts.moneyness[i] == ln(pts.strikes[i] / spot.value))
    {
      if root !in quotes || quotes[root] == map[] {
        return NoData;
      }
      var book := quotes[root];
      var parsed := ParseYmd(selectedExpiry);
      if parsed.None? {
        return Failed;
      }
      var e := parsed.value;

      var combined := MergedPoints(book, e);
      if combined == map[] {
        assert forall s :: s !in SurfaceStrikes(book, e);
        return NoData;
      }
      forall s | s in combined.Keys ensures s in SurfaceStrikes(book, e) {
        assert s in combined;
      }
      NonEmptySubset(combined.Keys, SurfaceStrikes(book, e));
      if spot.None? || spot.value == 0.0 {
        return Failed;
      }
      var pts := SortByStrike(combined, spot.value, ln);
      forall i | 0 <= i < |pts.strikes| ensures MinIv <= pts.vols[i] <= MaxIv {
        CombinedAtInRange(book, e, pts.strikes[i]);
      }
      return Smile(pts);
    }

    /**
     * `estimate_spot_from_quotes`: among the strikes of the earliest expiry
     * that have both a call and a put, the one whose two volatilities are
     * closest, the lowest such strike on a tie; `None` when there is none.
     */
    method EstimateSpotFromQuotes(root: OC.Field) returns (r: Option<real>)
      requires Valid()
      ensures root !in quotes ==> r == None
      ensures r.None? ==>
        (root !in quotes || forall e, s :: IsEarliestExpiry(quotes[root], e) ==> !HasPair(quotes[root], e, s))
      ensures r.Some? ==>
        (root in quotes &&
         exists e :: IsEarliestExpiry(quotes[root], e) && HasPair(quotes[root], e, r.value) &&
           forall s :: HasPair(quotes[root], e, s) ==>
             (Gap(quotes[root], e, r.value) < Gap(quotes[root], e, s)
              || (Gap(quotes[root], e, r.value) == Gap(quotes[root], e, s) && r.value <= s)))
    {
      if root !in quotes {
        return None;
      }
      var book := quotes[root];
      var earliest := EarliestExpiry(book);
      if earliest.None? {
        return None;
      }
      var target := earliest.value;

      // The strike list is never empty here: the earliest expiry is the expiry of a stored key.
      var strikeSet := set k | k in book && k.expiry == target :: k.strike;
      RealLessIsStrictTotalOrder(strikeSet);
      var strikes := SortDistinct(strikeSet, RealLess);
      r := ClosestPair(book, target, strikes);

      forall e, s | IsEarliestExpiry(book, e) && HasPair(book, e, s)
        ensures e == target && s in strikes
      {
        EarliestExpiryUnique(book, e, target);
        assert QuoteKey(s, e, CallRight) in book;
      }
    }
  }
}
