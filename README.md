# greek_processor core, modelled in Dafny

This project models the decision and data-structure logic of an options
market-data toolkit:

- **The option-chain service** (`option_chain.py`):
  - a layered, first-match-wins classifier that labels one option trade BUY, SELL or UNKNOWN from the quote before and after it;
  - the filter that keeps the tradeable, unexpired contracts of a bulk quote response, in input order;
  - the contract key `root_expiration_strike_right`;
  - the websocket subscription message for one contract.
- **Two trade classifiers** (`main.py`, `classify_trades.py`):
  - the midpoint aggressor rule, under which a print at or above (bid + ask) / 2 is a buy;
  - the signed premium and signed size of a trade;
  - three builders that pre-allocate a call column and a put column and write each trade's signed value at the trade's own index, visiting the trades in time order. `classify_trades.py` reports dollar premium: price × size × 100.
- **The implied-volatility quote store** (`volatility_surface.py`):
  - per root, a book keyed by (strike, expiry, right);
  - admission filters: a positive bid and ask, a relative spread of at most 15 %, a spot, an unexpired contract, and an implied volatility in [0.05, 2.0];
  - a last-write-wins update;
  - the sorted expiration labels;
  - the put/call-merged volatility smile of one expiry;
  - the at-the-money strike estimate, which picks the strike of the earliest expiry whose call and put volatilities are closest.
- **The Newton divided-difference interpolator** (`curve_fitting.py`):
  - the coefficient array, rewritten in place column by column;
  - Horner evaluation;
  - the range-checked call.

Modelling choices:

- Prices, sizes, volatilities and coordinates are exact `real`s.
- The implied-volatility solver, the spot price, today's date, the wall clock and the natural logarithm are parameters.
- The time-sort order (`np.argsort`) is a parameter, and the only thing known about it is that it visits every index exactly once. The results are then proved not to depend on it.
- Python dictionaries are Dafny maps.
- Python's `datetime.strptime(s, '%Y%m%d')` is modelled with the first-match semantics of its regular expression. So is `strftime('%Y%m%d')`.
- `str < str` is modelled as lexicographic order.

Modules:

- `Types`: shared vocabulary.
- `Sorting`: string order, and `sorted(set(...))`.
- `Dates`: calendar dates, `strptime`, `strftime` and day counts.
- `OptionChain`.
- `TradeFlow`: `main.py`.
- `PremiumFlow`: `classify_trades.py`.
- `NewtonForm`: the mathematics of the Newton form.
- `CurveFitting`: the interpolator class.
- `VolSurface`: the quote store class.

## Model

| member | source | states |
|---|---|---|
| OptionChain.ClassifyTrade | option_chain.py:83-142 | The step order is first match wins. Step 1: a trade at the ask whose ask size then shrinks is BUY whatever else holds. Otherwise a trade at the bid whose bid size shrinks is SELL. Step 2: without step 1, an ask that falls with an unchanged bid gives BUY, and a bid that rises with an unchanged ask gives SELL. Step 3: strictly inside the spread, a relative position above 0.9 gives BUY and below 0.1 gives SELL. Between those, a shrinking ask size with an unchanged bid size gives BUY and the reverse gives SELL. Then a falling ask gives BUY and a rising bid SELL. Then a position above 0.7 gives BUY and below 0.3 SELL. Step 4: above the ask gives BUY; otherwise below the bid gives SELL. Step 5: when no earlier rule decides and the price is within the quote, the direction of the midpoint decides: rising gives BUY, falling SELL, unchanged UNKNOWN. UNKNOWN arises only that way. |
| OptionChain.MirrorSymmetry | option_chain.py:87-140 | Negate every price and swap the bid and ask sides (prices and sizes): BUY and SELL are exchanged and UNKNOWN stays. This holds except where first-match order breaks a tie towards BUY. |
| OptionChain.QuoteHitTieGoesToBuy | option_chain.py:87-90 | On a locked quote where both sizes shrink, step 1 answers BUY, and the mirrored trade is BUY too. |
| OptionChain.AdmitConditions | option_chain.py:29-60 | An entry contributes a contract exactly when: it has a contract and a quote; expiration, strike and right are truthy; bid > 0 and ask > 0; `str(expiration)` parses as a date strictly after today; and root, bid_size and ask_size are present. The contract copies those fields. |
| OptionChain.ActiveExactly | option_chain.py:25-63 | The kept contracts are those of the admitted entries, in input order: output k comes from entry idx[k], the idx are increasing, and entry i is among them exactly when it is admitted. |
| OptionChain.FilterActiveContracts | option_chain.py:25-63 | The append loop returns exactly the admitted contracts in input order (a missing `response` key counts as the empty list). Its length is at most the input's, and every result comes from some admitted entry. |
| OptionChain.GetContractKey | option_chain.py:145-147 | A key exists exactly when root, expiration, strike and right are all present (otherwise the lookup raises). |
| OptionChain.ContractKeyRoundTrip | option_chain.py:145-147 | Splitting the key at `_` gives back root, expiration, strike and right, in that order, when no field contains `_`. |
| OptionChain.ContractKeyCollision | option_chain.py:145-147 | With an underscore inside a field, two different contracts get the same key. |
| OptionChain.CreateStreamRequest | option_chain.py:66-80 | The message is a STREAM request for an OPTION with `add` set. It carries the given request type ("TRADE" by default) and stream id, and a contract object with exactly the four keys root, expiration, strike and right, copied from the contract. |
| OptionChain.StreamRequestKeepsKey | option_chain.py:66-80 | A subscription built from a filtered contract has the same contract key as the response entry the contract came from. |
| Dates.ParseFormat | volatility_surface.py:144 | Parsing a label written by `strftime('%Y%m%d')` gives back the date. |
| Dates.FormatInjective | volatility_surface.py:144 | Two different dates never get the same label, so the label set has one label per stored expiry. |
| Dates.ParseAcceptsShortMonth | option_chain.py:44 | The pattern is lenient: "2025130" is accepted as 30 January 2025. |
| Dates.LabelOrder | volatility_surface.py:144 | Labels compare as strings exactly as their dates compare. |
| Dates.OrdinalOrder | volatility_surface.py:113 | `(expiry - today).days` is positive exactly when the expiry is after today. |
| Sorting.SortDistinct | volatility_surface.py:33 | `sorted(set(...))` returns each element once, strictly ascending under the given order. |
| TradeFlow.GetAggressor | main.py:61-67 | The aggressor is never UNKNOWN. |
| TradeFlow.AggressorThreshold | main.py:61-67 | BUY exactly when price ≥ (bid + ask) / 2, SELL exactly below it, and BUY at the midpoint. |
| TradeFlow.AgreesWithLayeredClassifier | main.py:61-67 | The midpoint rule and the layered classifier agree for a print strictly outside an uncrossed quote, when steps 1 and 2 of the layered classifier do not fire. |
| TradeFlow.GetPremium | main.py:69-74 | The premium is price × size for a buy and −price × size for a sell. |
| TradeFlow.GetSizeFlow | main.py:95-99 | The size flow is +size for a buy and −size for a sell. |
| TradeFlow.PremiumIsPriceTimesSizeFlow | main.py:69-99 | The signed premium is the price times the signed size. |
| TradeFlow.InlinePremiumIsGetPremium | main.py:44-51 | The premium that `classify_trades` computes inline equals `get_premium`. |
| TradeFlow.ColumnsSplitEachTrade | main.py:53-56 | At every index one of the two columns holds 0, and the two add up to the trade's value. |
| TradeFlow.RouteByRight | main.py:81-91 | Visiting the indices in any order that covers each index exactly once fills the call column with the value of every "C" trade at its own index and the put column with every other trade's. Every other entry keeps its 0. Both arrays are new. |
| TradeFlow.ClassifyTrades | main.py:29-58 | The call and put columns hold `get_premium` of each trade, routed by right, whatever the visiting order. |
| TradeFlow.CalculateNetPremiums | main.py:76-93 | The same columns as `classify_trades`: `get_premium` routed by right, whatever the visiting order. |
| TradeFlow.CalculateNetFlow | main.py:101-119 | The call and put columns hold `get_size_flow` of each trade, routed by right, whatever the visiting order. |
| PremiumFlow.GetAggressor | classify_trades.py:17-23 | BUY exactly when price ≥ the bid/ask midpoint, otherwise SELL. |
| PremiumFlow.SameAggressorRule | classify_trades.py:17-23 | This classifier's aggressor is the same as `main.py`'s for every trade. |
| PremiumFlow.GetSizeFlow | classify_trades.py:26-29 | The size flow is ±size, and +size exactly for a buy or a zero size. |
| PremiumFlow.SameSizeFlow | classify_trades.py:26-29 | This classifier's size flow is the same as `main.py`'s for every trade. |
| PremiumFlow.ContractPremiumScalesPremium | classify_trades.py:43-49 | The dollar premium is 100 times `main.py`'s `get_premium`. |
| PremiumFlow.ContractPremiumSign | classify_trades.py:43-49 | Each entry has magnitude 100 × price × size. For a positive price and size it is negative exactly when price < midpoint. |
| PremiumFlow.CalculateNetFlow | classify_trades.py:32-56 | Two columns of the input's length, whatever the visiting order. A "C" trade's dollar premium goes to the call column, any other right's to the put column, and each entry is 100 times the `main.py` premium column at that index. |
| NewtonForm.HornerIsNewtonSum | curve_fitting.py:20-25 | Horner's nesting equals the Newton sum Σ c_i Π_{j<i}(t − x_j). |
| NewtonForm.NewtonSumPeel | curve_fitting.py:20-25 | The Newton sum over nodes i..m is c_i plus (t − x_i) times the Newton sum over nodes i+1..m: the step one pass of Horner's loop takes. |
| NewtonForm.TableFollowsRecurrence | curve_fitting.py:14-16 | The divided differences hold y_k on the diagonal and satisfy f[x_i..x_j]·(x_j − x_i) = f[x_{i+1}..x_j] − f[x_i..x_{j−1}], the update the nested loop performs. |
| NewtonForm.PartialDifference | curve_fitting.py:14-16 | For any table satisfying that recurrence, the Newton polynomials through nodes i..m and i+1..m differ by table(i, m) times the product of (t − x_l) over nodes i+1..m and (t − x_m) (Neville's recurrence). |
| NewtonForm.PartialInterpolates | curve_fitting.py:14-16 | For any table satisfying that recurrence, the Newton polynomial through nodes i..m takes the diagonal value table(k, k) at every node x_k with i ≤ k ≤ m. |
| NewtonForm.NewtonSumIsPartial | curve_fitting.py:14-25 | The Newton sum of the coefficients over the first m nodes is the Newton polynomial of the divided-difference table through nodes 0..m−1. |
| NewtonForm.Interpolates | curve_fitting.py:7-25 | For distinct nodes, Horner evaluation of the Newton coefficients at x_k gives y_k for every k. |
| NewtonForm.SinglePointIsConstant | curve_fitting.py:12-25 | With one data point the interpolant is the constant y_0. |
| NewtonForm.ZeroTailDropsLaterPoints | curve_fitting.py:11-12 | Starting the table from y_0 and zeros yields the polynomial through (x_0, y_0) and (x_k, 0): y_0 at x_0 and 0 at every later node. |
| NewtonForm.ZeroTailMissesSecondPoint | curve_fitting.py:11-12 | For x = [0, 1] and y = [1, 1] the table as written evaluates to 0 at x = 1, where the data say 1. |
| CurveFitting.DividedDifferencePass | curve_fitting.py:15-16 | One pass j of the inner downward loop moves every entry from index j on one column further along the divided-difference table and leaves the lower entries alone. |
| CurveFitting.DividedDifferencesInPlace | curve_fitting.py:14-16 | The nested loop turns an array holding y into the Newton coefficients of the points (x, y). |
| CurveFitting.HornerLoop | curve_fitting.py:21-25 | The downward loop computes Horner's nesting of the coefficients at t. |
| CurveFitting.NewtonGaussInterpolator.constructor | curve_fitting.py:4-7 | The object stores the points and holds their Newton coefficients. The table is started from y (the corrected table). The source's `__init__` builds the table started from y_0 and zeros, which is `ComputeDividedDifferencesAsWritten`. |
| CurveFitting.NewtonGaussInterpolator.ComputeDividedDifferences | curve_fitting.py:9-18 | The array has `len(x_data)` entries and coeffs[0] == y_0, and it holds the divided differences f[x_0..x_k] of the data. |
| CurveFitting.NewtonGaussInterpolator.ComputeDividedDifferencesAsWritten | curve_fitting.py:9-18 | The array has `len(x_data)` entries and coeffs[0] == y_0, but it holds the divided differences of (x_0, y_0), (x_1, 0), ..., (x_{n-1}, 0). |
| CurveFitting.NewtonGaussInterpolator.Interpolate | curve_fitting.py:20-25 | The Horner loop returns the Newton form's value at t. On the object with the corrected table it returns y_k at t = x_k for every k, and y_0 for a single point. The source's object holds the zero-tail coefficients, where the same loop gives 0 at every later node (NewtonForm.ZeroTailDropsLaterPoints, NewtonForm.ZeroTailMissesSecondPoint). |
| CurveFitting.NewtonGaussInterpolator.Call | curve_fitting.py:27-30 | No value (NaN) exactly when t < x_0 or t > x_{n-1}. Otherwise the interpolant, which on the corrected table meets the data at every node, endpoints included. On the source's zero-tail table it meets only (x_0, y_0) (NewtonForm.ZeroTailDropsLaterPoints). |
| VolSurface.DecodeContract | volatility_surface.py:78-81 | The contract reads without an exception exactly when root, strike, expiration and right are present, the strike converts to a number and the expiration parses. The expiry is then a calendar date. The decoded fields are the contract's root and right, its strike divided by 1000, and its parsed expiration. |
| VolSurface.Assess | volatility_surface.py:76-138 | Raised exactly when the contract does not read. A stored point is keyed by (strike/1000, expiry, right), agrees with its key, has a volatility in [0.05, 2.0] and is stamped with the current time. |
| VolSurface.NonPositiveQuoteSkipped | volatility_surface.py:89-95 | A missing, zero or negative bid or ask is skipped before any other check. |
| VolSurface.SpreadFilter | volatility_surface.py:97-101 | With a positive bid and ask, the quote is skipped as too wide exactly when (ask − bid) / mid > 0.15. A spread of exactly 15 % passes. |
| VolSurface.NoSpotSkipped | volatility_surface.py:107-110 | With a positive bid and ask and a spread within 15 %, the quote is skipped for want of a spot exactly when the spot is missing or zero. |
| VolSurface.ExpiredSkipped | volatility_surface.py:112-116 | Past the earlier checks, the quote is skipped as expired exactly when its expiry is not after today. |
| VolSurface.VolatilityFilter | volatility_surface.py:118-133 | A quote that reaches the solver is stored exactly when the solver gives a volatility in [0.05, 2.0], both bounds included. The stored point carries that volatility. |
| VolSurface.StoredExactly | volatility_surface.py:86-133 | A quote is stored exactly when it passes every check: the contract reads, bid and ask are positive, the spread is at most 15 % of the midpoint, a non-zero spot is known, the expiry is after today and the solver's volatility is in [0.05, 2.0]. It is then stored under (strike/1000, expiry, right) with that volatility. |
| VolSurface.Apply | volatility_surface.py:127-133 | A stored point replaces whatever its key held; every other key keeps its point and no key appears from nowhere. |
| VolSurface.ApplyKeepsBookValid | volatility_surface.py:127-133 | Storing an admitted point keeps every stored point consistent with its key and within the volatility range. |
| VolSurface.CombinedAtInRange | volatility_surface.py:172-179 | A merged volatility lies between the call's and the put's, so within [0.05, 2.0]. |
| VolSurface.EarliestExpiryUnique | volatility_surface.py:33-37 | The earliest stored expiry is unique. |
| VolSurface.EarliestExpiry | volatility_surface.py:33-37 | None only when the book has no earliest expiry (it is empty). Otherwise an expiry of a stored key that no stored expiry precedes. |
| VolSurface.ClosestPair | volatility_surface.py:45-61 | Over ascending strikes: None exactly when no strike has both a call and a put. Otherwise such a strike whose call/put volatility gap is the smallest, the lowest strike on a tie. |
| VolSurface.GroupByStrike | volatility_surface.py:163-168 | The strike → right → volatility table of an expiry holds exactly the stored keys of that expiry, with their volatilities. |
| VolSurface.MergeRights | volatility_surface.py:171-179 | One point per strike with a call or a put: the call/put average when both exist, otherwise the one present. |
| VolSurface.MergedPoints | volatility_surface.py:162-179 | The merged points are exactly the strikes of the expiry with a smile value, each with that value. |
| VolSurface.SortByStrike | volatility_surface.py:184-190 | The strikes are ascending and are exactly the merged ones; vols[i] and moneyness[i] = ln(strike/spot) belong to strikes[i]. |
| VolSurface.LabelsAscendAsDates | volatility_surface.py:144 | Labels in string order read back as their dates, in date order. |
| VolSurface.VolatilitySurface.constructor | volatility_surface.py:17-24 | An empty store. The target date defaults to today's label when none (or an empty one) is given, and the today label is today's. |
| VolSurface.VolatilitySurface.UpdateQuote | volatility_surface.py:76-138 | The outcome is `Assess`'s and the store stays valid. After an exception nothing changes. Otherwise the root gets a book if it had none and an admitted point replaces its key's old point; every other key and root is unchanged. |
| VolSurface.VolatilitySurface.GetExpiries | volatility_surface.py:140-146 | `[]` for an unknown root. Otherwise exactly the labels of the stored expiries, strictly ascending as strings and so as dates, with no duplicates. |
| VolSurface.VolatilitySurface.GetSurfaceData | volatility_surface.py:148-194 | None for an unknown or empty root. An exception for an unparsable label. None when no strike of the expiry has a call or a put. An exception when the spot is missing or zero. Otherwise one point per such strike in ascending order, with the merged volatility (within [0.05, 2.0]) and ln(strike/spot). |
| VolSurface.VolatilitySurface.EstimateSpotFromQuotes | volatility_surface.py:26-61 | None for an unknown root, and otherwise None exactly when no strike of the earliest expiry has both a call and a put. Else the strike of that expiry with both, whose call/put volatility gap is smallest, the lowest strike on a tie. |

## Left out

- `format_quote` (option_chain.py:150-153) is display-only float formatting and is not modelled.
- `get_spot_price` (volatility_surface.py:63-74):
  - The once-a-second spot cache is not modelled, and neither is the `MarketDataService` behind it.
  - The default of 590 is not modelled either.
  - The spot is a parameter of `UpdateQuote` and `GetSurfaceData`.
  - The spot caches and the service object the constructor creates (volatility_surface.py:19-21) are therefore not fields of the class.
- `black_scholes_implied_vol` (volatility_surface.py:196-212) is floating-point bisection over the normal CDF. It is a parameter `solver`, and the filters around it are modelled.
- `update_surface` (volatility_surface.py:214-281) is plotting code that uses attributes the class does not have. It is not modelled.
- `market_data.py` is not part of this model: it does HTTP fetches.
- The wall clock is a parameter:
  - `date.today()`, `datetime.now()` and the module-level `today` label are parameters.
  - The constructor's message and every other `print` are not modelled.
- Floating point: IEEE rounding, NaN and infinities are not modelled. Prices and volatilities are exact reals.
- NewtonGaussInterpolator.Call: the NaN return value is modelled as "no value". What NumPy does with a NaN argument is not modelled.
- NewtonGaussInterpolator.constructor:
  - The modelled object holds the corrected table, started from a copy of y. The source's `__init__` builds the table started from y_0 and zeros (see "## Findings"). So the interpolation properties stated for `Interpolate` and `Call` are those of the corrected object. For the object the source builds, the model has the zero-tail table and its lemmas instead.
  - It requires at least one point and `len(x) == len(y)`. The source raises an IndexError on empty data; with fewer y values than x values, the corrected table reads past the end of y.
  - It requires pairwise-distinct x values. Repeated x values make the source divide by zero, and NumPy then fills the table with infinities and NaN, which exact reals cannot express.
- The ComputeDividedDifferences methods require the same distinct x values as the constructor, for the same reason.
- VolSurface.ToFloat: `float(text)` is read only for plain ASCII digit strings. Signs, a decimal point, exponents, whitespace, underscores and non-ASCII digits are treated as not a number.
- Dates.ParseYmd:
  - The four year digits, month and day are read as ASCII digits only; Python's `\d` also accepts other Unicode digits.
  - strptime's case folding and whitespace handling inside the pattern are not modelled.
- Dates.FormatYmd: the model writes the year with four digits, padding with zeros. It only uses labels of valid dates (years 1 to 9999), for which this is how Python writes them.
- OptionChain.Show: `str()` is modelled for None, text and integers only. JSON floats and booleans in contract fields are not modelled.
- OptionChain.FilterActiveContracts:
  - A `response` value that is present but null makes the source loop raise out of the function. The model only distinguishes a missing key (empty) from a list.
  - The "Filtered N contracts" print is not modelled.
  - The `config` argument is unused by the source and is left out.
- TradeFlow.ClassifyTrades:
  - `np.argsort` over the trade times is the parameter `order`. Its contract assumes only that `order` visits each index once.
  - The trade times are otherwise unused.
  - The `TradeClassifier` instance is just its trade list, passed as a parameter.
- VolSurface.VolatilitySurface.GetSurfaceData:
  - The one-element tuple around the result is the `Smile` constructor.
  - The `combined_points` list is a map keyed by strike, then sorted. Strikes are unique after grouping, so the two agree.
  - With a zero spot, Python floats raise ZeroDivisionError, which is modelled as an exception. NumPy floats would give infinities instead.
  - `np.log` is the parameter `ln`.
- VolSurface.VolatilitySurface.EstimateSpotFromQuotes: `float('inf')` as the first best spread is modelled as "no best strike yet". The two agree because every gap is finite.
- Dictionary iteration order is modelled as an arbitrary order. Only results that do not depend on it are stated.

## Findings

| source | as written | input that shows it | evidently intended | confidence | as-written member | corrected member |
|---|---|---|---|---|---|---|
| curve_fitting.py:11-12 | The coefficient table starts as y_0 followed by zeros, so the divided differences are those of (x_0, y_0), (x_1, 0), ..., (x_{n-1}, 0). No y value after the first is ever read (NewtonForm.ZeroTailDropsLaterPoints). | x = [0, 1], y = [1, 1]: `interpolate(1)` gives 0 instead of 1 (NewtonForm.ZeroTailMissesSecondPoint). | Start the table from a copy of y_data. The interpolant then passes through every data point, as the class is meant to do (NewtonForm.Interpolates). | high; not executed | CurveFitting.NewtonGaussInterpolator.ComputeDividedDifferencesAsWritten | CurveFitting.NewtonGaussInterpolator.ComputeDividedDifferences |
