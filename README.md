# DeFi dashboard list pipeline — a verified Dafny model

This project models the list logic behind the two dashboard screens of a
React Native app that shows DefiLlama chain statistics:

- the **chain list** (`screens/ChainsScreen.tsx`): the fetched chain records,
  or nothing while loading, are filtered by a case-insensitive substring
  search on the name and then sorted in place by `Array.prototype.sort` under
  one of three keys — `tvl` (descending, absent read as 0), `name` (ascending
  under `localeCompare`) or `protocols` (descending, absent read as 0);
- the **change indicator** on each chain card: "trending up" when a non-zero
  previous-day value exists and the current value exceeds it, and the
  percentage change, guarded against a missing or zero previous value;
- the **list key**: the CoinGecko identifier when present and non-empty,
  otherwise the name;
- the **overview aggregates** (`screens/OverviewScreen.tsx`): the total value
  locked as a left fold with absent values read as 0, and the first five
  chains as received, numbered from 1.

Modules: `Wrappers` (Option), `Chains` (the record and the `|| 0` defaults),
`Text` (lower-casing and `includes`), `ArraySort` (the engine's stable
in-place sort, generic in the element type and comparator), `ChainsScreen`
and `OverviewScreen`.

Modelling choices:

- `toLowerCase` is a per-character map and `localeCompare` a function from
  two strings to an integer, both passed in by the caller, because both
  depend on the platform's Unicode and locale tables. Of `localeCompare` the
  model assumes only that it is a total preorder (`ChainsScreen.LocaleOrder`).
- ECMA-262 (since the 2019 edition) requires `Array.prototype.sort` to be
  stable for a consistent comparator but fixes no algorithm; `ArraySort.Sort`
  is an insertion sort over an `array`, proved against what the standard
  requires: sorted, stable, and a permutation. Stability is stated as
  `SameTies`: for every element `y`, the elements tied with `y` appear in the
  output in exactly the order they had in the input. `SortedStableUnique`
  shows that sortedness and stability determine the result, so any
  conforming engine sort yields the same list.
- Numbers are `real` (value locked) and `int` (protocol count); a missing
  field is `None`. The TypeScript interface declares `tvl` as a required
  number, but the code guards it with `|| 0`, so the model lets it be absent.
- On a card, a missing (`undefined`) current value makes
  `chain.tvl > chain.tvlPrevDay` false and the percentage `NaN`, and
  `ChangePercent` returns `None` for it.
- The direction is "up" only when the previous value is present and non-zero
  (`chain.tvlPrevDay && …`) and the current value exceeds it.

## Model

| member | source | states |
|---|---|---|
| `ArraySort.Sort` | screens/ChainsScreen.tsx:83-94 | the array is reordered in place into a sorted, stable permutation of its old contents (the ECMA-262 contract of `sort` with a consistent comparator) |
| `ArraySort.InsertLast` | screens/ChainsScreen.tsx:83-94 | one step of the sort moves the next element left past exactly the elements that must follow it, leaving the rest of the array alone |
| `ArraySort.SortedStableUnique` | screens/ChainsScreen.tsx:83-94 | two sequences that are both sorted and stable reorderings of the same input are equal, so the sorted list is determined by its input |
| `ArraySort.SameTiesPermutation` | screens/ChainsScreen.tsx:83-94 | a stable reordering loses, adds and duplicates nothing: it has the same multiset |
| `ChainsScreen.Compare` | screens/ChainsScreen.tsx:83-94 | the comparator of each key: negative exactly when the first record holds more value (or protocols, or its name ranks first under the locale), zero exactly on equal keys; characterised further by SortedByTvl, SortedByName and SortedByProtocols |
| `ChainsScreen.ComparatorConsistent` | screens/ChainsScreen.tsx:83-94 | the comparator for each of the three keys is consistent (antisymmetric sign, transitive), given a locale comparison that is a total preorder |
| `ChainsScreen.SortedByTvl` | screens/ChainsScreen.tsx:85-86 | sorted under the `tvl` key holds iff `tvl` (absent read as 0) never increases along the list |
| `ChainsScreen.SortedByName` | screens/ChainsScreen.tsx:87-88 | sorted under the `name` key holds iff names never decrease under `localeCompare` |
| `ChainsScreen.SortedByProtocols` | screens/ChainsScreen.tsx:89-90 | sorted under the `protocols` key holds iff `protocols` (absent read as 0) never increases along the list |
| `ChainsScreen.FilterChains` | screens/ChainsScreen.tsx:78-80 | every kept record's lower-cased name includes the lower-cased search text; each matching record is kept as often as it occurs, each other one never |
| `ChainsScreen.FilterConcat` | screens/ChainsScreen.tsx:78-80 | the filter distributes over concatenation, so it keeps the received order |
| `ChainsScreen.EmptySearchKeepsAll` | screens/ChainsScreen.tsx:78-80 | with an empty search text the filter returns its input unchanged |
| `Text.IncludesIffSubstring` | screens/ChainsScreen.tsx:79 | `includes` holds iff the search text occurs at some position of the name |
| `ChainsScreen.ProcessChains` | screens/ChainsScreen.tsx:75-97 | no data gives the empty list; otherwise the output is sorted by the key, stable and a permutation of the filtered records, all of them matching, each match kept with its multiplicity, nothing dropped for an empty search |
| `ChainsScreen.DerivedViewDeterministic` | screens/ChainsScreen.tsx:75-97 | two outputs meeting the pipeline's contract for the same inputs are equal |
| `ChainsScreen.TvlSortExample` | screens/ChainsScreen.tsx:85-86 | sorting `[A: 5, B: 10, C: absent]` by `tvl` gives `[B, A, C]` |
| `ChainsScreen.NameSortExample` | screens/ChainsScreen.tsx:87-88 | sorting `[banana, Apple]` by `name` gives `[Apple, banana]` when the locale ranks Apple first |
| `ChainsScreen.TrendsUp` | screens/ChainsScreen.tsx:34-48 | "up" needs a present, non-zero previous value and a present current value, and then the current value is the previous one raised by exactly the displayed percentage, with percentage × previous positive; with ChangeRecoversCurrent (not up gives current = previous − percentage × previous / 100 with that product non-negative, so current ≤ previous) this makes "up" hold exactly when the current value exceeds a present, non-zero previous value, for either sign of the previous value |
| `ChainsScreen.ChangePercent` | screens/ChainsScreen.tsx:52-57 | a missing or zero previous value gives 0 without dividing; the result is NaN exactly when the current value is missing and the previous one usable |
| `ChainsScreen.NoBaselineShowsFlatDown` | screens/ChainsScreen.tsx:34-57 | a missing or zero previous value shows "down" and 0% |
| `ChainsScreen.ChangeRecoversCurrent` | screens/ChainsScreen.tsx:34-57 | the direction and the percentage give back the current value: previous × (1 ± percentage / 100); when not up, percentage × previous is non-negative, so the current value is at most the previous one |
| `ChainsScreen.UnchangedShowsDown` | screens/ChainsScreen.tsx:34-57 | a value equal to the previous one shows "down" at 0% |
| `ChainsScreen.ChangeMagnitude` | screens/ChainsScreen.tsx:52-57 | with a positive previous value the percentage is non-negative and zero iff the value did not change |
| `ChainsScreen.ListKey` | screens/ChainsScreen.tsx:167 | the key is a present non-empty identifier when there is one, else the name, and is empty only when both are |
| `OverviewScreen.TotalTvl` | screens/OverviewScreen.tsx:36-37 | the total is 0 when there is no data or an empty list |
| `OverviewScreen.SumTvl` | screens/OverviewScreen.tsx:37 | the left fold of `reduce` agrees with the fold from the right over exact reals; characterised further by SumTvlAppend and SumTvlConcat |
| `OverviewScreen.SumTvlAppend` | screens/OverviewScreen.tsx:37 | one more chain raises the total by exactly its `tvl` (absent read as 0) |
| `OverviewScreen.SumTvlConcat` | screens/OverviewScreen.tsx:37 | the total of two lists back to back is the sum of their totals |
| `OverviewScreen.SumTvlPermutation` | screens/OverviewScreen.tsx:37 | over exact reals, the total does not depend on the order the chains arrive in |
| `OverviewScreen.SumTvlNonNegative` | screens/OverviewScreen.tsx:37 | with no negative values the total is non-negative |
| `OverviewScreen.SumTvlBounds` | screens/OverviewScreen.tsx:37 | with no negative values each chain's value is at most the total |
| `OverviewScreen.TopChains` | screens/OverviewScreen.tsx:40 | the top chains are the prefix of length min(5, n) of the received list, empty when there is no data |
| `OverviewScreen.TopChainsNotRanked` | screens/OverviewScreen.tsx:40-54 | the "Top Chains by TVL" card keeps the received order even when a later chain holds more value |
| `OverviewScreen.RankFrom` | screens/OverviewScreen.tsx:55-57 | row i carries rank first + i and the i-th chain, one row per chain |
| `OverviewScreen.TopChainRows` | screens/OverviewScreen.tsx:40-57 | the card shows at most five rows ranked 1, 2, … in order over the top chains |

## Left out

- The HTTP client (`services/defillamaApi.ts`): network I/O with a timeout and a logging interceptor that rethrows; the model takes the fetched list, or its absence, as input.
- Query caching, stale time and retry (`App.tsx`), the Solana wallet providers, navigation (`navigation/AppNavigator.tsx`), runtime polyfills (`index.js`) and bundler configuration (`metro.config.js`): configuration of external libraries with no logic of their own.
- Rendering, styles and the React hooks (`useState`, `useMemo`, `useQuery`): the pipeline is modelled as a plain function of the data, the search text and the key, recomputed on every change.
- The asynchronous pull-to-refresh flag (`screens/OverviewScreen.tsx:21-25`) and the press handler's console log: UI state and logging.
- Number formatting (`toFixed(2)`, division by `1e9` for billions): floating-point rounding and string formatting; the model works on exact reals and integers.
- Floating point itself: `NaN`, infinities and the rounding of `+` (the fold of the total), `-` and `/` are not modelled, except that a missing current value on a card yields `None` for `NaN`. With doubles the total can depend on the order of the chains (`[1e16, 1, 1]` against `[1, 1, 1e16]`); over the model's exact reals it does not.
- ChainsScreen.TrendsUp and ChainsScreen.ChangePercent: a `null` current value is not modelled. JavaScript reads `null` as 0 in `>` and `-`, so it differs from a missing (`undefined`) value, which the model covers. A `null` in any other field is falsy like `undefined` and behaves as `None`.
- The internals of `toLowerCase` and `localeCompare`: platform Unicode and locale tables; both are parameters.
- ChainsScreen.ProcessChains: assumes `localeCompare` is a total preorder; for a comparator that is not consistent ECMA-262 leaves the order implementation-defined, which the model does not cover.
- The `default: return 0` branch of the comparator: the key is one of three values, so the datatype rules it out.
- The overview rows' React key `chain.gecko_id` (no fallback to the name, unlike the chain list): it only affects React's reconciliation.
- Chain fields the screens do not read (`tokenSymbol`, `cmcId`, `chainId`, `tvlPrevWeek`, `tvlPrevMonth`).
