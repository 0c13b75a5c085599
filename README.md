# buy-better: the search endpoint, the cross-country pairing and the currency table

buy-better compares product prices between two South-East Asian countries. A user
chooses a home country, a visiting country and a query. The search endpoint asks a
language model for listings in each country. It cleans and validates the model's text
and returns a list of products. The results view then pairs each home listing with a
visiting listing whose title looks alike. Given an exchange rate, it highlights the
cheaper side of each pair after converting prices, and labels converted prices with
the home currency's symbol. The highlight predicates model that logic for a given rate.
In the application as written no rate reaches the view: app/page.tsx:38 forwards
`formData.exchangeRate`, which the search form (app/components/SearchInterface.tsx:25-29)
never sets, so the view never highlights or converts.

The model has five modules:

- `Wrappers` (`wrappers.dfy`): `Option` and `Result`.
- `Listings` (`listings.dfy`): the `Product` record the two halves exchange.
- `CurrencyMapping` (`currency_mapping.dfy`): the constant country-to-currency table.
- `SearchResults` (`search_results.dfy`), for `app/components/SearchResults.tsx`:
  - the price character filter and the number `parseFloat` reads from it;
  - title similarity and `findMatchingProduct`;
  - the three pairing loops, as three methods proved against a pairing specification;
  - `hasMatchedProducts` and the two highlight predicates.
- `SearchRoute` (`search_route.dfy`), for `app/api/search/route.ts`:
  - `trim` and the two bracket-dropping replacements;
  - a JSON value type with the kinds of section 3 of RFC 8259;
  - the array check and the fail-fast per-element validation loop;
  - the defaulting map;
  - `searchProducts`, with its inputs made explicit;
  - the status decision of `POST`.

The pairing specification works on first-match indices. `FirstMatches(home, visiting)`
holds, for each home entry, the index of the first visiting entry with a similar
title, if there is one. `Claimed(fm, n)` is the set of visiting indices claimed by the
first `n` home entries; this is the source's `usedVisitingIndices`. Home entry `i` is
`Committed` when it has a match that no earlier home entry claimed; this is
`usedHomeIndices`. `PairPositions` lists the output rows as index pairs in three
blocks:

1. committed home entries, each with its match;
2. the other home entries, alone;
3. the unclaimed visiting entries, alone.

`Pairing` resolves these index pairs to listings.

## Model

| member | source | states |
|---|---|---|
| CurrencyMapping.TableDomain | app/utils/currencyMapping.ts:8-33 | the table's keys are exactly Singapore, Malaysia, Indonesia, Thailand, Vietnam and Philippines |
| CurrencyMapping.TableCoversSelectableCountries | app/components/SearchInterface.tsx:11-18 | a country is offered by the search form exactly when the currency table has an entry for it |
| CurrencyMapping.CodesAreDistinctThreeLetterUpperCase | app/utils/currencyMapping.ts:10-31 | every currency code has three upper-case letters, and no two countries share one |
| CurrencyMapping.DefaultCountries | app/utils/currencyMapping.ts:9-16 | Singapore maps to SGD / S$ and Malaysia to MYR / RM |
| CurrencyMapping.HomeSymbol | app/components/SearchResults.tsx:184 | the symbol lookup beside a converted price is defined, and yields a non-empty symbol, for any country the form offers |
| SearchResults.KeepPriceChars | app/components/SearchResults.tsx:27 | the filtered price holds only digits and dots |
| SearchResults.KeepPriceCharsCounts | app/components/SearchResults.tsx:27 | the filter keeps every digit and dot of the input, each as often as it occurs, and drops everything else |
| SearchResults.KeepPriceCharsIsSubsequence | app/components/SearchResults.tsx:27 | the filtered price is an order-preserving subsequence of the input |
| SearchResults.KeepPriceCharsKeepsPriceStrings | app/components/SearchResults.tsx:27 | a string of digits and dots passes the filter unchanged |
| SearchResults.KeepPriceCharsIdempotent | app/components/SearchResults.tsx:27 | filtering twice gives the same string as filtering once |
| SearchResults.KeepPriceCharsAppend | app/components/SearchResults.tsx:27 | the filter works character by character: filtering a concatenation concatenates the filtered parts |
| SearchResults.KeepPriceCharsDropsOthers | app/components/SearchResults.tsx:27 | text without digits or dots filters to the empty string |
| SearchResults.DigitRun | app/components/SearchResults.tsx:28 | the leading digit run is maximal: all digits, followed by the end or a non-digit |
| SearchResults.ParseFloatOfPriceChars | app/components/SearchResults.tsx:28 | `parseFloat` of a filtered price is never negative, and is NaN exactly when the text starts neither with a digit nor with a dot followed by a digit |
| SearchResults.ExtractNumericPrice | app/components/SearchResults.tsx:26-29 | the numeric price is never negative |
| SearchResults.PriceWithoutDigits | app/components/SearchResults.tsx:27-28 | a price without digits has numeric price 0; without dots as well, it filters to the empty string |
| SearchResults.PriceOfDigits | app/components/SearchResults.tsx:26-29 | a price of digits alone has the integer value of those digits |
| SearchResults.PriceOfDecimal | app/components/SearchResults.tsx:26-29 | a price whose filtered form is `w.f` has the value w + f / 10^\|f\| |
| SearchResults.PriceAfterPrefix | app/components/SearchResults.tsx:26-29 | a currency prefix without digits or dots before `w.f` does not change the value |
| SearchResults.DigitRunPrefix | app/components/SearchResults.tsx:28 | the digit run of digits followed by a non-digit is exactly those digits |
| SearchResults.DigitRunOfDigits | app/components/SearchResults.tsx:28 | the digit run of a string of digits is the whole string |
| SearchResults.ProcessResults | app/components/SearchResults.tsx:54-61 | processing keeps length, order and every listing, and attaches to each the number `extractNumericPrice` reads from its price, which is never negative |
| SearchResults.Lower | app/components/SearchResults.tsx:38-39 | defines `toLowerCase` on a title (ASCII letters); `LowerIdempotent` and `TitlesSimilarIgnoresCase` state its properties |
| SearchResults.Includes | app/components/SearchResults.tsx:38-39 | defines `String.prototype.includes` as a left-to-right scan; `IncludesIffOccurs` proves it equal to the substring definition |
| SearchResults.TitlesSimilar | app/components/SearchResults.tsx:37-39 | defines the two-way, case-insensitive containment test; `TitlesSimilarSymmetric`, `TitlesSimilarIgnoresCase` and `EmptyTitleMatchesEverything` state its properties |
| SearchResults.IncludesIffOccurs | app/components/SearchResults.tsx:38-39 | `includes` holds exactly when the needle occurs at some position of the text |
| SearchResults.TitlesSimilarSymmetric | app/components/SearchResults.tsx:37-39 | title similarity is symmetric |
| SearchResults.LowerIdempotent | app/components/SearchResults.tsx:38-39 | lowercasing twice is lowercasing once |
| SearchResults.TitlesSimilarIgnoresCase | app/components/SearchResults.tsx:37-39 | lowercasing either title first does not change similarity |
| SearchResults.EmptyTitleMatchesEverything | app/components/SearchResults.tsx:37-39 | an empty title is similar to every title, in both argument positions |
| SearchResults.FirstMatchIndex | app/components/SearchResults.tsx:36-41 | a found position lies inside the list |
| SearchResults.FirstMatchIndexIsFirst | app/components/SearchResults.tsx:36-41 | the found position holds a similar entry and no earlier entry is similar; if nothing is found, no entry is similar |
| SearchResults.FindMatchingProduct | app/components/SearchResults.tsx:31-43 | the result is null exactly when no entry is similar; otherwise it is a similar entry with no similar entry before it |
| SearchResults.IndexOf | app/components/SearchResults.tsx:78 | `indexOf` is -1 exactly for an absent value; otherwise it is the first position holding the value |
| SearchResults.IndexOfFoundIsFirstMatch | app/components/SearchResults.tsx:73-78 | the index `indexOf` gives for the found product is the first similar position |
| SearchResults.FirstMatches | app/components/SearchResults.tsx:72-78 | there is one first-match entry per home listing, and every index it holds is a visiting position |
| SearchResults.ClaimedIffEarlierMatch | app/components/SearchResults.tsx:79-82 | a visiting index is in `usedVisitingIndices` after n home entries exactly when one of those entries' first match is that index |
| SearchResults.ClaimedInRange | app/components/SearchResults.tsx:82 | claimed visiting indices are visiting positions |
| SearchResults.CommittedIffEarliestClaimant | app/components/SearchResults.tsx:79-83 | a home entry is paired exactly when it has a first match that no earlier home entry had |
| SearchResults.CommittedBelowIff | app/components/SearchResults.tsx:81 | `usedHomeIndices` after n home entries holds exactly the paired entries among them |
| SearchResults.MatchedPositions | app/components/SearchResults.tsx:72-85 | the direct matches are paired home entries with their first match, in strictly increasing home order |
| SearchResults.MatchedPositionsComplete | app/components/SearchResults.tsx:72-85 | every paired home entry appears among the direct matches |
| SearchResults.UnmatchedHome | app/components/SearchResults.tsx:88-92 | the second block holds only unpaired home entries with no visiting side, in strictly increasing home order |
| SearchResults.UnmatchedHomeComplete | app/components/SearchResults.tsx:88-92 | every unpaired home entry appears in the second block |
| SearchResults.UnmatchedVisiting | app/components/SearchResults.tsx:94-98 | the third block holds only unclaimed visiting entries with no home side, in strictly increasing visiting order |
| SearchResults.UnmatchedVisitingComplete | app/components/SearchResults.tsx:94-98 | every unclaimed visiting entry appears in the third block |
| SearchResults.FirstLoopStep | app/components/SearchResults.tsx:73-78 | one step of the first loop finds a product exactly when the home entry has a first match, and `indexOf` of it is that first match |
| SearchResults.ResolveConcat | app/components/SearchResults.tsx:80-96 | resolving index pairs to listings distributes over concatenation |
| SearchResults.Pairing | app/components/SearchResults.tsx:63-98 | defines `matchedPairs` as the three position blocks resolved to listings; `MatchPairs` proves the loops compute it, and the guarantee lemmas below state its properties |
| SearchResults.DirectMatches | app/components/SearchResults.tsx:72-85 | the first loop's pushed rows are the direct-match block; its `usedHomeIndices` is exactly the set of paired home positions and nothing else; its `usedVisitingIndices` is the claimed set |
| SearchResults.AppendUnmatchedHome | app/components/SearchResults.tsx:88-92 | the second loop appends exactly the unpaired home block |
| SearchResults.AppendUnmatchedVisiting | app/components/SearchResults.tsx:94-98 | the third loop appends exactly the unclaimed visiting block |
| SearchResults.MatchPairs | app/components/SearchResults.tsx:63-98 | the three loops build the pairing; its length is \|home\| + \|visiting\| minus the number of matched rows; no row has both sides null |
| SearchResults.PositionsInRange | app/components/SearchResults.tsx:80-96 | every row refers to real home and visiting positions |
| SearchResults.NoRowIsEmpty | app/components/SearchResults.tsx:80-96 | no row has both sides null |
| SearchResults.NoVisitingClaimedTwice | app/components/SearchResults.tsx:79-82 | two different paired home entries never share a visiting entry |
| SearchResults.TakenMatchLeavesHomeUnmatched | app/components/SearchResults.tsx:77-84 | a home entry whose first match was already claimed is not paired, is listed alone, and never appears with a visiting side; no other match is tried |
| SearchResults.PairOrder | app/components/SearchResults.tsx:72-98 | the output is the matched rows in home order, then the home-only rows in home order, then the visiting-only rows in visiting order |
| SearchResults.HomeRowCount | app/components/SearchResults.tsx:72-92 | the first two blocks hold one row per home entry |
| SearchResults.ClaimedCount | app/components/SearchResults.tsx:79-82 | there are as many claimed visiting indices as matched rows |
| SearchResults.VisitingRowCount | app/components/SearchResults.tsx:94-98 | the third block's rows and the claimed positions below m together number exactly m |
| SearchResults.PairCount | app/components/SearchResults.tsx:72-98 | the output length is \|home\| + \|visiting\| minus the matched count, which is at most each side's length |
| SearchResults.EachHomeEntryListed | app/components/SearchResults.tsx:72-92 | every home entry appears in some row |
| SearchResults.EachHomeEntryOnce | app/components/SearchResults.tsx:72-92 | no home entry appears in two rows |
| SearchResults.ClaimedByCommitted | app/components/SearchResults.tsx:79-82 | every claimed visiting index was claimed by a paired home entry whose first match it is |
| SearchResults.EachVisitingEntryListed | app/components/SearchResults.tsx:72-98 | every visiting entry appears in some row |
| SearchResults.EachVisitingEntryOnce | app/components/SearchResults.tsx:72-98 | no visiting entry appears in two rows |
| SearchResults.MatchedRowsUseFirstMatch | app/components/SearchResults.tsx:72-85 | a row with both sides pairs a home listing with its first similar visiting listing |
| SearchResults.HasMatchedProducts | app/components/SearchResults.tsx:113-115 | defines `matchedPairs.some((pair) => pair.home && pair.visiting)`; `HasMatchedProductsIffCommitted` states when it holds |
| SearchResults.MatchedCountPositive | app/components/SearchResults.tsx:72-85 | some row is matched exactly when some home entry was paired |
| SearchResults.BothSidesIffMatched | app/components/SearchResults.tsx:113-115 | a row with both sides exists exactly when the matched count is positive |
| SearchResults.HasMatchedProductsIffCommitted | app/components/SearchResults.tsx:113-115 | `hasMatchedProducts` is true exactly when the first loop paired at least one home entry |
| SearchResults.HomeCellHighlighted | app/components/SearchResults.tsx:140-147 | defines the home cell's highlight condition with its falsy guards; `HighlightIsExclusive` and `HighlightMarksCheaperSide` state its properties |
| SearchResults.VisitingCellHighlighted | app/components/SearchResults.tsx:168-176 | defines the visiting cell's highlight condition with its falsy guards; `HighlightIsExclusive` and `HighlightMarksCheaperSide` state its properties |
| SearchResults.HighlightIsExclusive | app/components/SearchResults.tsx:140-147 | the two cells of a pair are never both highlighted; a missing or zero rate, a zero price, or equal converted prices highlight neither cell |
| SearchResults.HighlightMarksCheaperSide | app/components/SearchResults.tsx:168-176 | with both prices and the rate non-zero, some cell is highlighted exactly when the converted prices differ, and the home cell exactly when home is cheaper |
| SearchRoute.Trim | app/api/search/route.ts:86 | defines `trim()` over the ECMA-262 whitespace and line terminators; `TrimStartDropsLeadingWhitespace`, `TrimEndDropsTrailingWhitespace` and `TrimIsSlice` state its properties |
| SearchRoute.TrimStartDropsLeadingWhitespace | app/api/search/route.ts:86 | the start of `trim` removes a prefix of whitespace and stops at a non-whitespace character |
| SearchRoute.TrimEndDropsTrailingWhitespace | app/api/search/route.ts:86 | the end of `trim` removes a suffix of whitespace and stops at a non-whitespace character |
| SearchRoute.TrimIsSlice | app/api/search/route.ts:86 | the trimmed text is a slice of the input, and everything outside it is whitespace |
| SearchRoute.DropBeforeOpenStopsAtOpen | app/api/search/route.ts:86 | the first replacement removes a prefix without `[` and leaves either nothing or text starting with `[` |
| SearchRoute.DropAfterCloseStopsAtClose | app/api/search/route.ts:86 | the second replacement removes a suffix without `]` and leaves either nothing or text ending with `]` |
| SearchRoute.DropBeforeOpenFromFirst | app/api/search/route.ts:86 | the first replacement leaves the text from the first `[`, or nothing when there is no `[` |
| SearchRoute.DropAfterCloseToLast | app/api/search/route.ts:86 | the second replacement leaves the text through the last `]`, or nothing when there is no `]` |
| SearchRoute.FirstIndexOf | app/api/search/route.ts:86 | the result is the first position of the character, or None when it does not occur |
| SearchRoute.LastIndexOf | app/api/search/route.ts:86 | the result is the last position of the character, or None when it does not occur |
| SearchRoute.CleanResponseText | app/api/search/route.ts:86 | defines the cleaning of the model's text: trim, then the two bracket-dropping replacements; `CleanIsBracketSpan`, `CleanIdempotent` and `CleanExtractsEmbeddedArray` state its properties |
| SearchRoute.CleanIsEmptyOrBracketed | app/api/search/route.ts:86 | the cleaned text is empty, or at least two characters from a `[` to a `]` |
| SearchRoute.DropOutsideBracketsIsSpan | app/api/search/route.ts:86 | the two replacements leave exactly the span from the first `[` through the last `]` when the first precedes the last, and nothing otherwise |
| SearchRoute.CleanIsBracketSpan | app/api/search/route.ts:86 | the cleaned text is that bracket span of the trimmed text |
| SearchRoute.BracketSpanOfSlice | app/api/search/route.ts:86 | cutting off bracket-free text at either end leaves the bracket span unchanged |
| SearchRoute.TrimDoesNotChangeClean | app/api/search/route.ts:86 | the cleaned text is also the bracket span of the untrimmed input: trimming never changes the outcome |
| SearchRoute.CleanExtractsEmbeddedArray | app/api/search/route.ts:85-86 | prose without `[` before a JSON array and without `]` after it is stripped, and the array text is kept whole |
| SearchRoute.CleanIdempotent | app/api/search/route.ts:86 | cleaning cleaned text changes nothing |
| SearchRoute.Lookup | app/api/search/route.ts:98-108 | defines reading a member of a parsed object, the last duplicate name winning; `LookupMissing` and `LookupFindsLastMember` state its properties |
| SearchRoute.Property | app/api/search/route.ts:98-108 | defines `value.name` on a parsed value: a member of an object, absent for every other kind; `ValidFieldIsKept` and `InvalidFieldGetsPlaceholder` use it |
| SearchRoute.Truthy | app/api/search/route.ts:95-108 | defines JavaScript truthiness of a possibly absent value (`!x` is its negation); `CheckElement` and `InvalidFieldGetsPlaceholder` state the checks built on it |
| SearchRoute.LookupMissing | app/api/search/route.ts:87 | a parsed object lacks a property exactly when no member carries that name |
| SearchRoute.LookupFindsLastMember | app/api/search/route.ts:87 | when a name occurs several times, the property's value is that of the last member with that name |
| SearchRoute.CheckElement | app/api/search/route.ts:95-109 | an element passes exactly when it is a valid listing; it is reported as not an object exactly when it is neither an object nor an array; a reported field fails its check while every earlier field passes |
| SearchRoute.FirstInvalid | app/api/search/route.ts:94-110 | the result is the first failing position at or after the start, or None when every remaining element is valid |
| SearchRoute.Validation | app/api/search/route.ts:89-110 | defines the array check followed by the first failing element; `ValidationOutcome` states its outcomes and `ValidateProducts` proves the loop computes it |
| SearchRoute.ValidationOutcome | app/api/search/route.ts:89-110 | a non-array is rejected as such; validation succeeds exactly on arrays of valid listings and then returns the elements; otherwise it reports the first failing index and its problem |
| SearchRoute.ValidateProducts | app/api/search/route.ts:94-110 | the loop reports nothing exactly when every element is valid; otherwise it reports the first failing index with that element's problem; it agrees with the validation specification |
| SearchRoute.ToProduct | app/api/search/route.ts:117-123 | every mapped field is non-empty and the image is the empty string |
| SearchRoute.ToProducts | app/api/search/route.ts:117 | the map keeps length and order |
| SearchRoute.ValidFieldIsKept | app/api/search/route.ts:117-121 | a field that passed validation is copied unchanged; the placeholder does not fire |
| SearchRoute.InvalidFieldGetsPlaceholder | app/api/search/route.ts:118-121 | a field that fails its check becomes its placeholder; for a missing or JavaScript-falsy field (absent, `null`, `false`, `0`, `""`) this is what `||` does |
| SearchRoute.ValidListingHasField | app/api/search/route.ts:98-109 | a valid listing passes each of the four field checks |
| SearchRoute.ParseProducts | app/api/search/route.ts:84-123 | defines clean, parse, validate, then map, with any failure of the first three reported; `ParseProductsOutcome` states its outcomes |
| SearchRoute.ToStringThrows | app/api/search/route.ts:32 | defines when the prompt's template literal throws on a parsed `country` or `query`: an object with its own `toString` member, or an array holding such a value; `PostUnconvertibleFieldIs500` states its effect |
| SearchRoute.SearchProducts | app/api/search/route.ts:28-129 | defines `searchProducts` with `country`, `query`, the key and the model's reply as inputs; `SearchSucceedsOnlyOnValidatedArray` and `SearchKeepsListings` state its properties |
| SearchRoute.ParseProductsOutcome | app/api/search/route.ts:84-123 | parsing succeeds exactly when the cleaned text parses to an array of valid listings, and then returns their mapping |
| SearchRoute.SearchSucceedsOnlyOnValidatedArray | app/api/search/route.ts:32-123 | a search succeeds exactly when `country` and `query` convert to strings, the key is set, the reply is ok with a non-empty text, and that text cleans and parses to an array of valid listings; the result is then the mapped array |
| SearchRoute.SearchKeepsListings | app/api/search/route.ts:117-123 | on validated listings, the output has the same length and order; each of the four fields is the element's string, copied unchanged; the image is empty |
| SearchRoute.Post | app/api/search/route.ts:131-154 | the status is 200, 400 or 500, and it is 200 exactly when the body carries products |
| SearchRoute.PostUnreadableBodyIs500 | app/api/search/route.ts:133-134 | a body that is not JSON, or is JSON `null`, gets 500 "Internal server error", since reading or destructuring it throws into the catch at lines 147-152 |
| SearchRoute.PostRejectsMissingFields | app/api/search/route.ts:136-141 | a non-null body without a truthy `country` or `query` gets 400 "Missing required fields", whatever the key, the reply and the parser |
| SearchRoute.PostSearchFailureIs500 | app/api/search/route.ts:143-153 | with both fields truthy, any failure of the search, a failed prompt conversion included, gives 500 "Internal server error", and success gives 200 with the products |
| SearchRoute.PostUnconvertibleFieldIs500 | app/api/search/route.ts:32 | a truthy `country` or `query` whose string conversion throws passes the field check but gets 500, whatever the key, the reply and the parser |
| SearchRoute.PostSuccessCarriesValidatedListings | app/api/search/route.ts:143-146 | a 200 answer means the body had truthy, convertible `country` and `query`, and the reply's cleaned text parsed to an array of valid listings, and the body carries exactly their mapping |

## Left out

- The language-model request is not modelled: the prompt's text, reading `GEMINI_API_KEY`, `fetch`, and reading the JSON envelope (app/api/search/route.ts:32-81). `SearchProducts` takes the key as an `Option<string>`. The reply is a `ModelReply`: a network failure, or the `ok` flag, the status and `candidates[0].content.parts[0].text`. The reply does not depend on the prompt's text, so `country` and `query` enter the model only through the one way building the prompt can fail: a value whose string conversion throws (`ToStringThrows`).
- `JSON.parse` of the cleaned text and `request.json()` are inputs. The parser is the function parameter `parse`, returning None on a syntax error. The request body is an `Option<Json>`.
- A `text` in the reply that is truthy but not a string is not representable: the reply text is a string or absent.
- InvalidFieldGetsPlaceholder: `ToProduct` replaces a truthy non-string field (`5`, `true`, `{}`) with its placeholder, while the source's `||` keeps the value. The case is unreachable after validation, where every field is a non-empty string; there the model would substitute the placeholder.
- ExtractNumericPrice: numbers are exact reals, not IEEE doubles, so rounding of long digit strings, and overflow to `Infinity` (which is truthy and would become the price) for more than about 309 integer digits, are not modelled. `PriceOfDecimal` and `PriceAfterPrefix` state the value only for texts of the form digits, dot, digits. Texts with several dots or a leading dot are covered only by the non-negativity and NaN conditions.
- IEEE division, `toFixed(2)` and the converted-price labels are out of scope (app/components/SearchResults.tsx:145, 173, 182-186, 262-265). The highlight predicates divide and compare exact reals.
- Request bodies are taken already parsed, as an `Option<Json>` with `None` for a body that is not JSON; `request.json()` itself is not modelled. Such a body, and a JSON `null` body (whose destructuring at app/api/search/route.ts:134 throws), get 500 rather than 400, as `PostUnreadableBodyIs500` states.
- Lower: lowercasing maps only ASCII `A`-`Z`; other letters are left as they are.
- IsJsWhitespace: lists the code points `trim` removes (section 12.2 and 12.3 of ECMA-262). The results about cleaning hold for any whitespace set that excludes `[` and `]`.
- IndexOf: compares listings by value, while JavaScript's `indexOf` compares object identity. The index `findMatchingProduct` returns is the first similar position; `IndexOfFoundIsFirstMatch` proves `indexOf` of that listing is the same position, so both readings agree.
- DirectMatches: the shared `matchedPairs` array is a sequence passed from one loop to the next. The two index sets are returned values rather than objects mutated in place. Aliasing of the array is not modelled.
- app/page.tsx, the loading and empty-state branches of the results view, and all JSX, styling and `console` logging are not part of this model.
