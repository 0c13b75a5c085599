/** The comparison logic of the results view (app/components/SearchResults.tsx):
    price normalisation, title matching, the greedy pairing of home and visiting
    listings, and the "cheaper" highlight of a matched pair. */
module SearchResults {

  import opened Wrappers
  import opened Listings

  // ---------------------------------------------------------------------------
  // Price normalisation: extractNumericPrice
  // ---------------------------------------------------------------------------

  predicate IsDigit(c: char) { '0' <= c <= '9' }

  /** The characters the pattern `/[^0-9.]/g` leaves in place. */
  predicate IsPriceChar(c: char) { IsDigit(c) || c == '.' }

  /** `a` is obtained from `b` by deleting characters, keeping the order of the rest. */
  predicate IsSubsequence(a: string, b: string)
    decreases |b|
  {
    if |a| == 0 then true
    else if |b| == 0 then false
    else if a[0] == b[0] then IsSubsequence(a[1..], b[1..])
    else IsSubsequence(a, b[1..])
  }

  lemma {:induction false} SubsequenceOfLonger(a: string, c: char, b: string)
    requires IsSubsequence(a, b)
    ensures IsSubsequence(a, [c] + b)
    decreases |a| + |b|, 1
  {
    assert ([c] + b)[1..] == b;
    if |a| > 0 && a[0] == c {
      SubsequenceOfDropped(a, b);
    }
  }

  lemma {:induction false} SubsequenceOfDropped(a: string, b: string)
    requires |a| > 0 && IsSubsequence(a, b)
    ensures IsSubsequence(a[1..], b)
    decreases |a| + |b|, 0
  {
    assert [b[0]] + b[1..] == b;
    if a[0] == b[0] {
      SubsequenceOfLonger(a[1..], b[0], b[1..]);
    } else {
      SubsequenceOfDropped(a, b[1..]);
      SubsequenceOfLonger(a[1..], b[0], b[1..]);
    }
  }

  /** `priceStr.replace(/[^0-9.]/g, "")`: only digits and dots remain. */
  function KeepPriceChars(s: string): (r: string)
    ensures forall i :: 0 <= i < |r| ==> IsPriceChar(r[i])
  {
    if |s| == 0 then []
    else if IsPriceChar(s[0]) then [s[0]] + KeepPriceChars(s[1..])
    else KeepPriceChars(s[1..])
  }

  /** Every digit and dot of the input is kept, as often as it occurs, and nothing
      else is. */
  lemma {:induction false} KeepPriceCharsCounts(s: string)
    ensures forall c :: IsPriceChar(c) ==> multiset(KeepPriceChars(s))[c] == multiset(s)[c]
    ensures forall c :: !IsPriceChar(c) ==> multiset(KeepPriceChars(s))[c] == 0
  {
    if |s| > 0 {
      KeepPriceCharsCounts(s[1..]);
      assert s == [s[0]] + s[1..];
    }
  }

  /** The filtered price keeps the input's order: it is a subsequence of it. */
  lemma {:induction false} KeepPriceCharsIsSubsequence(s: string)
    ensures IsSubsequence(KeepPriceChars(s), s)
  {
    if |s| > 0 {
      KeepPriceCharsIsSubsequence(s[1..]);
      assert s == [s[0]] + s[1..];
      if !IsPriceChar(s[0]) {
        SubsequenceOfLonger(KeepPriceChars(s[1..]), s[0], s[1..]);
      }
    }
  }

  lemma {:induction false} KeepPriceCharsKeepsPriceStrings(s: string)
    requires forall i :: 0 <= i < |s| ==> IsPriceChar(s[i])
    ensures KeepPriceChars(s) == s
  {
    if |s| > 0 {
      KeepPriceCharsKeepsPriceStrings(s[1..]);
      assert s == [s[0]] + s[1..];
    }
  }

  /** Filtering an already filtered price changes nothing. */
  lemma KeepPriceCharsIdempotent(s: string)
    ensures KeepPriceChars(KeepPriceChars(s)) == KeepPriceChars(s)
  {
    KeepPriceCharsKeepsPriceStrings(KeepPriceChars(s));
  }

  function DigitValue(c: char): nat
    requires IsDigit(c)
  {
    c as int - '0' as int
  }

  /** The decimal value of a string of digits. */
  function DigitsValue(d: string): nat
    requires forall k :: 0 <= k < |d| ==> IsDigit(d[k])
  {
    if |d| == 0 then 0 else DigitsValue(d[..|d| - 1]) * 10 + DigitValue(d[|d| - 1])
  }

  function Pow10(n: nat): (r: nat)
    ensures r >= 1
  {
    if n == 0 then 1 else 10 * Pow10(n - 1)
  }

  /** The length of the run of digits that starts the string. */
  function DigitRun(s: string): (n: nat)
    ensures n <= |s|
    ensures forall k :: 0 <= k < n ==> IsDigit(s[k])
    ensures n < |s| ==> !IsDigit(s[n])
  {
    if |s| == 0 || !IsDigit(s[0]) then 0 else 1 + DigitRun(s[1..])
  }

  /** `parseFloat` on a string of digits and dots, read over exact reals: the value
      of the longest prefix of the form `digits`, `digits.`, `digits.digits` or
      `.digits`; None stands for NaN, which is what a string without such a prefix
      (empty, or starting with a dot not followed by a digit) yields. */
  function ParseFloatOfPriceChars(s: string): (r: Option<real>)
    requires forall k :: 0 <= k < |s| ==> IsPriceChar(s[k])
    ensures r.Some? ==> r.value >= 0.0
    ensures r.None? <==> DigitRun(s) == 0 && (|s| < 2 || !IsDigit(s[1]))
  {
    var i := DigitRun(s);
    var whole := DigitsValue(s[..i]) as real;
    if i < |s| then
      // s[i] is not a digit, so it is a dot
      var j := DigitRun(s[i + 1..]);
      if i == 0 && j == 0 then None
      else Some(whole + DigitsValue(s[i + 1..][..j]) as real / Pow10(j) as real)
    else if i == 0 then None
    else Some(whole)
  }

  /** `extractNumericPrice`: the filtered price read as a number, and 0 when that
      reading is NaN (`parseFloat(...) || 0`). */
  function ExtractNumericPrice(priceStr: string): (r: real)
    ensures r >= 0.0
  {
    match ParseFloatOfPriceChars(KeepPriceChars(priceStr))
    case None => 0.0
    case Some(v) => v
  }

  /** A price without digits normalises to 0; without digits and dots its filtered
      text is empty. */
  lemma PriceWithoutDigits(priceStr: string)
    requires forall k :: 0 <= k < |priceStr| ==> !IsDigit(priceStr[k])
    ensures ExtractNumericPrice(priceStr) == 0.0
    ensures (forall k :: 0 <= k < |priceStr| ==> priceStr[k] != '.') ==> KeepPriceChars(priceStr) == []
  {
    var f := KeepPriceChars(priceStr);
    KeepPriceCharsCounts(priceStr);
    forall k | 0 <= k < |f| ensures !IsDigit(f[k]) && f[k] in priceStr {
      assert f[k] in multiset(f);
    }
    if |f| > 0 {
      assert DigitRun(f) == 0;
    }
    if |f| > 1 {
      assert !IsDigit(f[1]);
    }
  }

  lemma {:induction false} DigitRunOfDigits(d: string)
    requires forall k :: 0 <= k < |d| ==> IsDigit(d[k])
    ensures DigitRun(d) == |d|
  {
    if |d| > 0 {
      DigitRunOfDigits(d[1..]);
    }
  }

  /** A price written as a plain whole number reads as that number. */
  lemma PriceOfDigits(d: string)
    requires |d| > 0 && forall k :: 0 <= k < |d| ==> IsDigit(d[k])
    ensures ExtractNumericPrice(d) == DigitsValue(d) as real
  {
    KeepPriceCharsKeepsPriceStrings(d);
    DigitRunOfDigits(d);
    assert d[..|d|] == d;
  }

  /** A price whose digits and dots read `w.f` reads as that decimal number. */
  lemma PriceOfDecimal(priceStr: string, w: string, f: string)
    requires |w| > 0 && forall k :: 0 <= k < |w| ==> IsDigit(w[k])
    requires forall k :: 0 <= k < |f| ==> IsDigit(f[k])
    requires KeepPriceChars(priceStr) == w + "." + f
    ensures ExtractNumericPrice(priceStr) == DigitsValue(w) as real + DigitsValue(f) as real / Pow10(|f|) as real
  {
    var s := w + "." + f;
    DigitRunOfDigits(w);
    DigitRunOfDigits(f);
    assert s[..|w|] == w;
    assert s[|w|] == '.';
    assert s[|w| + 1..] == f;
    assert DigitRun(s) == |w| by {
      DigitRunPrefix(w, "." + f);
      assert s == w + ("." + f);
    }
    assert f[..|f|] == f;
  }

  /** The run of digits of `w + t` is `w` when `t` starts with a non-digit. */
  lemma {:induction false} DigitRunPrefix(w: string, t: string)
    requires forall k :: 0 <= k < |w| ==> IsDigit(w[k])
    requires |t| > 0 && !IsDigit(t[0])
    ensures DigitRun(w + t) == |w|
  {
    if |w| > 0 {
      DigitRunPrefix(w[1..], t);
      assert (w + t)[1..] == w[1..] + t;
    } else {
      assert w + t == t;
    }
  }

  /** Filtering distributes over concatenation. */
  lemma {:induction false} KeepPriceCharsAppend(a: string, b: string)
    ensures KeepPriceChars(a + b) == KeepPriceChars(a) + KeepPriceChars(b)
  {
    if |a| > 0 {
      KeepPriceCharsAppend(a[1..], b);
      assert (a + b)[1..] == a[1..] + b;
    } else {
      assert a + b == b;
    }
  }

  /** Text without digits and dots filters to nothing. */
  lemma {:induction false} KeepPriceCharsDropsOthers(p: string)
    requires forall k :: 0 <= k < |p| ==> !IsPriceChar(p[k])
    ensures KeepPriceChars(p) == []
  {
    if |p| > 0 {
      KeepPriceCharsDropsOthers(p[1..]);
    }
  }

  /** A currency prefix is dropped and the first dot is read as the decimal point, so
      "$12.50" reads as 12.5 and "Rp 150.000", whose dot separates thousands, reads
      as 150. */
  lemma PriceAfterPrefix(p: string, w: string, f: string)
    requires forall k :: 0 <= k < |p| ==> !IsPriceChar(p[k])
    requires |w| > 0 && forall k :: 0 <= k < |w| ==> IsDigit(w[k])
    requires forall k :: 0 <= k < |f| ==> IsDigit(f[k])
    ensures ExtractNumericPrice(p + w + "." + f) ==
      DigitsValue(w) as real + DigitsValue(f) as real / Pow10(|f|) as real
  {
    var d := w + "." + f;
    assert p + w + "." + f == p + d;
    KeepPriceCharsAppend(p, d);
    KeepPriceCharsDropsOthers(p);
    KeepPriceCharsKeepsPriceStrings(d);
    assert KeepPriceChars(p + d) == d;
    PriceOfDecimal(p + d, w, f);
  }

  // ---------------------------------------------------------------------------
  // Listings with their numeric price
  // ---------------------------------------------------------------------------

  /** `ProcessedProduct`: a listing with the number read from its price. */
  datatype ProcessedProduct = ProcessedProduct(product: Product, numericPrice: real)

  /** The `map` of lines 54-61. */
  function ProcessResults(results: seq<Product>): (processed: seq<ProcessedProduct>)
    ensures |processed| == |results|
    ensures forall i :: 0 <= i < |results| ==>
      processed[i].product == results[i] && processed[i].numericPrice == ExtractNumericPrice(results[i].price)
    ensures forall i :: 0 <= i < |results| ==> processed[i].numericPrice >= 0.0
  {
    seq(|results|, i requires 0 <= i < |results| =>
      ProcessedProduct(results[i], ExtractNumericPrice(results[i].price)))
  }

  // ---------------------------------------------------------------------------
  // Title matching: findMatchingProduct
  // ---------------------------------------------------------------------------

  /** `toLowerCase` on one character, for the ASCII letters. */
  function LowerChar(c: char): char
  {
    if 'A' <= c <= 'Z' then (c as int + 32) as char else c
  }

  function Lower(s: string): string
  {
    seq(|s|, i requires 0 <= i < |s| => LowerChar(s[i]))
  }

  predicate StartsWith(s: string, prefix: string)
  {
    |prefix| <= |s| && s[..|prefix|] == prefix
  }

  /** `needle` occurs in `hay` at position `i`. */
  predicate OccursAt(hay: string, needle: string, i: int)
  {
    0 <= i && i + |needle| <= |hay| && hay[i..i + |needle|] == needle
  }

  /** `hay.includes(needle)`, by scanning the start positions from the left. */
  predicate Includes(hay: string, needle: string)
    decreases |hay|
  {
    StartsWith(hay, needle) || (|hay| > 0 && Includes(hay[1..], needle))
  }

  /** The scan agrees with the definition of a substring. */
  lemma {:induction false} IncludesIffOccurs(hay: string, needle: string)
    ensures Includes(hay, needle) <==> exists i :: OccursAt(hay, needle, i)
    decreases |hay|
  {
    if StartsWith(hay, needle) {
      assert OccursAt(hay, needle, 0);
    } else if |hay| > 0 {
      IncludesIffOccurs(hay[1..], needle);
      if Includes(hay[1..], needle) {
        var i :| OccursAt(hay[1..], needle, i);
        assert hay[i + 1..i + 1 + |needle|] == hay[1..][i..i + |needle|];
        assert OccursAt(hay, needle, i + 1);
      }
      if exists i :: OccursAt(hay, needle, i) {
        var i :| OccursAt(hay, needle, i);
        assert i != 0;
        assert hay[1..][i - 1..i - 1 + |needle|] == hay[i..i + |needle|];
        assert OccursAt(hay[1..], needle, i - 1);
      }
    }
  }

  /** The test of lines 37-39: either lower-cased title contains the other. */
  predicate TitlesSimilar(a: string, b: string)
  {
    Includes(Lower(a), Lower(b)) || Includes(Lower(b), Lower(a))
  }

  lemma TitlesSimilarSymmetric(a: string, b: string)
    ensures TitlesSimilar(a, b) == TitlesSimilar(b, a)
  {
  }

  lemma LowerIdempotent(s: string)
    ensures Lower(Lower(s)) == Lower(s)
  {
  }

  /** Case does not matter: lower-casing either title first gives the same answer. */
  lemma TitlesSimilarIgnoresCase(a: string, b: string)
    ensures TitlesSimilar(Lower(a), b) == TitlesSimilar(a, b)
    ensures TitlesSimilar(a, Lower(b)) == TitlesSimilar(a, b)
  {
    LowerIdempotent(a);
    LowerIdempotent(b);
  }

  /** An empty title is contained in every title, so it matches everything. */
  lemma EmptyTitleMatchesEverything(t: string)
    ensures TitlesSimilar("", t) && TitlesSimilar(t, "")
  {
    assert StartsWith(Lower(t), Lower(""));
  }

  /** The predicate handed to `productList.find`: `candidate` is the list entry. */
  predicate Similar(candidate: ProcessedProduct, product: ProcessedProduct)
  {
    TitlesSimilar(candidate.product.title, product.product.title)
  }

  /** The lowest position of `list` whose entry is similar to `product`, if any. */
  function FirstMatchIndex(product: ProcessedProduct, list: seq<ProcessedProduct>): (r: Option<nat>)
    ensures r.Some? ==> r.value < |list|
  {
    if |list| == 0 then None
    else if Similar(list[0], product) then Some(0)
    else
      match FirstMatchIndex(product, list[1..])
      case None => None
      case Some(k) => Some(k + 1)
  }

  /** `FirstMatchIndex` finds a similar entry with no similar entry before it, and
      finds nothing exactly when no entry is similar. */
  lemma {:induction false} FirstMatchIndexIsFirst(product: ProcessedProduct, list: seq<ProcessedProduct>)
    ensures var r := FirstMatchIndex(product, list);
      (r.Some? ==> Similar(list[r.value], product)) &&
      (r.Some? ==> forall j :: 0 <= j < r.value ==> !Similar(list[j], product)) &&
      (r.None? ==> forall j :: 0 <= j < |list| ==> !Similar(list[j], product))
  {
    if |list| > 0 && !Similar(list[0], product) {
      FirstMatchIndexIsFirst(product, list[1..]);
      var r := FirstMatchIndex(product, list[1..]);
      forall j | 0 < j < |list|
        ensures list[j] == list[1..][j - 1]
      {
      }
    }
  }

  /** `findMatchingProduct`: `find` returns the first similar entry, and `|| null`
      turns "none" into null. */
  function FindMatchingProduct(product: ProcessedProduct, productList: seq<ProcessedProduct>)
    : (r: Option<ProcessedProduct>)
    ensures r.None? <==> forall j :: 0 <= j < |productList| ==> !Similar(productList[j], product)
    ensures r.Some? ==> r.value in productList && Similar(r.value, product)
    ensures r.Some? ==> exists k :: (0 <= k < |productList| && r.value == productList[k] &&
                                     forall j :: 0 <= j < k ==> !Similar(productList[j], product))
  {
    FirstMatchIndexIsFirst(product, productList);
    match FirstMatchIndex(product, productList)
    case None => None
    case Some(k) => Some(productList[k])
  }

  /** `list.indexOf(x)`: the first position holding `x`, or -1. */
  function IndexOf(list: seq<ProcessedProduct>, x: ProcessedProduct): (r: int)
    ensures r == -1 <==> x !in list
    ensures r != -1 ==> 0 <= r < |list| && list[r] == x && x !in list[..r]
  {
    if |list| == 0 then -1
    else if list[0] == x then 0
    else
      var k := IndexOf(list[1..], x);
      if k == -1 then -1 else k + 1
  }

  /** The position line 78 recovers with `indexOf` is the first matching position:
      an earlier entry equal to the one found would have matched first. */
  lemma IndexOfFoundIsFirstMatch(product: ProcessedProduct, list: seq<ProcessedProduct>)
    requires FindMatchingProduct(product, list).Some?
    ensures FirstMatchIndex(product, list).Some?
    ensures IndexOf(list, FindMatchingProduct(product, list).value) == FirstMatchIndex(product, list).value
  {
    FirstMatchIndexIsFirst(product, list);
    var k := FirstMatchIndex(product, list).value;
    assert list[k] in list;
  }

  // ---------------------------------------------------------------------------
  // Pairing: the loops of lines 63-98
  // ---------------------------------------------------------------------------

  /** One row of `matchedPairs`; None stands for null. */
  datatype Pair = Pair(home: Option<ProcessedProduct>, visiting: Option<ProcessedProduct>)

  /** A row by position: `home` is a position in the home list, `visiting` one in the
      visiting list. The source pushes the product objects themselves; each object
      sits at exactly one position of its list, so a position names it. */
  datatype IndexPair = IndexPair(home: Option<nat>, visiting: Option<nat>)

  /** The first-match position of every home entry, which is what
      `findMatchingProduct` followed by `indexOf` yields for it (lines 73-78). */
  function FirstMatches(home: seq<ProcessedProduct>, visiting: seq<ProcessedProduct>): (fm: seq<Option<nat>>)
    ensures |fm| == |home|
    ensures ValidMatches(fm, |visiting|)
  {
    seq(|home|, i requires 0 <= i < |home| => FirstMatchIndex(home[i], visiting))
  }

  /** Every first-match position is a position of a visiting list of length `nv`. */
  predicate ValidMatches(fm: seq<Option<nat>>, nv: nat)
  {
    forall i :: 0 <= i < |fm| && fm[i].Some? ==> fm[i].value < nv
  }

  // The pairing below depends on the listings only through `fm`, the first-match
  // position of each home entry, and `nv`, the length of the visiting list.

  /** The contents of `usedVisitingIndices` once the first loop has seen `n` home
      entries: the first-match positions of those entries, committed or not. */
  function Claimed(fm: seq<Option<nat>>, n: nat): set<nat>
    requires n <= |fm|
  {
    if n == 0 then {}
    else Claimed(fm, n - 1) + (if fm[n - 1].Some? then {fm[n - 1].value} else {})
  }

  lemma {:induction false} ClaimedIffEarlierMatch(fm: seq<Option<nat>>, n: nat, v: nat)
    requires n <= |fm|
    ensures v in Claimed(fm, n) <==> exists j :: 0 <= j < n && fm[j] == Some(v)
  {
    if n > 0 {
      ClaimedIffEarlierMatch(fm, n - 1, v);
    }
  }

  lemma {:induction false} ClaimedInRange(fm: seq<Option<nat>>, nv: nat, n: nat)
    requires ValidMatches(fm, nv) && n <= |fm|
    ensures forall v :: v in Claimed(fm, n) ==> v < nv
  {
    if n > 0 {
      ClaimedInRange(fm, nv, n - 1);
    }
  }

  /** Home entry `i` is paired by the first loop: it has a match, and that match is
      not already in `usedVisitingIndices`. */
  predicate Committed(fm: seq<Option<nat>>, i: nat)
    requires i < |fm|
  {
    fm[i].Some? && fm[i].value !in Claimed(fm, i)
  }

  /** A home entry is paired exactly when no earlier home entry has the same first
      match. */
  lemma CommittedIffEarliestClaimant(fm: seq<Option<nat>>, i: nat)
    requires i < |fm|
    ensures Committed(fm, i) <==> fm[i].Some? && forall j :: 0 <= j < i ==> fm[j] != fm[i]
  {
    if fm[i].Some? {
      ClaimedIffEarlierMatch(fm, i, fm[i].value);
    }
  }

  /** The contents of `usedHomeIndices` once the first loop has seen `n` home entries. */
  ghost function CommittedBelow(fm: seq<Option<nat>>, n: nat): set<nat>
    requires n <= |fm|
  {
    if n == 0 then {}
    else CommittedBelow(fm, n - 1) + (if Committed(fm, n - 1) then {n - 1} else {})
  }

  lemma {:induction false} CommittedBelowIff(fm: seq<Option<nat>>, n: nat, j: nat)
    requires n <= |fm|
    ensures j in CommittedBelow(fm, n) <==> j < n && Committed(fm, j)
  {
    if n > 0 {
      CommittedBelowIff(fm, n - 1, j);
    }
  }

  /** The rows the first loop pushes for the first `n` home entries, in home order. */
  function MatchedPositions(fm: seq<Option<nat>>, n: nat): (r: seq<IndexPair>)
    requires n <= |fm|
    ensures forall k :: 0 <= k < |r| ==>
      r[k].home.Some? && r[k].home.value < n && Committed(fm, r[k].home.value) && r[k].visiting == fm[r[k].home.value]
    ensures forall k1, k2 :: 0 <= k1 < k2 < |r| ==> r[k1].home.value < r[k2].home.value
  {
    if n == 0 then []
    else
      MatchedPositions(fm, n - 1) +
      (if Committed(fm, n - 1) then [IndexPair(Some(n - 1), fm[n - 1])] else [])
  }

  /** The rows the second loop pushes for the first `n` home entries. */
  function UnmatchedHome(fm: seq<Option<nat>>, n: nat): (r: seq<IndexPair>)
    requires n <= |fm|
    ensures forall k :: 0 <= k < |r| ==>
      r[k].home.Some? && r[k].visiting.None? && r[k].home.value < n && !Committed(fm, r[k].home.value)
    ensures forall k1, k2 :: 0 <= k1 < k2 < |r| ==> r[k1].home.value < r[k2].home.value
  {
    if n == 0 then []
    else
      UnmatchedHome(fm, n - 1) +
      (if Committed(fm, n - 1) then [] else [IndexPair(Some(n - 1), None)])
  }

  /** The rows the third loop pushes for the first `m` visiting entries. */
  function UnmatchedVisiting(fm: seq<Option<nat>>, m: nat): (r: seq<IndexPair>)
    ensures forall k :: 0 <= k < |r| ==>
      r[k].home.None? && r[k].visiting.Some? && r[k].visiting.value < m &&
      r[k].visiting.value !in Claimed(fm, |fm|)
    ensures forall k1, k2 :: 0 <= k1 < k2 < |r| ==> r[k1].visiting.value < r[k2].visiting.value
  {
    if m == 0 then []
    else
      UnmatchedVisiting(fm, m - 1) +
      (if m - 1 in Claimed(fm, |fm|) then [] else [IndexPair(None, Some(m - 1))])
  }

  /** The first loop pushes a row for every committed home entry. */
  lemma {:induction false} MatchedPositionsComplete(fm: seq<Option<nat>>, n: nat, i: nat)
    requires i < n <= |fm| && Committed(fm, i)
    ensures IndexPair(Some(i), fm[i]) in MatchedPositions(fm, n)
  {
    if i < n - 1 {
      MatchedPositionsComplete(fm, n - 1, i);
    }
  }

  /** The second loop pushes a row for every other home entry. */
  lemma {:induction false} UnmatchedHomeComplete(fm: seq<Option<nat>>, n: nat, i: nat)
    requires i < n <= |fm| && !Committed(fm, i)
    ensures IndexPair(Some(i), None) in UnmatchedHome(fm, n)
  {
    var prefix := UnmatchedHome(fm, n - 1);
    if i < n - 1 {
      UnmatchedHomeComplete(fm, n - 1, i);
      var last := if Committed(fm, n - 1) then [] else [IndexPair(Some(n - 1), None)];
      assert UnmatchedHome(fm, n) == prefix + last;
    } else {
      assert UnmatchedHome(fm, n) == prefix + [IndexPair(Some(i), None)];
    }
  }

  /** The third loop pushes a row for every unclaimed visiting entry. */
  lemma {:induction false} UnmatchedVisitingComplete(fm: seq<Option<nat>>, m: nat, v: nat)
    requires v < m && v !in Claimed(fm, |fm|)
    ensures IndexPair(None, Some(v)) in UnmatchedVisiting(fm, m)
  {
    if v < m - 1 {
      UnmatchedVisitingComplete(fm, m - 1, v);
    }
  }

  /** All rows by position: matched pairs, then unmatched home, then unmatched visiting. */
  function PairPositions(fm: seq<Option<nat>>, nv: nat): seq<IndexPair>
  {
    MatchedPositions(fm, |fm|) + UnmatchedHome(fm, |fm|) + UnmatchedVisiting(fm, nv)
  }

  /** The number of pairs the first loop commits. */
  function MatchedCount(fm: seq<Option<nat>>): nat
  {
    |MatchedPositions(fm, |fm|)|
  }

  function ResolvePair(home: seq<ProcessedProduct>, visiting: seq<ProcessedProduct>, p: IndexPair): Pair
  {
    Pair(
      if p.home.Some? && p.home.value < |home| then Some(home[p.home.value]) else None,
      if p.visiting.Some? && p.visiting.value < |visiting| then Some(visiting[p.visiting.value]) else None)
  }

  /** The rows with every position replaced by the product it names. */
  function Resolve(home: seq<ProcessedProduct>, visiting: seq<ProcessedProduct>, ps: seq<IndexPair>): seq<Pair>
  {
    seq(|ps|, k requires 0 <= k < |ps| => ResolvePair(home, visiting, ps[k]))
  }

  lemma ResolveAppend(home: seq<ProcessedProduct>, visiting: seq<ProcessedProduct>, ps: seq<IndexPair>, p: IndexPair)
    ensures Resolve(home, visiting, ps + [p]) == Resolve(home, visiting, ps) + [ResolvePair(home, visiting, p)]
  {
  }

  /** The rows of `matchedPairs` for two processed lists. */
  function Pairing(home: seq<ProcessedProduct>, visiting: seq<ProcessedProduct>): seq<Pair>
  {
    Resolve(home, visiting, PairPositions(FirstMatches(home, visiting), |visiting|))
  }

  /** What one pass of the first loop sees for home entry `i`: no match exactly when
      its first-match position is absent, and otherwise `indexOf` recovers that
      position. */
  lemma FirstLoopStep(home: seq<ProcessedProduct>, visiting: seq<ProcessedProduct>, i: nat)
    requires i < |home|
    ensures var fm, found := FirstMatches(home, visiting), FindMatchingProduct(home[i], visiting);
      (found.None? <==> fm[i].None?) &&
      (found.Some? ==>
        (fm[i] == Some(IndexOf(visiting, found.value)) &&
         0 <= IndexOf(visiting, found.value) < |visiting| && visiting[IndexOf(visiting, found.value)] == found.value))
  {
    if FindMatchingProduct(home[i], visiting).Some? {
      IndexOfFoundIsFirstMatch(home[i], visiting);
    }
  }

  lemma {:induction false} ResolveConcat(home: seq<ProcessedProduct>, visiting: seq<ProcessedProduct>, a: seq<IndexPair>, b: seq<IndexPair>)
    ensures Resolve(home, visiting, a + b) == Resolve(home, visiting, a) + Resolve(home, visiting, b)
  {
    var l, r := Resolve(home, visiting, a + b), Resolve(home, visiting, a) + Resolve(home, visiting, b);
    assert |l| == |r|;
    forall k | 0 <= k < |l|
      ensures l[k] == r[k]
    {
      if k < |a| {
        assert (a + b)[k] == a[k];
      } else {
        assert (a + b)[k] == b[k - |a|];
      }
    }
  }

  /** What one more home entry adds to the state of the first loop. */
  lemma DirectMatchStep(fm: seq<Option<nat>>, n: nat)
    requires n < |fm|
    ensures MatchedPositions(fm, n + 1) ==
      MatchedPositions(fm, n) + (if Committed(fm, n) then [IndexPair(Some(n), fm[n])] else [])
    ensures CommittedBelow(fm, n + 1) == CommittedBelow(fm, n) + (if Committed(fm, n) then {n} else {})
    ensures Claimed(fm, n + 1) == Claimed(fm, n) + (if fm[n].Some? then {fm[n].value} else {})
  {
  }

  /** The first loop of `SearchResults` (lines 72-85): walk the home list once,
      pairing each entry with its first similar visiting entry unless an earlier home
      entry already used that visiting entry. */
  method DirectMatches(home: seq<ProcessedProduct>, visiting: seq<ProcessedProduct>)
    returns (matchedPairs: seq<Pair>, usedHomeIndices: set<nat>, usedVisitingIndices: set<nat>)
    ensures var fm := FirstMatches(home, visiting);
      matchedPairs == Resolve(home, visiting, MatchedPositions(fm, |home|))
    ensures usedHomeIndices == CommittedBelow(FirstMatches(home, visiting), |home|)
    ensures usedVisitingIndices == Claimed(FirstMatches(home, visiting), |home|)
  {
    ghost var fm := FirstMatches(home, visiting);
    matchedPairs := [];
    usedHomeIndices := {};
    usedVisitingIndices := {};
    ghost var matched: seq<IndexPair> := [];
    for homeIndex := 0 to |home|
      invariant matched == MatchedPositions(fm, homeIndex)
      invariant matchedPairs == Resolve(home, visiting, matched)
      invariant usedHomeIndices == CommittedBelow(fm, homeIndex)
      invariant usedVisitingIndices == Claimed(fm, homeIndex)
    {
      var matchingProduct := FindMatchingProduct(home[homeIndex], visiting);
      FirstLoopStep(home, visiting, homeIndex);
      DirectMatchStep(fm, homeIndex);
      if matchingProduct.Some? {
        var visitingIndex := IndexOf(visiting, matchingProduct.value);
        assert fm[homeIndex] == Some(visitingIndex);
        if visitingIndex !in usedVisitingIndices {
          assert Committed(fm, homeIndex);
          ghost var row := IndexPair(Some(homeIndex), Some(visitingIndex));
          ResolveAppend(home, visiting, matched, row);
          matchedPairs := matchedPairs + [Pair(Some(home[homeIndex]), matchingProduct)];
          matched := matched + [row];
          usedHomeIndices := usedHomeIndices + {homeIndex};
          usedVisitingIndices := usedVisitingIndices + {visitingIndex};
        } else {
          assert !Committed(fm, homeIndex);
        }
      } else {
        assert fm[homeIndex].None?;
      }
    }
  }

  /** The second loop (lines 88-92): append every home entry the first loop left
      unpaired, in home order. */
  method AppendUnmatchedHome(home: seq<ProcessedProduct>, visiting: seq<ProcessedProduct>, ghost fm: seq<Option<nat>>,
                             pairs: seq<Pair>, usedHomeIndices: set<nat>)
    returns (matchedPairs: seq<Pair>)
    requires |fm| == |home|
    requires forall j :: 0 <= j < |home| ==> (j in usedHomeIndices <==> Committed(fm, j))
    ensures matchedPairs == pairs + Resolve(home, visiting, UnmatchedHome(fm, |home|))
  {
    matchedPairs := pairs;
    for index := 0 to |home|
      invariant matchedPairs == pairs + Resolve(home, visiting, UnmatchedHome(fm, index))
    {
      if index !in usedHomeIndices {
        ResolveAppend(home, visiting, UnmatchedHome(fm, index), IndexPair(Some(index), None));
        matchedPairs := matchedPairs + [Pair(Some(home[index]), None)];
      }
    }
  }

  /** The third loop (lines 94-98): append every visiting entry no home entry
      claimed, in visiting order. */
  method AppendUnmatchedVisiting(home: seq<ProcessedProduct>, visiting: seq<ProcessedProduct>, ghost fm: seq<Option<nat>>,
                                 pairs: seq<Pair>, usedVisitingIndices: set<nat>)
    returns (matchedPairs: seq<Pair>)
    requires usedVisitingIndices == Claimed(fm, |fm|)
    ensures matchedPairs == pairs + Resolve(home, visiting, UnmatchedVisiting(fm, |visiting|))
  {
    matchedPairs := pairs;
    for index := 0 to |visiting|
      invariant matchedPairs == pairs + Resolve(home, visiting, UnmatchedVisiting(fm, index))
    {
      if index !in usedVisitingIndices {
        ResolveAppend(home, visiting, UnmatchedVisiting(fm, index), IndexPair(None, Some(index)));
        matchedPairs := matchedPairs + [Pair(None, Some(visiting[index]))];
      }
    }
  }

  /** The body of `SearchResults` up to line 98: pair the listings greedily in one
      pass, then append what is left over. */
  method MatchPairs(home: seq<ProcessedProduct>, visiting: seq<ProcessedProduct>) returns (matchedPairs: seq<Pair>)
    ensures matchedPairs == Pairing(home, visiting)
    ensures |matchedPairs| == |home| + |visiting| - MatchedCount(FirstMatches(home, visiting))
    ensures forall k :: 0 <= k < |matchedPairs| ==> matchedPairs[k].home.Some? || matchedPairs[k].visiting.Some?
  {
    ghost var fm := FirstMatches(home, visiting);
    var usedHomeIndices, usedVisitingIndices;
    matchedPairs, usedHomeIndices, usedVisitingIndices := DirectMatches(home, visiting);
    forall j | 0 <= j < |home|
      ensures j in usedHomeIndices <==> Committed(fm, j)
    {
      CommittedBelowIff(fm, |home|, j);
    }
    matchedPairs := AppendUnmatchedHome(home, visiting, fm, matchedPairs, usedHomeIndices);
    matchedPairs := AppendUnmatchedVisiting(home, visiting, fm, matchedPairs, usedVisitingIndices);
    ghost var m, uh, uv := MatchedPositions(fm, |fm|), UnmatchedHome(fm, |fm|), UnmatchedVisiting(fm, |visiting|);
    ResolveConcat(home, visiting, m, uh);
    ResolveConcat(home, visiting, m + uh, uv);
    PairCount(fm, |visiting|);
    PositionsInRange(fm, |visiting|);
    NoRowIsEmpty(fm, |visiting|);
  }

  // ---------------------------------------------------------------------------
  // What the pairing guarantees
  // ---------------------------------------------------------------------------

  /** A position of the concatenated rows falls in exactly one block. */
  lemma InBlocks(m: seq<IndexPair>, uh: seq<IndexPair>, uv: seq<IndexPair>, k: nat)
    requires k < |m + uh + uv|
    ensures k < |m| ==> (m + uh + uv)[k] == m[k]
    ensures |m| <= k < |m| + |uh| ==> (m + uh + uv)[k] == uh[k - |m|]
    ensures |m| + |uh| <= k ==> (m + uh + uv)[k] == uv[k - |m| - |uh|]
  {
  }

  /** Every position in a row is a position of its list. */
  lemma PositionsInRange(fm: seq<Option<nat>>, nv: nat)
    requires ValidMatches(fm, nv)
    ensures forall k :: 0 <= k < |PairPositions(fm, nv)| ==>
      (PairPositions(fm, nv)[k].home.Some? ==> PairPositions(fm, nv)[k].home.value < |fm|) &&
      (PairPositions(fm, nv)[k].visiting.Some? ==> PairPositions(fm, nv)[k].visiting.value < nv)
  {
    var m, uh, uv := MatchedPositions(fm, |fm|), UnmatchedHome(fm, |fm|), UnmatchedVisiting(fm, nv);
    forall k | 0 <= k < |PairPositions(fm, nv)|
      ensures (PairPositions(fm, nv)[k].home.Some? ==> PairPositions(fm, nv)[k].home.value < |fm|) &&
              (PairPositions(fm, nv)[k].visiting.Some? ==> PairPositions(fm, nv)[k].visiting.value < nv)
    {
      InBlocks(m, uh, uv, k);
    }
  }

  /** No row has both sides null. */
  lemma NoRowIsEmpty(fm: seq<Option<nat>>, nv: nat)
    ensures forall k :: 0 <= k < |PairPositions(fm, nv)| ==>
      PairPositions(fm, nv)[k].home.Some? || PairPositions(fm, nv)[k].visiting.Some?
  {
    var m, uh, uv := MatchedPositions(fm, |fm|), UnmatchedHome(fm, |fm|), UnmatchedVisiting(fm, nv);
    forall k | 0 <= k < |PairPositions(fm, nv)|
      ensures PairPositions(fm, nv)[k].home.Some? || PairPositions(fm, nv)[k].visiting.Some?
    {
      InBlocks(m, uh, uv, k);
    }
  }

  /** No visiting entry is claimed by two home entries. */
  lemma NoVisitingClaimedTwice(fm: seq<Option<nat>>, i: nat, j: nat)
    requires i < |fm| && j < |fm| && i != j
    requires Committed(fm, i) && Committed(fm, j)
    ensures fm[i] != fm[j]
  {
    CommittedIffEarliestClaimant(fm, i);
    CommittedIffEarliestClaimant(fm, j);
  }

  /** First match wins and there is no fallback: a home entry whose first match was
      already taken by an earlier home entry ends up in a row of its own, even when a
      later visiting entry would also match it. */
  lemma TakenMatchLeavesHomeUnmatched(fm: seq<Option<nat>>, nv: nat, i: nat, j: nat)
    requires j < i < |fm|
    requires fm[i].Some? && fm[j] == fm[i]
    ensures !Committed(fm, i)
    ensures IndexPair(Some(i), None) in PairPositions(fm, nv)
    ensures forall k :: 0 <= k < |PairPositions(fm, nv)| && PairPositions(fm, nv)[k].home == Some(i) ==>
      PairPositions(fm, nv)[k].visiting.None?
  {
    CommittedIffEarliestClaimant(fm, i);
    var m, uh, uv := MatchedPositions(fm, |fm|), UnmatchedHome(fm, |fm|), UnmatchedVisiting(fm, nv);
    UnmatchedHomeComplete(fm, |fm|, i);
    forall k | 0 <= k < |PairPositions(fm, nv)| && PairPositions(fm, nv)[k].home == Some(i)
      ensures PairPositions(fm, nv)[k].visiting.None?
    {
      InBlocks(m, uh, uv, k);
    }
  }

  /** The rows fall into three blocks in a fixed order: matched pairs in home order,
      then unmatched home entries in home order, then unmatched visiting entries in
      visiting order. */
  lemma PairOrder(fm: seq<Option<nat>>, nv: nat)
    ensures var ps, a, b := PairPositions(fm, nv), MatchedCount(fm), |fm|;
      a <= b <= |ps| &&
      (forall k :: 0 <= k < a ==> ps[k].home.Some? && ps[k].visiting.Some?) &&
      (forall k :: a <= k < b ==> ps[k].home.Some? && ps[k].visiting.None?) &&
      (forall k :: b <= k < |ps| ==> ps[k].home.None? && ps[k].visiting.Some?) &&
      (forall k1, k2 :: 0 <= k1 < k2 < a ==> ps[k1].home.Some? && ps[k2].home.Some? && ps[k1].home.value < ps[k2].home.value) &&
      (forall k1, k2 :: a <= k1 < k2 < b ==> ps[k1].home.Some? && ps[k2].home.Some? && ps[k1].home.value < ps[k2].home.value) &&
      (forall k1, k2 :: b <= k1 < k2 < |ps| ==>
        ps[k1].visiting.Some? && ps[k2].visiting.Some? && ps[k1].visiting.value < ps[k2].visiting.value)
  {
    var m, uh, uv := MatchedPositions(fm, |fm|), UnmatchedHome(fm, |fm|), UnmatchedVisiting(fm, nv);
    var ps := PairPositions(fm, nv);
    HomeRowCount(fm, |fm|);
    forall k | 0 <= k < |ps|
      ensures (k < |m| ==> ps[k] == m[k]) &&
              (|m| <= k < |m| + |uh| ==> ps[k] == uh[k - |m|]) &&
              (|m| + |uh| <= k ==> ps[k] == uv[k - |m| - |uh|])
    {
      InBlocks(m, uh, uv, k);
    }
  }

  /** Each home entry lands in exactly one of the first two loops. */
  lemma {:induction false} HomeRowCount(fm: seq<Option<nat>>, n: nat)
    requires n <= |fm|
    ensures |MatchedPositions(fm, n)| + |UnmatchedHome(fm, n)| == n
  {
    if n > 0 {
      HomeRowCount(fm, n - 1);
      var m, uh := MatchedPositions(fm, n - 1), UnmatchedHome(fm, n - 1);
      if Committed(fm, n - 1) {
        assert MatchedPositions(fm, n) == m + [IndexPair(Some(n - 1), fm[n - 1])];
        assert UnmatchedHome(fm, n) == uh + [];
      } else {
        assert MatchedPositions(fm, n) == m + [];
        assert UnmatchedHome(fm, n) == uh + [IndexPair(Some(n - 1), None)];
      }
    }
  }

  /** As many visiting entries are claimed as pairs are committed. */
  lemma {:induction false} ClaimedCount(fm: seq<Option<nat>>, n: nat)
    requires n <= |fm|
    ensures |Claimed(fm, n)| == |MatchedPositions(fm, n)|
  {
    if n > 0 {
      ClaimedCount(fm, n - 1);
    }
  }

  /** The positions below `n`. */
  function Below(n: nat): (r: set<nat>)
    ensures forall v: nat :: v in r <==> v < n
    ensures |r| == n
  {
    if n == 0 then {}
    else
      var smaller := Below(n - 1);
      assert n - 1 !in smaller;
      smaller + {n - 1}
  }

  /** How many positions below `m` are in `c`, counted one position at a time. */
  function CountIn(c: set<nat>, m: nat): nat
  {
    if m == 0 then 0 else CountIn(c, m - 1) + (if m - 1 in c then 1 else 0)
  }

  /** The count agrees with the size of the set of positions of `c` below `m`. */
  lemma {:induction false} CountInIsCardinality(c: set<nat>, m: nat)
    ensures CountIn(c, m) == |c * Below(m)|
  {
    if m > 0 {
      CountInIsCardinality(c, m - 1);
      CountInStep(c, m);
    } else {
      assert c * Below(0) == {};
    }
  }

  /** One more position adds one to both sides exactly when it is in `c`. */
  lemma CountInStep(c: set<nat>, m: nat)
    requires m > 0 && CountIn(c, m - 1) == |c * Below(m - 1)|
    ensures CountIn(c, m) == |c * Below(m)|
  {
    var before := c * Below(m - 1);
    if m - 1 in c {
      assert m - 1 !in before;
      assert c * Below(m) == before + {m - 1};
      assert |before + {m - 1}| == |before| + 1;
    } else {
      assert c * Below(m) == before;
    }
  }

  /** The third loop pushes one row per unclaimed visiting entry below `m`. */
  lemma {:induction false} VisitingRowCount(fm: seq<Option<nat>>, m: nat)
    ensures |UnmatchedVisiting(fm, m)| + CountIn(Claimed(fm, |fm|), m) == m
  {
    if m > 0 {
      VisitingRowCount(fm, m - 1);
    }
  }

  lemma SubsetCardinality(a: set<nat>, b: set<nat>)
    requires a <= b
    ensures |a| <= |b|
  {
    assert b == a + (b - a);
  }

  /** The output has |home| + |visiting| rows minus one per committed pair. */
  lemma PairCount(fm: seq<Option<nat>>, nv: nat)
    requires ValidMatches(fm, nv)
    ensures |PairPositions(fm, nv)| == |fm| + nv - MatchedCount(fm)
    ensures MatchedCount(fm) <= |fm| && MatchedCount(fm) <= nv
  {
    var c := Claimed(fm, |fm|);
    HomeRowCount(fm, |fm|);
    ClaimedCount(fm, |fm|);
    VisitingRowCount(fm, nv);
    CountInIsCardinality(c, nv);
    ClaimedInRange(fm, nv, |fm|);
    assert c * Below(nv) == c;
    SubsetCardinality(c, Below(nv));
  }

  /** Every home position appears in some row. */
  lemma EachHomeEntryListed(fm: seq<Option<nat>>, nv: nat, i: nat)
    requires i < |fm|
    ensures exists k :: 0 <= k < |PairPositions(fm, nv)| && PairPositions(fm, nv)[k].home == Some(i)
  {
    var m, uh, uv := MatchedPositions(fm, |fm|), UnmatchedHome(fm, |fm|), UnmatchedVisiting(fm, nv);
    var k: nat;
    if Committed(fm, i) {
      MatchedPositionsComplete(fm, |fm|, i);
      var j :| 0 <= j < |m| && m[j] == IndexPair(Some(i), fm[i]);
      k := j;
    } else {
      UnmatchedHomeComplete(fm, |fm|, i);
      var j :| 0 <= j < |uh| && uh[j] == IndexPair(Some(i), None);
      k := |m| + j;
    }
    InBlocks(m, uh, uv, k);
    assert PairPositions(fm, nv)[k].home == Some(i);
  }

  /** No home position appears in two rows. */
  lemma EachHomeEntryOnce(fm: seq<Option<nat>>, nv: nat, i: nat)
    ensures var ps := PairPositions(fm, nv);
      forall k1, k2 :: (0 <= k1 < |ps| && 0 <= k2 < |ps| && ps[k1].home == Some(i) && ps[k2].home == Some(i)) ==> k1 == k2
  {
    var m, uh, uv := MatchedPositions(fm, |fm|), UnmatchedHome(fm, |fm|), UnmatchedVisiting(fm, nv);
    var ps := PairPositions(fm, nv);
    forall k1, k2 | 0 <= k1 < |ps| && 0 <= k2 < |ps| && ps[k1].home == Some(i) && ps[k2].home == Some(i)
      ensures k1 == k2
    {
      InBlocks(m, uh, uv, k1);
      InBlocks(m, uh, uv, k2);
    }
  }

  /** A claimed visiting entry is the first match of a committed home entry. */
  lemma ClaimedByCommitted(fm: seq<Option<nat>>, v: nat) returns (i: nat)
    requires v in Claimed(fm, |fm|)
    ensures i < |fm| && fm[i] == Some(v) && Committed(fm, i)
  {
    var n := |fm|;
    while v in Claimed(fm, n - 1)
      invariant 0 < n <= |fm| && v in Claimed(fm, n)
      decreases n
    {
      n := n - 1;
    }
    i := n - 1;
  }

  /** Every visiting position appears in some row. */
  lemma EachVisitingEntryListed(fm: seq<Option<nat>>, nv: nat, v: nat)
    requires v < nv
    ensures exists k :: 0 <= k < |PairPositions(fm, nv)| && PairPositions(fm, nv)[k].visiting == Some(v)
  {
    var m, uh, uv := MatchedPositions(fm, |fm|), UnmatchedHome(fm, |fm|), UnmatchedVisiting(fm, nv);
    var k: nat;
    if v in Claimed(fm, |fm|) {
      var i := ClaimedByCommitted(fm, v);
      MatchedPositionsComplete(fm, |fm|, i);
      var j :| 0 <= j < |m| && m[j] == IndexPair(Some(i), fm[i]);
      k := j;
    } else {
      UnmatchedVisitingComplete(fm, nv, v);
      var j :| 0 <= j < |uv| && uv[j] == IndexPair(None, Some(v));
      k := |m| + |uh| + j;
    }
    InBlocks(m, uh, uv, k);
    assert PairPositions(fm, nv)[k].visiting == Some(v);
  }

  /** No visiting position appears in two rows. */
  lemma EachVisitingEntryOnce(fm: seq<Option<nat>>, nv: nat, v: nat)
    ensures var ps := PairPositions(fm, nv);
      forall k1, k2 :: (0 <= k1 < |ps| && 0 <= k2 < |ps| && ps[k1].visiting == Some(v) && ps[k2].visiting == Some(v)) ==> k1 == k2
  {
    var m, uh, uv := MatchedPositions(fm, |fm|), UnmatchedHome(fm, |fm|), UnmatchedVisiting(fm, nv);
    var ps := PairPositions(fm, nv);
    forall k1, k2 | 0 <= k1 < |ps| && 0 <= k2 < |ps| && ps[k1].visiting == Some(v) && ps[k2].visiting == Some(v)
      ensures k1 == k2
    {
      InBlocks(m, uh, uv, k1);
      InBlocks(m, uh, uv, k2);
      ClaimedIffEarlierMatch(fm, |fm|, v);
      if k1 < |m| {
        assert fm[m[k1].home.value] == Some(v);
      }
      if k2 < |m| {
        assert fm[m[k2].home.value] == Some(v);
      }
      if k1 < |m| && k2 < |m| && k1 != k2 {
        NoVisitingClaimedTwice(fm, m[k1].home.value, m[k2].home.value);
      }
    }
  }

  /** Every matched row of `matchedPairs` holds a home listing and the first visiting
      listing whose title is similar to it. */
  lemma MatchedRowsUseFirstMatch(home: seq<ProcessedProduct>, visiting: seq<ProcessedProduct>)
    ensures forall k :: 0 <= k < |PairPositions(FirstMatches(home, visiting), |visiting|)| ==>
      var p := PairPositions(FirstMatches(home, visiting), |visiting|)[k];
      p.home.Some? && p.visiting.Some? ==>
        p.home.value < |home| && p.visiting == FirstMatchIndex(home[p.home.value], visiting)
  {
    var fm := FirstMatches(home, visiting);
    var m, uh, uv := MatchedPositions(fm, |fm|), UnmatchedHome(fm, |fm|), UnmatchedVisiting(fm, |visiting|);
    forall k | 0 <= k < |PairPositions(fm, |visiting|)|
      ensures var p := PairPositions(fm, |visiting|)[k];
        p.home.Some? && p.visiting.Some? ==> p.home.value < |home| && p.visiting == FirstMatchIndex(home[p.home.value], visiting)
    {
      InBlocks(m, uh, uv, k);
    }
  }

  // ---------------------------------------------------------------------------
  // hasMatchedProducts and the cheaper highlight
  // ---------------------------------------------------------------------------

  /** `matchedPairs.some((pair) => pair.home && pair.visiting)`. */
  predicate HasMatchedProducts(matchedPairs: seq<Pair>)
  {
    exists k :: 0 <= k < |matchedPairs| && matchedPairs[k].home.Some? && matchedPairs[k].visiting.Some?
  }

  /** The first loop pushes something exactly when some home entry is committed. */
  lemma MatchedCountPositive(fm: seq<Option<nat>>)
    ensures MatchedCount(fm) > 0 <==> exists i :: 0 <= i < |fm| && Committed(fm, i)
  {
    var m := MatchedPositions(fm, |fm|);
    forall i | 0 <= i < |fm| && Committed(fm, i)
      ensures IndexPair(Some(i), fm[i]) in m
    {
      MatchedPositionsComplete(fm, |fm|, i);
    }
    if |m| > 0 {
      var i := m[0].home.value;
      assert 0 <= i < |fm| && Committed(fm, i);
    }
  }

  /** A row holds both sides exactly when the first loop pushed it. */
  lemma BothSidesIffMatched(fm: seq<Option<nat>>, nv: nat)
    ensures var ps := PairPositions(fm, nv);
      (exists k :: 0 <= k < |ps| && ps[k].home.Some? && ps[k].visiting.Some?) <==> MatchedCount(fm) > 0
  {
    var ps := PairPositions(fm, nv);
    PairOrder(fm, nv);
    if MatchedCount(fm) > 0 {
      assert ps[0].home.Some? && ps[0].visiting.Some?;
    }
  }

  /** The comparison table shows exactly when the first loop committed a pair. */
  lemma HasMatchedProductsIffCommitted(home: seq<ProcessedProduct>, visiting: seq<ProcessedProduct>)
    ensures var fm := FirstMatches(home, visiting);
      HasMatchedProducts(Pairing(home, visiting)) <==> exists i :: 0 <= i < |home| && Committed(fm, i)
    ensures HasMatchedProducts(Pairing(home, visiting)) <==> MatchedCount(FirstMatches(home, visiting)) > 0
  {
    var fm := FirstMatches(home, visiting);
    var ps := PairPositions(fm, |visiting|);
    var pairs := Pairing(home, visiting);
    PositionsInRange(fm, |visiting|);
    BothSidesIffMatched(fm, |visiting|);
    MatchedCountPositive(fm);
    if HasMatchedProducts(pairs) {
      var k :| 0 <= k < |pairs| && pairs[k].home.Some? && pairs[k].visiting.Some?;
      assert ps[k].home.Some? && ps[k].visiting.Some?;
    }
    if exists k :: 0 <= k < |ps| && ps[k].home.Some? && ps[k].visiting.Some? {
      var k :| 0 <= k < |ps| && ps[k].home.Some? && ps[k].visiting.Some?;
      assert pairs[k].home.Some? && pairs[k].visiting.Some?;
    }
  }

  /** The class of the home cell (lines 140-147): home is cheaper than the visiting
      price converted at `exchangeRate`. Zero prices and a null, undefined or zero
      rate are falsy and switch the highlight off. */
  predicate HomeCellHighlighted(pair: Pair, exchangeRate: Option<real>)
  {
    pair.visiting.Some? && pair.home.Some? &&
    pair.home.value.numericPrice != 0.0 && pair.visiting.value.numericPrice != 0.0 &&
    exchangeRate.Some? && exchangeRate.value != 0.0 &&
    pair.home.value.numericPrice < pair.visiting.value.numericPrice / exchangeRate.value
  }

  /** The class of the visiting cell (lines 168-176). */
  predicate VisitingCellHighlighted(pair: Pair, exchangeRate: Option<real>)
  {
    pair.home.Some? && pair.visiting.Some? &&
    pair.visiting.value.numericPrice != 0.0 && pair.home.value.numericPrice != 0.0 &&
    exchangeRate.Some? && exchangeRate.value != 0.0 &&
    pair.visiting.value.numericPrice / exchangeRate.value < pair.home.value.numericPrice
  }

  /** At most one cell of a row is highlighted; equal converted prices, a zero price
      and a missing or zero rate highlight neither. */
  lemma HighlightIsExclusive(pair: Pair, exchangeRate: Option<real>)
    ensures !(HomeCellHighlighted(pair, exchangeRate) && VisitingCellHighlighted(pair, exchangeRate))
    ensures exchangeRate.None? || exchangeRate == Some(0.0) ==>
      !HomeCellHighlighted(pair, exchangeRate) && !VisitingCellHighlighted(pair, exchangeRate)
    ensures pair.home.Some? && pair.home.value.numericPrice == 0.0 ==>
      !HomeCellHighlighted(pair, exchangeRate) && !VisitingCellHighlighted(pair, exchangeRate)
    ensures pair.visiting.Some? && pair.visiting.value.numericPrice == 0.0 ==>
      !HomeCellHighlighted(pair, exchangeRate) && !VisitingCellHighlighted(pair, exchangeRate)
    ensures (pair.home.Some? && pair.visiting.Some? && exchangeRate.Some? && exchangeRate.value != 0.0 &&
      pair.home.value.numericPrice == pair.visiting.value.numericPrice / exchangeRate.value) ==>
      !HomeCellHighlighted(pair, exchangeRate) && !VisitingCellHighlighted(pair, exchangeRate)
  {
  }

  /** For a full row with non-zero prices and a usable rate, some cell is highlighted
      exactly when the converted prices differ, and it is the cheaper side's. */
  lemma HighlightMarksCheaperSide(pair: Pair, exchangeRate: Option<real>)
    requires pair.home.Some? && pair.visiting.Some? && exchangeRate.Some? && exchangeRate.value != 0.0
    requires pair.home.value.numericPrice != 0.0 && pair.visiting.value.numericPrice != 0.0
    ensures HomeCellHighlighted(pair, exchangeRate) || VisitingCellHighlighted(pair, exchangeRate) <==>
      pair.home.value.numericPrice != pair.visiting.value.numericPrice / exchangeRate.value
    ensures HomeCellHighlighted(pair, exchangeRate) <==>
      pair.home.value.numericPrice < pair.visiting.value.numericPrice / exchangeRate.value
  {
  }
}
