/** The search endpoint (app/api/search/route.ts): cleaning the text the language model
    sends back, checking the shape of the parsed listings, filling in defaults, and the
    status code of the `POST` handler. */
module SearchRoute {

  import opened Wrappers
  import opened Listings

  // ---------------------------------------------------------------------------
  // String.prototype.trim
  // ---------------------------------------------------------------------------

  /** The code points `trim` removes: the WhiteSpace and LineTerminator characters of
      section 12.2 and 12.3 of ECMA-262. */
  predicate IsJsWhitespace(c: char)
  {
    var n := c as int;
    (9 <= n <= 13) || n == 0x20 || n == 0xA0 || n == 0x1680 || (0x2000 <= n <= 0x200A) ||
    n == 0x2028 || n == 0x2029 || n == 0x202F || n == 0x205F || n == 0x3000 || n == 0xFEFF
  }

  /** Drops the leading whitespace. */
  function TrimStart(s: string): string
  {
    if |s| > 0 && IsJsWhitespace(s[0]) then TrimStart(s[1..]) else s
  }

  /** Drops the trailing whitespace. */
  function TrimEnd(s: string): string
  {
    if |s| > 0 && IsJsWhitespace(s[|s| - 1]) then TrimEnd(s[..|s| - 1]) else s
  }

  function Trim(s: string): string
  {
    TrimEnd(TrimStart(s))
  }

  /** `TrimStart` removes a prefix of whitespace, as long as there is one. */
  lemma {:induction false} TrimStartDropsLeadingWhitespace(s: string)
    ensures |TrimStart(s)| <= |s| && TrimStart(s) == s[|s| - |TrimStart(s)|..]
    ensures forall k :: 0 <= k < |s| - |TrimStart(s)| ==> IsJsWhitespace(s[k])
    ensures |TrimStart(s)| > 0 ==> !IsJsWhitespace(TrimStart(s)[0])
    decreases |s|
  {
    if |s| > 0 && IsJsWhitespace(s[0]) {
      var t := s[1..];
      TrimStartDropsLeadingWhitespace(t);
      assert t[|t| - |TrimStart(t)|..] == s[|s| - |TrimStart(t)|..];
      assert forall k :: 1 <= k < |s| ==> s[k] == t[k - 1];
    }
  }

  /** `TrimEnd` removes a suffix of whitespace, as long as there is one. */
  lemma {:induction false} TrimEndDropsTrailingWhitespace(s: string)
    ensures |TrimEnd(s)| <= |s| && TrimEnd(s) == s[..|TrimEnd(s)|]
    ensures forall k :: |TrimEnd(s)| <= k < |s| ==> IsJsWhitespace(s[k])
    ensures |TrimEnd(s)| > 0 ==> !IsJsWhitespace(TrimEnd(s)[|TrimEnd(s)| - 1])
    decreases |s|
  {
    if |s| > 0 && IsJsWhitespace(s[|s| - 1]) {
      var t := s[..|s| - 1];
      TrimEndDropsTrailingWhitespace(t);
      assert t[..|TrimEnd(t)|] == s[..|TrimEnd(t)|];
    }
  }

  // ---------------------------------------------------------------------------
  // The cleaning of line 86
  // ---------------------------------------------------------------------------

  /** `.replace(/^[^\[]+/, '')`: drops the longest prefix without `[`. */
  function DropBeforeOpen(s: string): string
  {
    if |s| == 0 || s[0] == '[' then s else DropBeforeOpen(s[1..])
  }

  /** `.replace(/[^\]]+$/, '')`: drops the longest suffix without `]`. */
  function DropAfterClose(s: string): string
  {
    if |s| == 0 || s[|s| - 1] == ']' then s else DropAfterClose(s[..|s| - 1])
  }

  /** The first replacement removes a prefix without `[`, and stops at a `[`. */
  lemma {:induction false} DropBeforeOpenStopsAtOpen(s: string)
    ensures |DropBeforeOpen(s)| <= |s| && DropBeforeOpen(s) == s[|s| - |DropBeforeOpen(s)|..]
    ensures forall k :: 0 <= k < |s| - |DropBeforeOpen(s)| ==> s[k] != '['
    ensures |DropBeforeOpen(s)| > 0 ==> DropBeforeOpen(s)[0] == '['
    decreases |s|
  {
    if |s| > 0 && s[0] != '[' {
      var t := s[1..];
      DropBeforeOpenStopsAtOpen(t);
      assert t[|t| - |DropBeforeOpen(t)|..] == s[|s| - |DropBeforeOpen(t)|..];
      assert forall k :: 1 <= k < |s| ==> s[k] == t[k - 1];
    }
  }

  /** The second replacement removes a suffix without `]`, and stops at a `]`. */
  lemma {:induction false} DropAfterCloseStopsAtClose(s: string)
    ensures |DropAfterClose(s)| <= |s| && DropAfterClose(s) == s[..|DropAfterClose(s)|]
    ensures forall k :: |DropAfterClose(s)| <= k < |s| ==> s[k] != ']'
    ensures |DropAfterClose(s)| > 0 ==> DropAfterClose(s)[|DropAfterClose(s)| - 1] == ']'
    decreases |s|
  {
    if |s| > 0 && s[|s| - 1] != ']' {
      var t := s[..|s| - 1];
      DropAfterCloseStopsAtClose(t);
      assert t[..|DropAfterClose(t)|] == s[..|DropAfterClose(t)|];
    }
  }

  /** The two replacements of line 86, applied to already trimmed text. */
  function DropOutsideBrackets(s: string): string
  {
    DropAfterClose(DropBeforeOpen(s))
  }

  /** `responseText.trim().replace(/^[^\[]+/, '').replace(/[^\]]+$/, '')`. */
  function CleanResponseText(responseText: string): string
  {
    DropOutsideBrackets(Trim(responseText))
  }

  /** What is left after cleaning is empty or runs from a `[` to a `]`. */
  lemma {:induction false} CleanIsEmptyOrBracketed(responseText: string)
    ensures var r := CleanResponseText(responseText);
      r == [] || (|r| >= 2 && r[0] == '[' && r[|r| - 1] == ']')
  {
    var d := DropBeforeOpen(Trim(responseText));
    DropBeforeOpenStopsAtOpen(Trim(responseText));
    DropAfterCloseStopsAtClose(d);
    var r := DropAfterClose(d);
    assert |r| > 0 ==> r[0] == d[0];
  }

  /** The position of the first `c` in `s`, if any. */
  function FirstIndexOf(s: string, c: char): (r: Option<nat>)
    ensures r.None? ==> forall k :: 0 <= k < |s| ==> s[k] != c
    ensures r.Some? ==> r.value < |s| && s[r.value] == c && forall k :: 0 <= k < r.value ==> s[k] != c
  {
    if |s| == 0 then None
    else if s[0] == c then Some(0)
    else match FirstIndexOf(s[1..], c)
      case None => None
      case Some(i) => Some(i + 1)
  }

  /** The position of the last `c` in `s`, if any. */
  function LastIndexOf(s: string, c: char): (r: Option<nat>)
    ensures r.None? ==> forall k :: 0 <= k < |s| ==> s[k] != c
    ensures r.Some? ==> r.value < |s| && s[r.value] == c && forall k :: r.value < k < |s| ==> s[k] != c
  {
    if |s| == 0 then None
    else if s[|s| - 1] == c then Some(|s| - 1)
    else LastIndexOf(s[..|s| - 1], c)
  }

  /** A `c` at `i` with none before it is the first one. */
  lemma {:induction false} FirstIndexIs(s: string, c: char, i: nat)
    requires i < |s| && s[i] == c
    requires forall k :: 0 <= k < i ==> s[k] != c
    ensures FirstIndexOf(s, c) == Some(i)
  {
  }

  /** A `c` at `j` with none after it is the last one. */
  lemma {:induction false} LastIndexIs(s: string, c: char, j: nat)
    requires j < |s| && s[j] == c
    requires forall k :: j < k < |s| ==> s[k] != c
    ensures LastIndexOf(s, c) == Some(j)
  {
  }

  lemma {:induction false} NoIndexOf(s: string, c: char)
    requires forall k :: 0 <= k < |s| ==> s[k] != c
    ensures FirstIndexOf(s, c).None? && LastIndexOf(s, c).None?
  {
  }

  /** The first replacement leaves the text from the first `[` on, or nothing. */
  lemma {:induction false} DropBeforeOpenFromFirst(s: string)
    ensures FirstIndexOf(s, '[').None? ==> DropBeforeOpen(s) == []
    ensures FirstIndexOf(s, '[').Some? ==> DropBeforeOpen(s) == s[FirstIndexOf(s, '[').value..]
  {
    var r := DropBeforeOpen(s);
    DropBeforeOpenStopsAtOpen(s);
    var p := |s| - |r|;
    if |r| > 0 {
      assert s[p] == r[0];
      FirstIndexIs(s, '[', p);
    } else {
      NoIndexOf(s, '[');
    }
  }

  /** The second replacement keeps the text up to the last `]`, or nothing. */
  lemma {:induction false} DropAfterCloseToLast(s: string)
    ensures LastIndexOf(s, ']').None? ==> DropAfterClose(s) == []
    ensures LastIndexOf(s, ']').Some? ==> DropAfterClose(s) == s[..LastIndexOf(s, ']').value + 1]
  {
    var r := DropAfterClose(s);
    DropAfterCloseStopsAtClose(s);
    if |r| > 0 {
      assert s[|r| - 1] == r[|r| - 1];
      LastIndexIs(s, ']', |r| - 1);
    } else {
      NoIndexOf(s, ']');
    }
  }

  /** The bracket span: if the first `[` comes before the last `]`, the text from the one
      through the other; otherwise, and when either is missing, nothing. */
  function BracketSpan(s: string): string
  {
    var i := FirstIndexOf(s, '[');
    var j := LastIndexOf(s, ']');
    if i.Some? && j.Some? && i.value < j.value then s[i.value..j.value + 1] else []
  }

  /** The last `]` of a suffix is the last `]` of the whole text, if it falls inside. */
  lemma {:induction false} LastCloseOfSuffix(s: string, i: nat)
    requires i < |s| && s[i] == '['
    ensures var j, js := LastIndexOf(s, ']'), LastIndexOf(s[i..], ']');
      if j.Some? && i < j.value then js == Some(j.value - i) else js.None?
  {
    var j, d := LastIndexOf(s, ']'), s[i..];
    if j.Some? && i < j.value {
      assert d[j.value - i] == ']';
      assert forall k :: j.value - i < k < |d| ==> d[k] == s[i + k];
      LastIndexIs(d, ']', j.value - i);
    } else {
      assert forall k :: 0 <= k < |d| ==> d[k] == s[i + k];
      NoIndexOf(d, ']');
    }
  }

  /** The two replacements leave exactly the bracket span. */
  lemma {:induction false} DropOutsideBracketsIsSpan(s: string)
    ensures DropOutsideBrackets(s) == BracketSpan(s)
  {
    var i := FirstIndexOf(s, '[');
    DropBeforeOpenFromFirst(s);
    if i.Some? {
      DropAfterCloseOfSuffix(s, i.value);
    } else {
      assert DropBeforeOpen(s) == [];
      assert DropAfterClose([]) == [];
    }
  }

  /** The second replacement, applied to the text from the first `[` on. */
  lemma {:induction false} DropAfterCloseOfSuffix(s: string, i: nat)
    requires FirstIndexOf(s, '[') == Some(i)
    ensures DropAfterClose(s[i..]) == BracketSpan(s)
  {
    var j, d := LastIndexOf(s, ']'), s[i..];
    LastCloseOfSuffix(s, i);
    DropAfterCloseToLast(d);
    if j.Some? && i < j.value {
      assert d[..j.value - i + 1] == s[i..j.value + 1];
    }
  }

  /** The cleaned text is the bracket span of the trimmed text. */
  lemma {:induction false} CleanIsBracketSpan(responseText: string)
    ensures CleanResponseText(responseText) == BracketSpan(Trim(responseText))
  {
    DropOutsideBracketsIsSpan(Trim(responseText));
  }

  /** Trimming keeps a slice of the text, and drops only whitespace. */
  lemma {:induction false} TrimIsSlice(s: string) returns (a: nat, b: nat)
    ensures a <= b <= |s| && Trim(s) == s[a..b]
    ensures forall k :: 0 <= k < a ==> IsJsWhitespace(s[k])
    ensures forall k :: b <= k < |s| ==> IsJsWhitespace(s[k])
  {
    var u := TrimStart(s);
    TrimStartDropsLeadingWhitespace(s);
    TrimEndDropsTrailingWhitespace(u);
    a := |s| - |u|;
    b := a + |Trim(s)|;
    assert forall k :: b <= k < |s| ==> s[k] == u[k - a];
  }

  /** Cutting off text without `c` moves the first `c` by the length cut off the front. */
  lemma {:induction false} FirstIndexOfSlice(s: string, c: char, a: nat, b: nat)
    requires a <= b <= |s|
    requires forall k :: 0 <= k < a ==> s[k] != c
    requires forall k :: b <= k < |s| ==> s[k] != c
    ensures FirstIndexOf(s, c).Some? ==> a <= FirstIndexOf(s, c).value < b
    ensures FirstIndexOf(s[a..b], c) ==
      (if FirstIndexOf(s, c).Some? then Some(FirstIndexOf(s, c).value - a) else None)
  {
    var t, i := s[a..b], FirstIndexOf(s, c);
    assert forall k :: 0 <= k < |t| ==> t[k] == s[a + k];
    if i.Some? {
      FirstIndexIs(t, c, i.value - a);
    } else {
      NoIndexOf(t, c);
    }
  }

  /** Cutting off text without `c` moves the last `c` by the length cut off the front. */
  lemma {:induction false} LastIndexOfSlice(s: string, c: char, a: nat, b: nat)
    requires a <= b <= |s|
    requires forall k :: 0 <= k < a ==> s[k] != c
    requires forall k :: b <= k < |s| ==> s[k] != c
    ensures LastIndexOf(s, c).Some? ==> a <= LastIndexOf(s, c).value < b
    ensures LastIndexOf(s[a..b], c) ==
      (if LastIndexOf(s, c).Some? then Some(LastIndexOf(s, c).value - a) else None)
  {
    var t, j := s[a..b], LastIndexOf(s, c);
    assert forall k :: 0 <= k < |t| ==> t[k] == s[a + k];
    if j.Some? {
      LastIndexIs(t, c, j.value - a);
    } else {
      NoIndexOf(t, c);
    }
  }

  lemma {:induction false} SliceOfSlice(s: string, a: nat, b: nat, i: nat, j: nat)
    requires a <= i <= j < b <= |s|
    ensures s[a..b][i - a..j - a + 1] == s[i..j + 1]
  {
    var u, v := s[a..b][i - a..j - a + 1], s[i..j + 1];
    assert forall k :: 0 <= k < |u| ==> u[k] == v[k];
  }

  /** Cutting off text that holds no bracket leaves the bracket span alone. */
  lemma {:induction false} BracketSpanOfSlice(s: string, a: nat, b: nat)
    requires a <= b <= |s|
    requires forall k :: 0 <= k < a ==> s[k] != '[' && s[k] != ']'
    requires forall k :: b <= k < |s| ==> s[k] != '[' && s[k] != ']'
    ensures BracketSpan(s[a..b]) == BracketSpan(s)
  {
    var i, j := FirstIndexOf(s, '['), LastIndexOf(s, ']');
    FirstIndexOfSlice(s, '[', a, b);
    LastIndexOfSlice(s, ']', a, b);
    if i.Some? && j.Some? && i.value < j.value {
      SpanOfSliceBetween(s, a, b, i.value, j.value);
    } else {
      assert BracketSpan(s[a..b]) == [];
    }
  }

  lemma {:induction false} SpanOfSliceBetween(s: string, a: nat, b: nat, i: nat, j: nat)
    requires a <= i < j < b <= |s|
    requires FirstIndexOf(s, '[') == Some(i) && LastIndexOf(s, ']') == Some(j)
    requires FirstIndexOf(s[a..b], '[') == Some(i - a) && LastIndexOf(s[a..b], ']') == Some(j - a)
    ensures BracketSpan(s[a..b]) == BracketSpan(s)
  {
    BracketSpanAt(s[a..b], i - a, j - a);
    BracketSpanAt(s, i, j);
    SliceOfSlice(s, a, b, i, j);
  }

  lemma {:induction false} BracketSpanAt(s: string, i: nat, j: nat)
    requires i < j < |s|
    requires FirstIndexOf(s, '[') == Some(i) && LastIndexOf(s, ']') == Some(j)
    ensures BracketSpan(s) == s[i..j + 1]
  {
  }

  lemma {:induction false} WhitespaceIsNotBracket(c: char)
    requires IsJsWhitespace(c)
    ensures c != '[' && c != ']'
  {
  }

  /** What trimming cuts off holds no bracket. */
  lemma {:induction false} TrimCutsNoBracket(s: string) returns (a: nat, b: nat)
    ensures a <= b <= |s| && Trim(s) == s[a..b]
    ensures forall k :: 0 <= k < a ==> s[k] != '[' && s[k] != ']'
    ensures forall k :: b <= k < |s| ==> s[k] != '[' && s[k] != ']'
  {
    a, b := TrimIsSlice(s);
    forall k | 0 <= k < a || b <= k < |s|
      ensures s[k] != '[' && s[k] != ']'
    {
      WhitespaceIsNotBracket(s[k]);
    }
  }

  /** Trimming first makes no difference: whitespace is neither `[` nor `]`. */
  lemma {:induction false} TrimDoesNotChangeClean(responseText: string)
    ensures CleanResponseText(responseText) == BracketSpan(responseText)
  {
    var a, b := TrimCutsNoBracket(responseText);
    CleanIsBracketSpan(responseText);
    BracketSpanOfSlice(responseText, a, b);
  }

  /** The bracket span of text that runs from `[` to `]` is the text itself. */
  lemma {:induction false} BracketSpanOfBracketed(s: string)
    requires |s| >= 2 && s[0] == '[' && s[|s| - 1] == ']'
    ensures BracketSpan(s) == s
  {
    FirstIndexIs(s, '[', 0);
    LastIndexIs(s, ']', |s| - 1);
    assert s[0..|s|] == s;
  }

  lemma {:induction false} BracketSpanOfEmbedded(before: string, listing: string, after: string)
    requires forall k :: 0 <= k < |before| ==> before[k] != '['
    requires |listing| >= 2 && listing[0] == '[' && listing[|listing| - 1] == ']'
    requires forall k :: 0 <= k < |after| ==> after[k] != ']'
    ensures BracketSpan(before + listing + after) == listing
  {
    var s := before + listing + after;
    var m := |before| + |listing|;
    assert forall k :: 0 <= k < |before| ==> s[k] == before[k];
    assert forall k :: m <= k < |s| ==> s[k] == after[k - m];
    assert s[|before|] == listing[0];
    assert s[m - 1] == listing[|listing| - 1];
    FirstIndexIs(s, '[', |before|);
    LastIndexIs(s, ']', m - 1);
    assert s[|before|..m] == listing;
  }

  /** Text around a JSON array is stripped off, whatever the array holds. */
  lemma {:induction false} CleanExtractsEmbeddedArray(before: string, listing: string, after: string)
    requires forall k :: 0 <= k < |before| ==> before[k] != '['
    requires |listing| >= 2 && listing[0] == '[' && listing[|listing| - 1] == ']'
    requires forall k :: 0 <= k < |after| ==> after[k] != ']'
    ensures CleanResponseText(before + listing + after) == listing
  {
    TrimDoesNotChangeClean(before + listing + after);
    BracketSpanOfEmbedded(before, listing, after);
  }

  /** Cleaning cleaned text changes nothing. */
  lemma {:induction false} CleanIdempotent(responseText: string)
    ensures CleanResponseText(CleanResponseText(responseText)) == CleanResponseText(responseText)
  {
    var r := CleanResponseText(responseText);
    CleanIsEmptyOrBracketed(responseText);
    TrimDoesNotChangeClean(r);
    if |r| > 0 {
      BracketSpanOfBracketed(r);
    } else {
      NoIndexOf(r, '[');
    }
  }

  // ---------------------------------------------------------------------------
  // Parsed JSON values
  // ---------------------------------------------------------------------------

  /** A JSON value with the kinds of section 3 of RFC 8259. An object keeps its members
      in text order, duplicates included. */
  datatype Json =
    | Null
    | Boolean(b: bool)
    | Number(n: real)
    | String(s: string)
    | Array(elements: seq<Json>)
    | Object(members: seq<(string, Json)>)

  /** The value `JSON.parse` gives a member name, None when no member has it. */
  function Lookup(members: seq<(string, Json)>, name: string): Option<Json>
  {
    if |members| == 0 then None
    else if members[|members| - 1].0 == name then Some(members[|members| - 1].1)
    else Lookup(members[..|members| - 1], name)
  }

  /** A name is missing exactly when no member carries it. */
  lemma {:induction false} LookupMissing(members: seq<(string, Json)>, name: string)
    ensures Lookup(members, name).None? <==> forall k :: 0 <= k < |members| ==> members[k].0 != name
    decreases |members|
  {
    if |members| > 0 {
      var front := members[..|members| - 1];
      LookupMissing(front, name);
      assert forall k :: 0 <= k < |front| ==> front[k] == members[k];
    }
  }

  /** Of several members with one name, the last one wins. */
  lemma {:induction false} LookupFindsLastMember(members: seq<(string, Json)>, name: string, k: nat)
    requires k < |members| && members[k].0 == name
    requires forall k' :: k < k' < |members| ==> members[k'].0 != name
    ensures Lookup(members, name) == Some(members[k].1)
    decreases |members|
  {
    if k < |members| - 1 {
      var front := members[..|members| - 1];
      assert front[k] == members[k];
      LookupFindsLastMember(front, name, k);
    }
  }

  /** `value.name`, with None for `undefined`: only objects have the members asked for
      here. */
  function Property(value: Json, name: string): Option<Json>
  {
    if value.Object? then Lookup(value.members, name) else None
  }

  /** JavaScript truthiness of a property; `undefined` is falsy. */
  predicate Truthy(v: Option<Json>)
  {
    match v
    case None => false
    case Some(Null) => false
    case Some(Boolean(b)) => b
    case Some(Number(n)) => n != 0.0
    case Some(String(s)) => s != ""
    case Some(Array(_)) => true
    case Some(Object(_)) => true
  }

  // ---------------------------------------------------------------------------
  // The validation of lines 89-110
  // ---------------------------------------------------------------------------

  /** The four fields each listing must carry, in the order they are checked. */
  datatype Field = Title | Price | Store | Link

  function FieldName(f: Field): string
  {
    match f
    case Title => "title"
    case Price => "price"
    case Store => "store"
    case Link => "link"
  }

  /** The position of a field among the checks. */
  function Rank(f: Field): nat
  {
    match f
    case Title => 0
    case Price => 1
    case Store => 2
    case Link => 3
  }

  /** `product.f` is present, a string, and not empty. */
  predicate ValidField(e: Json, f: Field)
  {
    var p := Property(e, FieldName(f));
    p.Some? && p.value.String? && p.value.s != ""
  }

  /** An element that passes every check of the `forEach`. */
  predicate IsValidListing(e: Json)
  {
    e.Object? && ValidField(e, Title) && ValidField(e, Price) && ValidField(e, Store) && ValidField(e, Link)
  }

  datatype ElementProblem = NotAnObject | InvalidField(field: Field)

  datatype ValidationError = NotAnArray | InvalidElement(index: nat, problem: ElementProblem)

  /** The checks of one element, in source order. `typeof` an array is 'object', so an
      array element gets past the first check and fails on its title. */
  function CheckElement(e: Json): (r: Option<ElementProblem>)
    ensures r.None? <==> IsValidListing(e)
    ensures r == Some(NotAnObject) <==> !(e.Object? || e.Array?)
    ensures r.Some? && r.value.InvalidField? ==>
      !ValidField(e, r.value.field) && forall g :: Rank(g) < Rank(r.value.field) ==> ValidField(e, g)
  {
    if !(e.Object? || e.Array?) then Some(NotAnObject)
    else if !ValidField(e, Title) then Some(InvalidField(Title))
    else if !ValidField(e, Price) then Some(InvalidField(Price))
    else if !ValidField(e, Store) then Some(InvalidField(Store))
    else if !ValidField(e, Link) then Some(InvalidField(Link))
    else None
  }

  /** The first position at or after `from` whose element fails a check. */
  function FirstInvalid(elements: seq<Json>, from: nat): (r: Option<nat>)
    requires from <= |elements|
    ensures r.None? <==> forall k :: from <= k < |elements| ==> IsValidListing(elements[k])
    ensures r.Some? ==> from <= r.value < |elements| && !IsValidListing(elements[r.value]) &&
                        (forall k :: from <= k < r.value ==> IsValidListing(elements[k]))
    decreases |elements| - from
  {
    if from == |elements| then None
    else if CheckElement(elements[from]).Some? then Some(from)
    else FirstInvalid(elements, from + 1)
  }

  /** Lines 89-110 as a whole: the parsed value must be an array, and the first element
      that fails a check is reported. */
  function Validation(parsed: Json): Result<seq<Json>, ValidationError>
  {
    if !parsed.Array? then Failure(NotAnArray)
    else match FirstInvalid(parsed.elements, 0)
      case None => Success(parsed.elements)
      case Some(i) => Failure(InvalidElement(i, CheckElement(parsed.elements[i]).value))
  }

  /** What `Validation` accepts and what it reports. */
  lemma {:induction false} ValidationOutcome(parsed: Json)
    ensures Validation(parsed) == Failure(NotAnArray) <==> !parsed.Array?
    ensures Validation(parsed).Success? <==>
      parsed.Array? && forall k :: 0 <= k < |parsed.elements| ==> IsValidListing(parsed.elements[k])
    ensures Validation(parsed).Success? ==> Validation(parsed).value == parsed.elements
    ensures Validation(parsed).Failure? && Validation(parsed).error.InvalidElement? ==>
      var i := Validation(parsed).error.index;
      parsed.Array? && i < |parsed.elements| &&
      CheckElement(parsed.elements[i]) == Some(Validation(parsed).error.problem) &&
      forall k :: 0 <= k < i ==> IsValidListing(parsed.elements[k])
  {
  }

  /** The `forEach` of lines 94-110: check the elements in order and stop at the first
      one that fails, reporting its index. */
  method ValidateProducts(products: seq<Json>) returns (error: Option<ValidationError>)
    ensures error.None? <==> forall k :: 0 <= k < |products| ==> IsValidListing(products[k])
    ensures error.Some? ==>
      error.value.InvalidElement? && error.value.index < |products| &&
      CheckElement(products[error.value.index]) == Some(error.value.problem) &&
      forall k :: 0 <= k < error.value.index ==> IsValidListing(products[k])
    ensures Validation(Array(products)) == (if error.None? then Success(products) else Failure(error.value))
  {
    var index := 0;
    while index < |products|
      invariant 0 <= index <= |products|
      invariant forall k :: 0 <= k < index ==> IsValidListing(products[k])
      invariant FirstInvalid(products, 0) == FirstInvalid(products, index)
    {
      var problem := CheckElement(products[index]);
      if problem.Some? {
        assert FirstInvalid(products, 0) == Some(index);
        return Some(InvalidElement(index, problem.value));
      }
      index := index + 1;
    }
    assert FirstInvalid(products, 0) == None;
    return None;
  }

  // ---------------------------------------------------------------------------
  // The defaulting map of lines 117-123
  // ---------------------------------------------------------------------------

  /** `value || placeholder` for a field read as a string. */
  function StringOr(v: Option<Json>, placeholder: string): string
  {
    if v.Some? && v.value.String? && v.value.s != "" then v.value.s else placeholder
  }

  function Placeholder(f: Field): string
  {
    match f
    case Title => "Unknown Product"
    case Price => "Price not available"
    case Store => "Unknown Store"
    case Link => "#"
  }

  function FieldOf(p: Product, f: Field): string
  {
    match f
    case Title => p.title
    case Price => p.price
    case Store => p.store
    case Link => p.link
  }

  /** One element of the map: the four fields with their placeholders, an empty image,
      and nothing else. Every field of the result is non-empty. */
  function ToProduct(e: Json): (p: Product)
    ensures forall f :: FieldOf(p, f) != ""
    ensures p.image == Some("")
  {
    Product(
      StringOr(Property(e, "title"), Placeholder(Title)),
      StringOr(Property(e, "price"), Placeholder(Price)),
      StringOr(Property(e, "link"), Placeholder(Link)),
      StringOr(Property(e, "store"), Placeholder(Store)),
      Some(""))
  }

  /** The map keeps length and order. */
  function ToProducts(elements: seq<Json>): (ps: seq<Product>)
    ensures |ps| == |elements|
    ensures forall i :: 0 <= i < |elements| ==> ps[i] == ToProduct(elements[i])
  {
    seq(|elements|, i requires 0 <= i < |elements| => ToProduct(elements[i]))
  }

  /** A field that passed validation is copied unchanged: the placeholder never fires. */
  lemma {:induction false} ValidFieldIsKept(e: Json, f: Field)
    requires ValidField(e, f)
    ensures Property(e, FieldName(f)) == Some(String(FieldOf(ToProduct(e), f)))
  {
  }

  /** A field that is missing, not a string or empty gets its placeholder. */
  lemma {:induction false} InvalidFieldGetsPlaceholder(e: Json, f: Field)
    requires !ValidField(e, f)
    ensures FieldOf(ToProduct(e), f) == Placeholder(f)
  {
  }

  // ---------------------------------------------------------------------------
  // searchProducts and POST
  // ---------------------------------------------------------------------------

  /** The body of the model's HTTP reply: not JSON at all, or JSON whose
      `candidates[0].content.parts[0].text` is the given value (None when any step of
      that path is missing). */
  datatype ReplyBody = Unreadable | Readable(text: Option<string>)

  /** What `fetch` yields: a network failure, or a response with its `ok` flag, status
      and body. */
  datatype ModelReply = NetworkFailure | HttpReply(ok: bool, status: int, body: ReplyBody)

  datatype ParseCause = NotJson | Rejected(error: ValidationError)

  /** The errors `searchProducts` throws. */
  datatype SearchError =
    | PromptNotBuilt
    | MissingApiKey
    | RequestFailed
    | BadStatus(status: int)
    | UnreadableReply
    | InvalidResponseFormat
    | ParseFailed(cause: ParseCause)

  /** Lines 84-123: clean the text, parse it, validate it and map it. */
  function ParseProducts(responseText: string, parse: string -> Option<Json>): Result<seq<Product>, SearchError>
  {
    match parse(CleanResponseText(responseText))
    case None => Failure(ParseFailed(NotJson))
    case Some(parsed) =>
      match Validation(parsed)
      case Failure(e) => Failure(ParseFailed(Rejected(e)))
      case Success(elements) => Success(ToProducts(elements))
  }

  /** Whether converting a parsed value to a string, as the template literal of line 32
      does, throws. A value parsed from JSON has no callable members, so an object with
      its own `toString` member (whatever its value) finds no callable `toString`, and its
      inherited `valueOf` returns the object itself: the conversion throws a TypeError.
      An object without that member converts to "[object Object]". An array converts
      through `join`, which converts every element that is not null. Strings, numbers,
      booleans and null always convert. */
  predicate ToStringThrows(v: Json)
  {
    match v
    case Object(members) => Lookup(members, "toString").Some?
    case Array(elements) => exists k :: 0 <= k < |elements| && ToStringThrows(elements[k])
    case _ => false
  }

  /** `searchProducts`, with the request's `country` and `query`, the environment's API
      key, the model's reply and `JSON.parse` as inputs. The prompt (line 32) is built
      before the key is read, so a `country` or `query` that cannot be converted to a
      string fails first. */
  function SearchProducts(country: Json, query: Json, apiKey: Option<string>, reply: ModelReply,
                          parse: string -> Option<Json>)
    : Result<seq<Product>, SearchError>
  {
    if ToStringThrows(query) || ToStringThrows(country) then Failure(PromptNotBuilt)
    else if apiKey.None? || apiKey.value == "" then Failure(MissingApiKey)
    else match reply
      case NetworkFailure => Failure(RequestFailed)
      case HttpReply(ok, status, body) =>
        if !ok then Failure(BadStatus(status))
        else match body
          case Unreadable => Failure(UnreadableReply)
          case Readable(text) =>
            if text.None? || text.value == "" then Failure(InvalidResponseFormat)
            else ParseProducts(text.value, parse)
  }

  /** The text of a reply that gets past the checks of lines 69-79, if any. */
  function ReplyText(reply: ModelReply): Option<string>
  {
    if reply.HttpReply? && reply.ok && reply.body.Readable? && reply.body.text.Some? && reply.body.text.value != ""
    then reply.body.text
    else None
  }

  /** The parsed value is an array of valid listings. */
  predicate IsValidListingArray(parsed: Option<Json>)
  {
    parsed.Some? && parsed.value.Array? &&
    forall k :: 0 <= k < |parsed.value.elements| ==> IsValidListing(parsed.value.elements[k])
  }

  /** Parsing succeeds exactly on an array of valid listings, and then maps that array. */
  lemma {:induction false} ParseProductsOutcome(responseText: string, parse: string -> Option<Json>)
    ensures ParseProducts(responseText, parse).Success? <==> IsValidListingArray(parse(CleanResponseText(responseText)))
    ensures ParseProducts(responseText, parse).Success? ==>
      ParseProducts(responseText, parse).value == ToProducts(parse(CleanResponseText(responseText)).value.elements)
  {
    var parsed := parse(CleanResponseText(responseText));
    if parsed.Some? {
      ValidationOutcome(parsed.value);
    }
  }

  /** A search succeeds exactly when every stage passes. */
  lemma {:induction false} SearchSucceedsOnlyOnValidatedArray(country: Json, query: Json, apiKey: Option<string>,
                                                                reply: ModelReply, parse: string -> Option<Json>)
    ensures SearchProducts(country, query, apiKey, reply, parse).Success? <==>
      !ToStringThrows(country) && !ToStringThrows(query) &&
      apiKey.Some? && apiKey.value != "" && ReplyText(reply).Some? &&
      IsValidListingArray(parse(CleanResponseText(ReplyText(reply).value)))
    ensures SearchProducts(country, query, apiKey, reply, parse).Success? ==>
      SearchProducts(country, query, apiKey, reply, parse).value ==
        ToProducts(parse(CleanResponseText(ReplyText(reply).value)).value.elements)
  {
    var search := SearchProducts(country, query, apiKey, reply, parse);
    if !ToStringThrows(country) && !ToStringThrows(query) && apiKey.Some? && apiKey.value != "" && ReplyText(reply).Some? {
      assert search == ParseProducts(ReplyText(reply).value, parse);
      ParseProductsOutcome(ReplyText(reply).value, parse);
    } else {
      assert search.Failure?;
    }
  }

  /** A valid listing passes every field check. */
  lemma {:induction false} ValidListingHasField(e: Json, f: Field)
    requires IsValidListing(e)
    ensures ValidField(e, f)
  {
    match f
    case Title =>
    case Price =>
    case Store =>
    case Link =>
  }

  /** The listings a successful search returns are the parsed elements, one for one and
      in order, with the four fields copied and an empty image. */
  lemma {:induction false} SearchKeepsListings(elements: seq<Json>)
    requires forall k :: 0 <= k < |elements| ==> IsValidListing(elements[k])
    ensures |ToProducts(elements)| == |elements|
    ensures forall i, f :: 0 <= i < |elements| ==>
      Property(elements[i], FieldName(f)) == Some(String(FieldOf(ToProducts(elements)[i], f)))
    ensures forall i :: 0 <= i < |elements| ==> ToProducts(elements)[i].image == Some("")
  {
    forall i, f | 0 <= i < |elements|
      ensures Property(elements[i], FieldName(f)) == Some(String(FieldOf(ToProducts(elements)[i], f)))
    {
      ValidListingHasField(elements[i], f);
      ValidFieldIsKept(elements[i], f);
    }
    forall i | 0 <= i < |elements|
      ensures ToProducts(elements)[i].image == Some("")
    {
      assert ToProducts(elements)[i] == ToProduct(elements[i]);
    }
  }

  datatype ResponseBody = ProductsBody(products: seq<Product>) | ErrorBody(error: string)

  datatype Response = Response(status: int, body: ResponseBody)

  /** `POST`: `requestBody` is what `request.json()` yields, None when the body is not
      JSON. Destructuring `null` throws, so a null body is a server error like an
      unreadable one; any other value without a truthy `country` and `query` is a
      client error; after that, any failure of the search, including a `country` or
      `query` that cannot be converted to a string, is a server error. */
  function Post(requestBody: Option<Json>, apiKey: Option<string>, reply: ModelReply, parse: string -> Option<Json>)
    : (r: Response)
    ensures r.status == 200 || r.status == 400 || r.status == 500
    ensures r.status == 200 <==> r.body.ProductsBody?
  {
    if requestBody.None? || requestBody.value.Null? then Response(500, ErrorBody("Internal server error"))
    else if !Truthy(Property(requestBody.value, "country")) || !Truthy(Property(requestBody.value, "query")) then
      Response(400, ErrorBody("Missing required fields"))
    else match SearchProducts(Property(requestBody.value, "country").value, Property(requestBody.value, "query").value,
                              apiKey, reply, parse)
      case Failure(_) => Response(500, ErrorBody("Internal server error"))
      case Success(products) => Response(200, ProductsBody(products))
  }

  /** A body that cannot be read, or that is `null`, throws before the field check
      (lines 133-134) and lands in the catch of lines 147-152. */
  lemma PostUnreadableBodyIs500(requestBody: Option<Json>, apiKey: Option<string>, reply: ModelReply,
                                parse: string -> Option<Json>)
    requires requestBody == None || requestBody == Some(Null)
    ensures Post(requestBody, apiKey, reply, parse) == Response(500, ErrorBody("Internal server error"))
  {
  }

  /** A non-null body without a truthy `country` or `query` is answered with 400 before the
      search runs: the answer is the same whatever the key, the reply and the parser. */
  lemma {:induction false} PostRejectsMissingFields(body: Json, apiKey: Option<string>, reply: ModelReply, parse: string -> Option<Json>,
                                 apiKey': Option<string>, reply': ModelReply, parse': string -> Option<Json>)
    requires !body.Null?
    requires !Truthy(Property(body, "country")) || !Truthy(Property(body, "query"))
    ensures Post(Some(body), apiKey, reply, parse) == Response(400, ErrorBody("Missing required fields"))
    ensures Post(Some(body), apiKey, reply, parse) == Post(Some(body), apiKey', reply', parse')
  {
  }

  /** Every failure inside the search becomes the same 500 answer. */
  lemma {:induction false} PostSearchFailureIs500(body: Json, apiKey: Option<string>, reply: ModelReply, parse: string -> Option<Json>)
    requires !body.Null? && Truthy(Property(body, "country")) && Truthy(Property(body, "query"))
    ensures var search := SearchProducts(Property(body, "country").value, Property(body, "query").value, apiKey, reply, parse);
      search.Failure? <==> Post(Some(body), apiKey, reply, parse) == Response(500, ErrorBody("Internal server error"))
    ensures var search := SearchProducts(Property(body, "country").value, Property(body, "query").value, apiKey, reply, parse);
      search.Success? ==> Post(Some(body), apiKey, reply, parse) == Response(200, ProductsBody(search.value))
  {
  }

  /** A truthy `country` or `query` that cannot be converted to a string passes the field
      check but makes the prompt throw: the answer is 500 whatever the key, the reply and
      the parser. */
  lemma {:induction false} PostUnconvertibleFieldIs500(body: Json, apiKey: Option<string>, reply: ModelReply,
                                                         parse: string -> Option<Json>)
    requires !body.Null? && Truthy(Property(body, "country")) && Truthy(Property(body, "query"))
    requires ToStringThrows(Property(body, "country").value) || ToStringThrows(Property(body, "query").value)
    ensures Post(Some(body), apiKey, reply, parse) == Response(500, ErrorBody("Internal server error"))
  {
  }

  /** A 200 answer carries exactly the validated listings of the reply. */
  lemma {:induction false} PostSuccessCarriesValidatedListings(requestBody: Option<Json>, apiKey: Option<string>,
                                                                 reply: ModelReply, parse: string -> Option<Json>)
    requires Post(requestBody, apiKey, reply, parse).status == 200
    ensures requestBody.Some? && Truthy(Property(requestBody.value, "country")) && Truthy(Property(requestBody.value, "query"))
    ensures !ToStringThrows(Property(requestBody.value, "country").value)
    ensures !ToStringThrows(Property(requestBody.value, "query").value)
    ensures ReplyText(reply).Some?
    ensures IsValidListingArray(parse(CleanResponseText(ReplyText(reply).value)))
    ensures Post(requestBody, apiKey, reply, parse).body.products ==
      ToProducts(parse(CleanResponseText(ReplyText(reply).value)).value.elements)
  {
    var body := requestBody.value;
    SearchSucceedsOnlyOnValidatedArray(Property(body, "country").value, Property(body, "query").value, apiKey, reply, parse);
  }
}
