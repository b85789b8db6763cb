/** The pure parts of the Netflix client: the query parameters of a catalog
    search, the "special edition" suffix a title's name loses when it is set,
    the title id taken from the id URL, and the runtime in minutes. */
module Netflix {
  import opened Ruby

  // ---------------------------------------------------------------------
  // `perform_search`: the search parameters
  // ---------------------------------------------------------------------

  /** The options `perform_search` reads; nil is `None`. */
  datatype SearchOptions = SearchOptions(page: Option<int>, perPage: Option<int>, expand: Option<seq<string>>)

  /** The keys of the parameter hash. */
  datatype Param = Term | MaxResults | StartIndex | Expand

  datatype ParamValue = Text(text: string) | Number(number: int)

  const DefaultPage := 1
  const DefaultPerPage := 5

  function PageOf(o: SearchOptions): int { o.page.GetOr(DefaultPage) }

  function PerPageOf(o: SearchOptions): int { o.perPage.GetOr(DefaultPerPage) }

  /** The offset of the first result of the requested page. */
  function Offset(o: SearchOptions): int { PerPageOf(o) * (PageOf(o) - 1) }

  /** `perform_search` up to the request: the parameter hash it expands into
      the search URL. */
  method SearchParams(query: string, o: SearchOptions) returns (params: map<Param, ParamValue>)
    ensures params.Keys == if o.expand.Some? then {Term, MaxResults, StartIndex, Expand} else {Term, MaxResults, StartIndex}
    ensures params[Term] == Text(query)
    ensures params[MaxResults] == Number(PerPageOf(o))
    ensures params[StartIndex] == Number(Offset(o))
    ensures o.expand.Some? ==> params[Expand] == Text(Join(o.expand.value, ","))
  {
    var page := if o.page.Some? then o.page.value else DefaultPage;
    var perPage := if o.perPage.Some? then o.perPage.value else DefaultPerPage;
    var offset := perPage * (page - 1);
    params := map[Term := Text(query), MaxResults := Number(perPage), StartIndex := Number(offset)];
    if o.expand.Some? {
      params := params[Expand := Text(Join(o.expand.value, ","))];
    }
  }

  /** Without a page the search starts at the first result. */
  lemma DefaultOffsetIsZero(o: SearchOptions)
    requires o.page.None?
    ensures Offset(o) == 0
  {
  }

  /** Consecutive pages are adjacent windows of `per_page` results, and page
      `p >= 1` starts at `per_page * (p - 1)`. */
  lemma {:induction false} PagesTile(perPage: Option<int>, expand: Option<seq<string>>, p: int)
    ensures var here := SearchOptions(Some(p), perPage, expand);
      var next := SearchOptions(Some(p + 1), perPage, expand);
      Offset(next) == Offset(here) + PerPageOf(here)
    ensures p >= 1 && PerPageOf(SearchOptions(Some(p), perPage, expand)) >= 0 ==>
      Offset(SearchOptions(Some(p), perPage, expand)) >= 0
  {
    var k := PerPageOf(SearchOptions(Some(p), perPage, expand));
    assert k * p == k * (p - 1) + k;
    if p >= 1 && k >= 0 {
      assert k * (p - 1) >= 0;
    }
  }

  /** The `expand` parameter splits back into the options it was joined from,
      when no option holds a comma. */
  lemma ExpandRoundTrip(expand: seq<string>)
    requires |expand| >= 1
    requires forall k, i :: 0 <= k < |expand| && 0 <= i < |expand[k]| ==> expand[k][i] != ','
    ensures Split(Join(expand, ","), ',') == expand
  {
    SplitJoin(expand, ',');
  }

  // ---------------------------------------------------------------------
  // `Title#name=`: `sub!(/(\s*:)?\s+special edition$/i, '')`
  // ---------------------------------------------------------------------

  const SpecialEdition := "special edition"

  /** Ruby's case-insensitive comparison of ASCII letters. */
  function LowerAscii(c: char): char
  {
    if 'A' <= c <= 'Z' then (c as int + 32) as char else c
  }

  /** `special edition`, in any case, at `p`. */
  predicate LiteralAt(s: string, p: nat)
  {
    p + |SpecialEdition| <= |s| && forall k :: 0 <= k < |SpecialEdition| ==> LowerAscii(s[p + k]) == SpecialEdition[k]
  }

  /** `$`: the end of the string or of a line. */
  predicate LineEnd(s: string, p: nat)
  {
    p == |s| || (p < |s| && s[p] == '\n')
  }

  /** `(\s*:)?\s+`: white space with at most one colon, ending in white space. */
  predicate Separator(t: string)
  {
    && |t| >= 1 && IsSpace(t[|t| - 1])
    && (forall k :: 0 <= k < |t| ==> IsSpace(t[k]) || t[k] == ':')
    && (forall k, k' :: 0 <= k < k' < |t| && t[k] == ':' ==> t[k'] != ':')
  }

  /** The pattern matches `s[i..e]`. */
  predicate MatchesAt(s: string, i: nat, e: nat)
  {
    i + |SpecialEdition| < e <= |s| && Separator(s[i..e - |SpecialEdition|])
    && LiteralAt(s, e - |SpecialEdition|) && LineEnd(s, e)
  }

  /** The first position at or after `i` that is not white space. */
  function SkipSpaces(s: string, i: nat): (j: nat)
    requires i <= |s|
    ensures i <= j <= |s|
    ensures forall k :: i <= k < j ==> IsSpace(s[k])
    ensures j < |s| ==> !IsSpace(s[j])
    decreases |s| - i
  {
    if i < |s| && IsSpace(s[i]) then SkipSpaces(s, i + 1) else i
  }

  /** The regexp engine at start position `i`: `\s*` and `\s+` are greedy and
      `special edition` cannot begin with white space or a colon, so at most
      one end is possible. */
  function MatchEnd(s: string, i: nat): Option<nat>
    requires i <= |s|
  {
    var j := SkipSpaces(s, i);
    if j < |s| && s[j] == ':' then
      var k := SkipSpaces(s, j + 1);
      if k > j + 1 && LiteralAt(s, k) && LineEnd(s, k + |SpecialEdition|) then Some(k + |SpecialEdition|) else None
    else if j > i && LiteralAt(s, j) && LineEnd(s, j + |SpecialEdition|) then Some(j + |SpecialEdition|)
    else None
  }

  lemma LiteralStart(s: string, p: nat)
    requires LiteralAt(s, p)
    ensures !IsSpace(s[p]) && s[p] != ':'
  {
    assert LowerAscii(s[p + 0]) == SpecialEdition[0] == 's';
  }

  /** `Separator` read off the string itself. */
  lemma SeparatorChars(s: string, i: nat, p: nat)
    requires i <= p <= |s| && Separator(s[i..p])
    ensures i < p && IsSpace(s[p - 1])
    ensures forall m :: i <= m < p ==> IsSpace(s[m]) || s[m] == ':'
    ensures forall m, m' :: i <= m < m' < p && s[m] == ':' ==> s[m'] != ':'
  {
    var t := s[i..p];
    assert forall m :: i <= m < p ==> s[m] == t[m - i];
  }

  /** The converse: a span of white space with at most one colon, ending in
      white space, is a `Separator`. */
  lemma SeparatorOfChars(s: string, i: nat, p: nat)
    requires i < p <= |s| && IsSpace(s[p - 1])
    requires forall m :: i <= m < p ==> IsSpace(s[m]) || s[m] == ':'
    requires forall m, m' :: i <= m < m' < p && s[m] == ':' ==> s[m'] != ':'
    ensures Separator(s[i..p])
  {
    var t := s[i..p];
    assert forall m :: 0 <= m < |t| ==> t[m] == s[i + m];
  }

  /** What the engine finds is a match of the pattern. */
  lemma MatchEndSound(s: string, i: nat)
    requires i <= |s| && MatchEnd(s, i).Some?
    ensures MatchesAt(s, i, MatchEnd(s, i).value)
  {
    var j := SkipSpaces(s, i);
    if j < |s| && s[j] == ':' {
      ColonMatchSound(s, i, j, SkipSpaces(s, j + 1));
    } else {
      SeparatorOfChars(s, i, j);
    }
  }

  /** The colon branch of the engine: spaces, one colon, spaces. */
  lemma ColonMatchSound(s: string, i: nat, j: nat, k: nat)
    requires i <= j < k <= |s| && s[j] == ':' && k > j + 1
    requires forall m :: i <= m < j ==> IsSpace(s[m])
    requires forall m :: j + 1 <= m < k ==> IsSpace(s[m])
    ensures Separator(s[i..k])
  {
    forall m, m' | i <= m < m' < k && s[m] == ':' ensures s[m'] != ':' {
      assert m == j;
    }
    SeparatorOfChars(s, i, k);
  }

  /** Every match of the pattern is found by the engine. */
  lemma MatchEndComplete(s: string, i: nat, e: nat)
    requires i <= |s| && MatchesAt(s, i, e)
    ensures MatchEnd(s, i) == Some(e)
  {
    var n := |SpecialEdition|;
    var p := e - n;
    var j := SkipSpaces(s, i);
    SeparatorChars(s, i, p);
    LiteralStart(s, p);
    assert j <= p;
    if j < p {
      assert s[j] == ':';
      var k := SkipSpaces(s, j + 1);
      assert forall m :: j + 1 <= m < p ==> IsSpace(s[m]);
      assert k == p;
    }
  }

  /** The engine at one start position finds exactly the matches of the
      pattern there. */
  lemma MatchEndSpec(s: string, i: nat, e: nat)
    requires i <= |s|
    ensures MatchEnd(s, i) == Some(e) <==> MatchesAt(s, i, e)
  {
    if MatchEnd(s, i) == Some(e) {
      MatchEndSound(s, i);
    }
    if MatchesAt(s, i, e) {
      MatchEndComplete(s, i, e);
    }
  }

  /** The first start position at or after `i` with an end, and that end. */
  function FirstEnd(ends: seq<Option<nat>>, i: nat): (r: Option<(nat, nat)>)
    requires i <= |ends|
    ensures r.Some? ==> i <= r.value.0 < |ends| && ends[r.value.0] == Some(r.value.1)
    ensures r.Some? ==> forall k :: i <= k < r.value.0 ==> ends[k].None?
    ensures r.None? ==> forall k :: i <= k < |ends| ==> ends[k].None?
    decreases |ends| - i
  {
    if i == |ends| then None
    else match ends[i]
      case Some(e) => Some((i, e))
      case None => FirstEnd(ends, i + 1)
  }

  /** What the engine finds at each start position of `s`, in order. */
  function Ends(s: string): (r: seq<Option<nat>>)
    ensures |r| == |s| + 1
  {
    seq(|s| + 1, k requires 0 <= k <= |s| => MatchEnd(s, k))
  }

  /** The leftmost match, as Ruby's `sub!` finds it. */
  function LeftmostMatch(s: string): (r: Option<(nat, nat)>)
    ensures r.Some? ==> r.value.0 <= |s| && MatchEnd(s, r.value.0) == Some(r.value.1)
    ensures r.Some? ==> forall k :: 0 <= k < r.value.0 ==> MatchEnd(s, k).None?
    ensures r.None? ==> forall k :: 0 <= k <= |s| ==> MatchEnd(s, k).None?
  {
    var ends := Ends(s);
    var r := FirstEnd(ends, 0);
    assert forall k :: 0 <= k <= |s| ==> ends[k] == MatchEnd(s, k);
    r
  }

  /** `sub!` with the special-edition pattern: the name without its leftmost
      match, and whether there was one. */
  function StripSpecialEdition(s: string): (string, bool)
  {
    match LeftmostMatch(s)
    case Some((a, e)) => if e <= |s| && a <= e then (s[..a] + s[e..], true) else (s, false)
    case None => (s, false)
  }

  /** The stripping, stated on the pattern: when the pattern matches
      somewhere, the name loses the leftmost match and is flagged; when it
      matches nowhere, the name is kept and not flagged. */
  lemma StripSpec(s: string)
    ensures var (r, flag) := StripSpecialEdition(s);
      && (flag <==> exists i: nat, e: nat :: i <= |s| && MatchesAt(s, i, e))
      && (!flag ==> r == s)
      && (flag ==> exists i: nat, e: nat ::
            && i <= |s| && MatchesAt(s, i, e) && r == s[..i] + s[e..]
            && forall k: nat, e': nat :: k < i ==> !MatchesAt(s, k, e'))
  {
    var m := LeftmostMatch(s);
    if m.Some? {
      var (a, e) := m.value;
      MatchEndSpec(s, a, e);
      forall k: nat, e': nat | k < a ensures !MatchesAt(s, k, e') {
        MatchEndSpec(s, k, e');
      }
    } else {
      forall i: nat, e: nat | i <= |s| ensures !MatchesAt(s, i, e) {
        MatchEndSpec(s, i, e);
      }
    }
  }

  /** `special edition` in any letter case. */
  predicate CaseVariant(x: string)
  {
    |x| == |SpecialEdition| && forall k :: 0 <= k < |x| ==> LowerAscii(x[k]) == SpecialEdition[k]
  }

  /** A pattern match over a string with no line break ends at its end. */
  lemma MatchAtEnd(s: string, k: nat, e: nat)
    requires forall i :: 0 <= i < |s| ==> s[i] != '\n'
    requires MatchesAt(s, k, e)
    ensures e == |s|
  {
  }

  /** A match spans only white space and a colon before the literal, so it
      cannot start before a character that is neither. */
  lemma NoMatchBefore(s: string, c: nat, k: nat, e: nat)
    requires k <= c < |s| && !IsSpace(s[c]) && s[c] != ':'
    requires c < e - |SpecialEdition|
    ensures !MatchesAt(s, k, e)
  {
    if MatchesAt(s, k, e) {
      SeparatorChars(s, k, e - |SpecialEdition|);
    }
  }

  /** The first start with an end is the one found. */
  lemma {:induction false} FirstEndAt(ends: seq<Option<nat>>, i: nat, a: nat, e: nat)
    requires i <= a < |ends| && ends[a] == Some(e)
    requires forall k :: i <= k < a ==> ends[k].None?
    ensures FirstEnd(ends, i) == Some((a, e))
    decreases a - i
  {
    if i < a {
      FirstEndAt(ends, i + 1, a, e);
    }
  }

  /** `sub!` replaces the first match: the one at the smallest start. */
  lemma LeftmostMatchFirst(s: string, a: nat, e: nat)
    requires a <= |s| && MatchEnd(s, a) == Some(e)
    requires forall k :: 0 <= k < a ==> MatchEnd(s, k).None?
    ensures LeftmostMatch(s) == Some((a, e))
  {
    FirstEndAt(Ends(s), 0, a, e);
  }

  /** A catalog name such as `Heat: Special Edition` or `Heat  special
      EDITION` is set as `Heat` and flagged, provided the base name ends in
      something other than white space or a colon and no line break
      intervenes. */
  lemma SpecialEditionStripped(base: string, sep: string, suffix: string)
    requires |base| >= 1 && !IsSpace(base[|base| - 1]) && base[|base| - 1] != ':'
    requires Separator(sep) && CaseVariant(suffix)
    requires forall k :: 0 <= k < |base + sep| ==> (base + sep)[k] != '\n'
    ensures StripSpecialEdition(base + sep + suffix) == (base, true)
  {
    var s := base + sep + suffix;
    var p := |base| + |sep|;
    NoLineBreak(base, sep, suffix);
    SuffixMatches(base, sep, suffix);
    MatchEndComplete(s, |base|, |s|);
    forall k | 0 <= k < |base|
      ensures MatchEnd(s, k).None?
    {
      if MatchEnd(s, k).Some? {
        var e := MatchEnd(s, k).value;
        MatchEndSound(s, k);
        MatchAtEnd(s, k, e);
      }
    }
    LeftmostMatchFirst(s, |base|, |s|);
    assert s[..|base|] == base && s[|s|..] == [];
    assert s[..|base|] + s[|s|..] == base;
  }

  lemma NoLineBreak(base: string, sep: string, suffix: string)
    requires CaseVariant(suffix)
    requires forall k :: 0 <= k < |base + sep| ==> (base + sep)[k] != '\n'
    ensures forall i :: 0 <= i < |base + sep + suffix| ==> (base + sep + suffix)[i] != '\n'
  {
    var s := base + sep + suffix;
    var p := |base| + |sep|;
    forall i | 0 <= i < |s| ensures s[i] != '\n' {
      if i >= p {
        assert s[i] == suffix[i - p];
        assert LowerAscii(suffix[i - p]) == SpecialEdition[i - p];
      } else {
        assert s[i] == (base + sep)[i];
      }
    }
  }

  lemma SuffixMatches(base: string, sep: string, suffix: string)
    requires Separator(sep) && CaseVariant(suffix)
    ensures MatchesAt(base + sep + suffix, |base|, |base + sep + suffix|)
  {
    var s := base + sep + suffix;
    var p := |base| + |sep|;
    assert s[|base|..p] == sep;
    assert forall k :: 0 <= k < |SpecialEdition| ==> s[p + k] == suffix[k];
  }

  /** What a Nibbler element hands to `name=`: a string, or something that
      does not respond to `sub!`. */
  datatype NameValue = Str(s: string) | NotAString(other: int)

  /** A catalog title. */
  class Title {
    var name: Option<NameValue>
    /** `@special_edition`; nil before the name is set reads as false. */
    var specialEdition: bool

    constructor ()
      ensures name == None && !specialEdition
    {
      name := None;
      specialEdition := false;
    }

    /** `name=`. */
    method SetName(value: NameValue)
      modifies this
      ensures value.NotAString? ==> name == Some(value) && !specialEdition
      ensures value.Str? ==>
        && name == Some(Str(StripSpecialEdition(value.s).0))
        && specialEdition == StripSpecialEdition(value.s).1
    {
      if value.Str? {
        var (stripped, matched) := StripSpecialEdition(value.s);
        specialEdition := matched;
        name := Some(Str(stripped));
      } else {
        specialEdition := false;
        name := Some(value);
      }
    }

    /** `special_edition?`. */
    function IsSpecialEdition(): bool
      reads this
    {
      specialEdition
    }
  }

  // ---------------------------------------------------------------------
  // The `:id` and `:runtime` elements
  // ---------------------------------------------------------------------

  /** Where the maximal run of digits at the end of `s` starts (`|s|` when
      `s` does not end in a digit). */
  function DigitRunStart(s: string): (a: nat)
    ensures a <= |s|
    ensures forall i :: a <= i < |s| ==> IsDigit(s[i])
    ensures a > 0 ==> !IsDigit(s[a - 1])
    decreases |s|
  {
    if s == [] || !IsDigit(s[|s| - 1]) then |s| else DigitRunStart(s[..|s| - 1])
  }

  /** Where the last digit of `s` ends: every character from there on is
      not a digit, and the one before it is. */
  function LastDigitEnd(s: string): (b: nat)
    ensures b <= |s|
    ensures forall i :: b <= i < |s| ==> !IsDigit(s[i])
    ensures b > 0 ==> IsDigit(s[b - 1])
    decreases |s|
  {
    if s == [] || IsDigit(s[|s| - 1]) then |s| else LastDigitEnd(s[..|s| - 1])
  }

  /** `scan(/\d+/).last`: the last maximal run of digits, or empty when there
      is none. */
  function LastDigitRun(s: string): (r: string)
    ensures forall i :: 0 <= i < |r| ==> IsDigit(r[i])
  {
    var b := LastDigitEnd(s);
    var a := DigitRunStart(s[..b]);
    assert forall i :: a <= i < b ==> s[..b][i] == s[i];
    s[a..b]
  }

  /** The last digit run is a maximal run of digits after which `s` holds no
      digit; it is empty exactly when `s` holds no digit at all. */
  lemma LastDigitRunSpec(s: string)
    ensures var b, r := LastDigitEnd(s), LastDigitRun(s);
      && (r == [] <==> forall i :: 0 <= i < |s| ==> !IsDigit(s[i]))
      && |r| <= b && s[b - |r|..b] == r
      && (forall i :: 0 <= i < |r| ==> IsDigit(r[i]))
      && (forall i :: b <= i < |s| ==> !IsDigit(s[i]))
      && (b - |r| > 0 ==> !IsDigit(s[b - |r| - 1]))
  {
    var b := LastDigitEnd(s);
    var pre := s[..b];
    var a := DigitRunStart(pre);
    assert forall i :: 0 <= i < b ==> pre[i] == s[i];
    assert b > 0 ==> a < b;
  }

  /** The `:id` element: the value of the last digit run of the id URL
      (`nil.to_i` is 0 when there is none). */
  function TitleId(text: string): nat
  {
    DigitsValue(LastDigitRun(text))
  }

  /** The digits of a number written after a non-digit are the run that
      ends the string. */
  lemma DigitRunOfNumber(prefix: string, n: nat)
    requires prefix == [] || !IsDigit(prefix[|prefix| - 1])
    ensures DigitRunStart(prefix + NatToString(n)) == |prefix|
  {
    var d := NatToString(n);
    var s := prefix + d;
    var a := DigitRunStart(s);
    assert |prefix| > 0 ==> s[|prefix| - 1] == prefix[|prefix| - 1];
    assert forall i :: |prefix| <= i < |s| ==> s[i] == d[i - |prefix|];
  }

  /** A URL ending in a number, possibly followed by something without
      digits, has that number as its id. */
  lemma TitleIdOfUrl(prefix: string, n: nat, suffix: string)
    requires prefix == [] || !IsDigit(prefix[|prefix| - 1])
    requires forall i :: 0 <= i < |suffix| ==> !IsDigit(suffix[i])
    ensures TitleId(prefix + NatToString(n) + suffix) == n
  {
    var d := NatToString(n);
    var s := prefix + d + suffix;
    var c := |prefix| + |d|;
    var b := LastDigitEnd(s);
    assert s[c - 1] == d[|d| - 1];
    assert forall i :: c <= i < |s| ==> s[i] == suffix[i - c];
    assert b == c;
    assert s[..c] == prefix + d;
    DigitRunOfNumber(prefix, n);
    assert LastDigitRun(s) == d;
    DigitsValueOfToString(n);
  }

  /** A URL without digits has id 0. */
  lemma NoDigitsNoId(text: string)
    requires forall i :: 0 <= i < |text| ==> !IsDigit(text[i])
    ensures TitleId(text) == 0
  {
    LastDigitRunSpec(text);
  }

  /** The `:runtime` element: seconds to whole minutes, rounding down as
      Ruby's integer division does. */
  function RuntimeMinutes(seconds: int): (minutes: int)
    ensures 60 * minutes <= seconds < 60 * minutes + 60
  {
    seconds / 60
  }
}
