/** The pieces of Ruby and ActiveSupport behaviour that the movie search code
    relies on: values that may be nil, `blank?`/`present?`, `Enumerable#find`,
    `Array#delete`, `Array#join` and `Integer#to_s`. */
module Ruby {

  /** A value that may be nil. */
  datatype Option<+T> = None | Some(value: T) {
    function GetOr(default: T): T { if Some? then value else default }
    function Or(other: Option<T>): Option<T> { if Some? then this else other }
  }

  /** The whitespace of `\s` and of `String#blank?`: space, \t, \n, \v, \f, \r. */
  predicate IsSpace(c: char) { c == ' ' || '\t' <= c <= '\r' }

  predicate IsDigit(c: char) { '0' <= c <= '9' }

  /** `String#blank?`: empty or whitespace only. */
  predicate Blank(s: string) { forall i :: 0 <= i < |s| ==> IsSpace(s[i]) }

  /** `Object#blank?` on a string that may be nil. */
  predicate BlankOpt(o: Option<string>) { o.None? || Blank(o.value) }

  /** `Object#present?`. */
  predicate Present(o: Option<string>) { !BlankOpt(o) }

  /** Position of the first element satisfying `p`, or `|s|` when none does. */
  function FindIndex<T>(s: seq<T>, p: T -> bool): (k: nat)
    ensures k <= |s|
    ensures k < |s| ==> p(s[k])
    ensures forall j :: 0 <= j < k ==> !p(s[j])
  {
    if s == [] then 0 else if p(s[0]) then 0 else 1 + FindIndex(s[1..], p)
  }

  /** `Enumerable#find`: the first element satisfying `p`, or nil. */
  function Find<T>(s: seq<T>, p: T -> bool): (r: Option<T>)
    ensures r.Some? <==> exists i :: 0 <= i < |s| && p(s[i])
    ensures r.Some? ==> r.value in s && p(r.value)
  {
    var k := FindIndex(s, p);
    if k < |s| then Some(s[k]) else None
  }

  /** What `Array#delete(x)` leaves in the array: every element `e` with
      `e == x` is removed, where `eq(e, x)` stands for Ruby's `e == x`. */
  function Without<T, U>(s: seq<T>, eq: (T, U) -> bool, x: U): (r: seq<T>)
    ensures |r| <= |s|
  {
    if s == [] then []
    else (if eq(s[0], x) then [] else [s[0]]) + Without(s[1..], eq, x)
  }

  /** `Array#delete(x)` removes exactly the elements equal to `x`, and at
      least one when there is one. */
  lemma {:induction false} WithoutSpec<T, U>(s: seq<T>, eq: (T, U) -> bool, x: U)
    ensures forall i :: 0 <= i < |Without(s, eq, x)| ==>
      Without(s, eq, x)[i] in s && !eq(Without(s, eq, x)[i], x)
    ensures forall i :: 0 <= i < |s| && !eq(s[i], x) ==> s[i] in Without(s, eq, x)
    ensures (exists i :: 0 <= i < |s| && eq(s[i], x)) ==> |Without(s, eq, x)| < |s|
    decreases |s|
  {
    if s != [] {
      WithoutSpec(s[1..], eq, x);
      var r, r' := Without(s, eq, x), Without(s[1..], eq, x);
      var h := if eq(s[0], x) then [] else [s[0]];
      assert r == h + r';
      assert forall i :: 1 <= i < |s| ==> s[i] == s[1..][i - 1];
      assert forall i :: 0 <= i < |r| ==> r[i] in h || r[i] == r'[i - |h|];
    }
  }

  /** What `Array#delete(x)` returns: the last element `e` with `e == x`, or nil. */
  function LastEqual<T, U>(s: seq<T>, eq: (T, U) -> bool, x: U): Option<T>
  {
    if s == [] then None
    else LastEqual(s[1..], eq, x).Or(if eq(s[0], x) then Some(s[0]) else None)
  }

  /** `Array#delete(x)` returns an element equal to `x` exactly when there
      is one, and it is the last such element. */
  lemma {:induction false} LastEqualSpec<T, U>(s: seq<T>, eq: (T, U) -> bool, x: U)
    ensures LastEqual(s, eq, x).Some? <==> exists i :: 0 <= i < |s| && eq(s[i], x)
    ensures LastEqual(s, eq, x).Some? ==>
      LastEqual(s, eq, x).value in s && eq(LastEqual(s, eq, x).value, x)
    ensures LastEqual(s, eq, x).Some? ==>
      exists i :: 0 <= i < |s| && s[i] == LastEqual(s, eq, x).value && eq(s[i], x)
        && forall j :: i < j < |s| ==> !eq(s[j], x)
    decreases |s|
  {
    if s != [] {
      LastEqualSpec(s[1..], eq, x);
      assert forall i :: 1 <= i < |s| ==> s[i] == s[1..][i - 1];
      var r := LastEqual(s[1..], eq, x);
      if r.Some? {
        var i :| 0 <= i < |s[1..]| && s[1..][i] == r.value && eq(s[1..][i], x)
          && forall j :: i < j < |s[1..]| ==> !eq(s[1..][j], x);
        assert s[i + 1] == r.value && forall j :: i + 1 < j < |s| ==> !eq(s[j], x);
      } else if eq(s[0], x) {
        assert forall j :: 0 < j < |s| ==> !eq(s[j], x);
      }
    }
  }

  /** One element of `Array#delete`'s pass. */
  lemma DeleteStep<T, U>(s: seq<T>, i: nat, eq: (T, U) -> bool, x: U)
    requires i < |s|
    ensures Without(s[i..], eq, x) == (if eq(s[i], x) then [] else [s[i]]) + Without(s[i + 1..], eq, x)
    ensures LastEqual(s[i..], eq, x) == LastEqual(s[i + 1..], eq, x).Or(if eq(s[i], x) then Some(s[i]) else None)
  {
    assert s[i..][0] == s[i] && s[i..][1..] == s[i + 1..];
  }

  /** `a` is `b` with some elements left out, the rest in their order. */
  predicate Subsequence<T(==)>(a: seq<T>, b: seq<T>)
    decreases |b|
  {
    if a == [] then true
    else if b == [] then false
    else (a[0] == b[0] && Subsequence(a[1..], b[1..])) || Subsequence(a, b[1..])
  }

  lemma {:induction false} SubsequenceRefl<T>(a: seq<T>)
    ensures Subsequence(a, a)
    decreases |a|
  {
    if a != [] { SubsequenceRefl(a[1..]); }
  }

  lemma {:induction false} SubsequenceMembers<T>(a: seq<T>, b: seq<T>)
    requires Subsequence(a, b)
    ensures forall i :: 0 <= i < |a| ==> a[i] in b
    decreases |b|
  {
    if a != [] {
      if a[0] == b[0] && Subsequence(a[1..], b[1..]) {
        SubsequenceMembers(a[1..], b[1..]);
        assert forall i :: 1 <= i < |a| ==> a[i] == a[1..][i - 1];
      } else {
        SubsequenceMembers(a, b[1..]);
      }
    }
  }

  lemma {:induction false} SubsequenceLength<T>(a: seq<T>, b: seq<T>)
    requires Subsequence(a, b)
    ensures |a| <= |b|
    decreases |b|
  {
    if a != [] {
      if a[0] == b[0] && Subsequence(a[1..], b[1..]) {
        SubsequenceLength(a[1..], b[1..]);
      } else {
        SubsequenceLength(a, b[1..]);
      }
    }
  }

  lemma {:induction false} SubsequenceTrans<T>(a: seq<T>, b: seq<T>, c: seq<T>)
    requires Subsequence(a, b) && Subsequence(b, c)
    ensures Subsequence(a, c)
    decreases |c|
  {
    if a != [] {
      assert b != [] && c != [];
      if b[0] == c[0] && Subsequence(b[1..], c[1..]) {
        if a[0] == b[0] && Subsequence(a[1..], b[1..]) {
          SubsequenceTrans(a[1..], b[1..], c[1..]);
        } else {
          SubsequenceTrans(a, b[1..], c[1..]);
        }
      } else {
        SubsequenceTrans(a, b, c[1..]);
      }
    }
  }

  /** Prepending the same element to both sides keeps a subsequence. */
  lemma {:induction false} SubsequenceCons<T>(x: T, a: seq<T>, b: seq<T>)
    requires Subsequence(a, b)
    ensures Subsequence([x] + a, [x] + b)
  {
    assert ([x] + a)[1..] == a && ([x] + b)[1..] == b;
  }

  /** Adding an element in front of the longer side keeps a subsequence. */
  lemma {:induction false} SubsequenceSkip<T>(x: T, a: seq<T>, b: seq<T>)
    requires Subsequence(a, b)
    ensures Subsequence(a, [x] + b)
  {
    assert ([x] + b)[1..] == b;
  }

  /** Array#delete keeps the surviving elements in their order. */
  lemma {:induction false} WithoutIsSubsequence<T, U>(s: seq<T>, eq: (T, U) -> bool, x: U)
    ensures Subsequence(Without(s, eq, x), s)
    decreases |s|
  {
    if s != [] {
      WithoutIsSubsequence(s[1..], eq, x);
      assert s == [s[0]] + s[1..];
      if eq(s[0], x) {
        assert Without(s, eq, x) == Without(s[1..], eq, x);
        SubsequenceSkip(s[0], Without(s[1..], eq, x), s[1..]);
      } else {
        assert Without(s, eq, x) == [s[0]] + Without(s[1..], eq, x);
        SubsequenceCons(s[0], Without(s[1..], eq, x), s[1..]);
      }
    }
  }

  /** Keeping a subsequence on both sides, one after the other. */
  lemma {:induction false} SubsequenceConcat<T>(a1: seq<T>, b1: seq<T>, a2: seq<T>, b2: seq<T>)
    requires Subsequence(a1, b1) && Subsequence(a2, b2)
    ensures Subsequence(a1 + a2, b1 + b2)
    decreases |b1|
  {
    if b1 == [] {
      assert a1 + a2 == a2 && b1 + b2 == b2;
    } else {
      assert b1 + b2 == [b1[0]] + (b1[1..] + b2);
      if a1 == [] {
        SubsequenceConcat(a1, b1[1..], a2, b2);
        assert a1 + a2 == a2 && a1 + a2 == [] + a2;
        SubsequenceSkip(b1[0], a2, b1[1..] + b2);
      } else if a1[0] == b1[0] && Subsequence(a1[1..], b1[1..]) {
        SubsequenceConcat(a1[1..], b1[1..], a2, b2);
        assert a1 + a2 == [a1[0]] + (a1[1..] + a2);
        SubsequenceCons(b1[0], a1[1..] + a2, b1[1..] + b2);
      } else {
        SubsequenceConcat(a1, b1[1..], a2, b2);
        SubsequenceSkip(b1[0], a1 + a2, b1[1..] + b2);
      }
    }
  }

  /** `map(&f)`. */
  function Map<T, U>(s: seq<T>, f: T -> U): (r: seq<U>)
    ensures |r| == |s| && forall i :: 0 <= i < |s| ==> r[i] == f(s[i])
  {
    seq(|s|, i requires 0 <= i < |s| => f(s[i]))
  }

  lemma MapAppend<T, U>(a: seq<T>, b: seq<T>, f: T -> U)
    ensures Map(a + b, f) == Map(a, f) + Map(b, f)
  {
  }

  /** Mapping both sides keeps a subsequence. */
  lemma {:induction false} SubsequenceMap<T, U>(a: seq<T>, b: seq<T>, f: T -> U)
    requires Subsequence(a, b)
    ensures Subsequence(Map(a, f), Map(b, f))
    decreases |b|
  {
    if a != [] {
      assert Map(a, f)[0] == f(a[0]) && Map(a, f)[1..] == Map(a[1..], f);
      assert Map(b, f)[0] == f(b[0]) && Map(b, f)[1..] == Map(b[1..], f);
      if a[0] == b[0] && Subsequence(a[1..], b[1..]) {
        SubsequenceMap(a[1..], b[1..], f);
      } else {
        SubsequenceMap(a, b[1..], f);
      }
    }
  }

  /** No two elements share a key. */
  predicate DistinctBy<T, K(==)>(s: seq<T>, key: T -> K)
  {
    forall i, j :: 0 <= i < j < |s| ==> key(s[i]) != key(s[j])
  }

  function Id<T>(x: T): T { x }

  /** No element occurs twice. */
  predicate Distinct<T(==)>(s: seq<T>)
  {
    DistinctBy(s, Id<T>)
  }

  /** Distinct keys are the distinct elements of the mapped sequence. */
  lemma DistinctByMap<T, K>(s: seq<T>, key: T -> K)
    ensures DistinctBy(s, key) <==> Distinct(Map(s, key))
  {
    assert forall i :: 0 <= i < |s| ==> Id(Map(s, key)[i]) == key(s[i]);
  }

  /** Leaving elements out of a sequence whose keys are distinct keeps them so. */
  lemma {:induction false} SubsequenceDistinctBy<T, K>(a: seq<T>, b: seq<T>, key: T -> K)
    requires Subsequence(a, b) && DistinctBy(b, key)
    ensures DistinctBy(a, key)
    decreases |b|
  {
    if a != [] {
      assert DistinctBy(b[1..], key) by {
        assert forall i :: 0 <= i < |b| - 1 ==> b[1..][i] == b[i + 1];
      }
      if a[0] == b[0] && Subsequence(a[1..], b[1..]) {
        SubsequenceDistinctBy(a[1..], b[1..], key);
        SubsequenceMembers(a[1..], b[1..]);
        assert forall j :: 0 <= j < |b| - 1 ==> key(b[1..][j]) != key(b[0]);
        assert forall j :: 1 <= j < |a| ==> a[j] == a[1..][j - 1];
      } else {
        SubsequenceDistinctBy(a, b[1..], key);
      }
    }
  }

  /** `Array#join(sep)`. */
  function Join(parts: seq<string>, sep: string): (r: string)
    decreases |parts|
  {
    if parts == [] then ""
    else if |parts| == 1 then parts[0]
    else parts[0] + sep + Join(parts[1..], sep)
  }

  /** `String#split(sep)` for a one-character separator, keeping empty fields;
      it is the partner of `Join`. */
  function Split(s: string, sep: char): (r: seq<string>)
    ensures |r| >= 1
    decreases |s|
  {
    if s == [] then [""]
    else if s[0] == sep then [""] + Split(s[1..], sep)
    else
      var rest := Split(s[1..], sep);
      [[s[0]] + rest[0]] + rest[1..]
  }

  /** Splitting `x + [sep] + y` where `x` holds no separator. */
  lemma {:induction false} SplitAfterField(x: string, sep: char, y: string)
    requires forall i :: 0 <= i < |x| ==> x[i] != sep
    ensures Split(x + [sep] + y, sep) == [x] + Split(y, sep)
    decreases |x|
  {
    if x == [] {
      assert x + [sep] + y == [sep] + y;
      assert ([sep] + y)[1..] == y;
    } else {
      var s := x + [sep] + y;
      assert s[0] == x[0] && s[1..] == x[1..] + [sep] + y;
      SplitAfterField(x[1..], sep, y);
      assert [x[0]] + x[1..] == x;
    }
  }

  /** A field without separators splits to itself. */
  lemma {:induction false} SplitField(x: string, sep: char)
    requires forall i :: 0 <= i < |x| ==> x[i] != sep
    ensures Split(x, sep) == [x]
    decreases |x|
  {
    if x != [] {
      SplitField(x[1..], sep);
      assert [x[0]] + x[1..] == x;
    }
  }

  /** Joining with a character no field contains, then splitting on it, gives
      the fields back. */
  lemma {:induction false} SplitJoin(parts: seq<string>, sep: char)
    requires |parts| >= 1
    requires forall k, i :: 0 <= k < |parts| && 0 <= i < |parts[k]| ==> parts[k][i] != sep
    ensures Split(Join(parts, [sep]), sep) == parts
    decreases |parts|
  {
    if |parts| == 1 {
      SplitField(parts[0], sep);
    } else {
      SplitJoin(parts[1..], sep);
      SplitAfterField(parts[0], sep, Join(parts[1..], [sep]));
      assert [parts[0]] + parts[1..] == parts;
    }
  }

  function DigitChar(d: nat): char
    requires d < 10
  {
    "0123456789"[d]
  }

  function DigitValue(c: char): nat
    requires IsDigit(c)
  {
    (c as int - '0' as int) as nat
  }

  /** `Integer#to_s` for a non-negative integer. */
  function NatToString(n: nat): (s: string)
    ensures |s| >= 1
    ensures forall i :: 0 <= i < |s| ==> IsDigit(s[i])
  {
    if n < 10 then [DigitChar(n)] else NatToString(n / 10) + [DigitChar(n % 10)]
  }

  /** `Integer#to_s`, with a minus sign for negative integers. */
  function IntToString(n: int): string
  {
    if n < 0 then "-" + NatToString(-n) else NatToString(n)
  }

  /** The value of a string of decimal digits (`String#to_i` on digits only). */
  function DigitsValue(s: string): nat
    requires forall i :: 0 <= i < |s| ==> IsDigit(s[i])
  {
    if s == [] then 0 else 10 * DigitsValue(s[..|s| - 1]) + DigitValue(s[|s| - 1])
  }

  lemma {:induction false} DigitsValueOfToString(n: nat)
    ensures DigitsValue(NatToString(n)) == n
  {
    var s := NatToString(n);
    if n >= 10 {
      DigitsValueOfToString(n / 10);
      assert s[..|s| - 1] == NatToString(n / 10);
    }
  }
}
