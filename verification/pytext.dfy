/** The small part of Python's string behaviour that the availability encoder
    relies on: `str.split(sep)`, `str.strip()`, the `in` substring test,
    slicing `s[0:n]` and `int(s)` on decimal text. */
module PyText {

  datatype Option<T> = None | Some(value: T)

  /** Python's `str.isspace()` for one character (the code points Python
      treats as whitespace). */
  predicate IsSpace(c: char) {
    var n := c as int;
    (9 <= n <= 13) || (28 <= n <= 32) || n == 0x85 || n == 0xA0 || n == 0x1680
    || (0x2000 <= n <= 0x200A) || n == 0x2028 || n == 0x2029 || n == 0x202F
    || n == 0x205F || n == 0x3000
  }

  /** The first index at or after `i` that does not hold whitespace. */
  function SkipSpaces(s: string, i: nat): (k: nat)
    requires i <= |s|
    ensures i <= k <= |s|
    ensures forall m :: i <= m < k ==> IsSpace(s[m])
    ensures k == |s| || !IsSpace(s[k])
    decreases |s| - i
  {
    if i < |s| && IsSpace(s[i]) then SkipSpaces(s, i + 1) else i
  }

  /** The last index at or before `j`, and not before `lo`, that follows
      a non-whitespace character (or is `lo`). */
  function TrimEnd(s: string, lo: nat, j: nat): (k: nat)
    requires lo <= j <= |s|
    ensures lo <= k <= j
    ensures forall m :: k <= m < j ==> IsSpace(s[m])
    ensures k == lo || !IsSpace(s[k - 1])
    decreases j
  {
    if lo < j && IsSpace(s[j - 1]) then TrimEnd(s, lo, j - 1) else j
  }

  /** `r` is the infix of `s` starting at `i`, with only whitespace around it. */
  predicate InfixWithin(r: string, s: string, i: int) {
    0 <= i <= |s| - |r| && r == s[i..i + |r|]
    && (forall k :: 0 <= k < i ==> IsSpace(s[k]))
    && (forall k :: i + |r| <= k < |s| ==> IsSpace(s[k]))
  }

  /** `s.strip()`: the infix of `s` left after removing whitespace at both ends. */
  function Strip(s: string): (r: string)
    ensures exists i :: InfixWithin(r, s, i)
    ensures r == [] || (!IsSpace(r[0]) && !IsSpace(r[|r| - 1]))
  {
    var a := SkipSpaces(s, 0);
    var b := TrimEnd(s, a, |s|);
    assert InfixWithin(s[a..b], s, a);
    s[a..b]
  }

  lemma StripUnchanged(s: string)
    requires s == [] || (!IsSpace(s[0]) && !IsSpace(s[|s| - 1]))
    ensures Strip(s) == s
  {
    assert SkipSpaces(s, 0) == 0;
    assert TrimEnd(s, 0, |s|) == |s|;
  }

  /** `sep.join(parts)` for a one-character separator. */
  function Join(parts: seq<string>, sep: char): string
    requires |parts| >= 1
  {
    if |parts| == 1 then parts[0] else parts[0] + [sep] + Join(parts[1..], sep)
  }

  /** `s.split(sep)` for a one-character separator: never empty, no piece
      contains the separator, and joining the pieces back gives `s`. */
  function Split(s: string, sep: char): (r: seq<string>)
    ensures |r| >= 1
    ensures forall i :: 0 <= i < |r| ==> sep !in r[i]
    ensures Join(r, sep) == s
  {
    if |s| == 0 then [""]
    else
      var rest := Split(s[1..], sep);
      if s[0] == sep then
        assert [s[0]] + s[1..] == s;
        [""] + rest
      else
        var r := [[s[0]] + rest[0]] + rest[1..];
        assert r[1..] == rest[1..];
        if |rest| == 1 then
          assert [s[0]] + s[1..] == s;
          r
        else
          assert Join(r, sep) == [s[0]] + (rest[0] + [sep] + Join(rest[1..], sep));
          assert [s[0]] + s[1..] == s;
          r
  }

  /** In `x + sep + xs` with `x` separator-free, the first separator sits at `|x|`. */
  lemma FirstSeparator(x: string, sep: char, xs: string)
    requires sep !in x
    ensures (x + [sep] + xs)[|x|] == sep
    ensures forall k :: 0 <= k < |x| ==> (x + [sep] + xs)[k] != sep
  {
    assert forall k :: 0 <= k < |x| ==> (x + [sep] + xs)[k] == x[k];
  }

  /** Stripping only removes characters. */
  lemma StripChars(s: string, c: char)
    requires c !in s
    ensures c !in Strip(s)
  {
    var i :| InfixWithin(Strip(s), s, i);
  }

  /** Every piece of a split consists of characters of the original. */
  lemma SplitChars(s: string, sep: char, c: char)
    requires c !in s
    ensures forall i :: 0 <= i < |Split(s, sep)| ==> c !in Split(s, sep)[i]
  {
    var r := Split(s, sep);
    forall i | 0 <= i < |r|
      ensures c !in r[i]
    {
      JoinContainsPiece(r, sep, i);
    }
  }

  lemma {:induction false} JoinContainsPiece(parts: seq<string>, sep: char, i: int)
    requires 0 <= i < |parts|
    ensures forall c :: c in parts[i] ==> c in Join(parts, sep)
    decreases |parts|
  {
    if |parts| > 1 && i > 0 {
      JoinContainsPiece(parts[1..], sep, i - 1);
    }
  }

  /** Two separator-free strings followed by the separator cannot be told
      apart from what follows: they are equal, and so is the rest. */
  lemma SeparatorPrefix(x: string, y: string, sep: char, xs: string, ys: string)
    requires sep !in x && sep !in y
    requires x + [sep] + xs == y + [sep] + ys
    ensures x == y && xs == ys
  {
    var a := x + [sep] + xs;
    FirstSeparator(x, sep, xs);
    FirstSeparator(y, sep, ys);
    assert |x| == |y|;
    assert x == a[..|x|];
    assert y == a[..|y|];
    assert xs == a[|x| + 1..];
  }

  /** Joining separator-free pieces is injective. */
  lemma {:induction false} JoinInjective(a: seq<string>, b: seq<string>, sep: char)
    requires |a| >= 1 && |b| >= 1
    requires forall i :: 0 <= i < |a| ==> sep !in a[i]
    requires forall i :: 0 <= i < |b| ==> sep !in b[i]
    requires Join(a, sep) == Join(b, sep)
    ensures a == b
    decreases |a|
  {
    if |a| == 1 && |b| == 1 {
    } else if |a| == 1 || |b| == 1 {
    } else {
      SeparatorPrefix(a[0], b[0], sep, Join(a[1..], sep), Join(b[1..], sep));
      JoinInjective(a[1..], b[1..], sep);
      assert a == [a[0]] + a[1..];
      assert b == [b[0]] + b[1..];
    }
  }

  /** Splitting undoes joining: the other half of the round trip. */
  lemma SplitJoin(parts: seq<string>, sep: char)
    requires |parts| >= 1
    requires forall i :: 0 <= i < |parts| ==> sep !in parts[i]
    ensures Split(Join(parts, sep), sep) == parts
  {
    var s := Join(parts, sep);
    JoinInjective(Split(s, sep), parts, sep);
  }

  lemma JoinTwo(a: string, b: string, sep: char)
    ensures Join([a, b], sep) == a + [sep] + b
  {
    assert [a, b][1..] == [b];
  }

  /** Splitting `a + sep + b` for separator-free `a`, `b` gives `[a, b]`. */
  lemma SplitTwo(a: string, b: string, sep: char)
    requires sep !in a && sep !in b
    ensures Split(a + [sep] + b, sep) == [a, b]
  {
    JoinTwo(a, b, sep);
    SplitJoin([a, b], sep);
  }

  /** Python's `sub in s` for strings. */
  predicate HasSubstring(s: string, sub: string)
    decreases |s|
  {
    |sub| <= |s| && (s[..|sub|] == sub || HasSubstring(s[1..], sub))
  }

  lemma {:induction false} HasSubstringSuffix(s: string, sub: string)
    ensures HasSubstring(s + sub, sub)
    decreases |s|
  {
    if |s| == 0 {
      assert (s + sub)[..|sub|] == sub;
    } else {
      assert (s + sub)[1..] == s[1..] + sub;
      HasSubstringSuffix(s[1..], sub);
    }
  }

  lemma {:induction false} NoSubstringWithoutFirstChar(s: string, sub: string)
    requires |sub| >= 1 && sub[0] !in s
    ensures !HasSubstring(s, sub)
    decreases |s|
  {
    if |sub| <= |s| {
      assert s[..|sub|][0] == s[0];
      assert s[0] in s;
      assert forall c :: c in s[1..] ==> c in s;
      NoSubstringWithoutFirstChar(s[1..], sub);
    }
  }

  /** Python's slice `s[0:n]`: the whole string when it is shorter than `n`. */
  function Take(s: string, n: nat): (r: string)
    ensures |r| == if |s| <= n then |s| else n
    ensures r == s[..|r|]
  {
    if |s| <= n then s else s[..n]
  }

  predicate IsDigit(c: char) {
    '0' <= c <= '9'
  }

  predicate AllDigits(s: string) {
    forall i :: 0 <= i < |s| ==> IsDigit(s[i])
  }

  /** The value of a decimal digit string, most significant digit first. */
  function DigitsValue(s: string): nat
    requires AllDigits(s)
  {
    if |s| == 0 then 0
    else DigitsValue(s[..|s| - 1]) * 10 + ((s[|s| - 1] as int) - ('0' as int))
  }

  /** The shortest decimal text of `n`; `DigitsValue` reads it back. */
  function Show(n: nat): (r: string)
    ensures |r| >= 1 && AllDigits(r)
    ensures DigitsValue(r) == n
    ensures r[0] != '0' || n == 0
  {
    var d := ((n % 10) + ('0' as int)) as char;
    if n < 10 then [d]
    else
      var r := Show(n / 10) + [d];
      assert r[..|r| - 1] == Show(n / 10);
      r
  }

  /** The information separators U+001C to U+001F. `str.strip()` removes
      them, but `int()` skips only the other whitespace characters. */
  predicate IsInfoSeparator(c: char) {
    28 <= c as int <= 31
  }

  predicate HasInfoSeparator(s: string) {
    exists k :: 0 <= k < |s| && IsInfoSeparator(s[k])
  }

  /** `int(s)` on text: surrounding whitespace, an optional sign and at least
      one ASCII digit; `None` where Python raises `ValueError`. An
      information separator is neither skipped nor a digit, so a text holding
      one is rejected wherever it sits. */
  function PyInt(s: string): (r: Option<int>)
    ensures r.Some? && '-' !in s ==> r.value >= 0
    ensures HasInfoSeparator(s) ==> r.None?
  {
    if HasInfoSeparator(s) then None
    else
    var t := Strip(s);
    if |t| > 0 && (t[0] == '+' || t[0] == '-') then
      var digits := t[1..];
      if |digits| > 0 && AllDigits(digits) then
        assert t[0] in t;
        var v: int := if t[0] == '-' then -(DigitsValue(digits) as int) else DigitsValue(digits);
        Some(v)
      else None
    else if |t| > 0 && AllDigits(t) then
      Some(DigitsValue(t))
    else None
  }

  /** `int(str(n)) == n` for every natural number. */
  lemma PyIntShow(n: nat)
    ensures PyInt(Show(n)) == Some(n)
  {
    var s := Show(n);
    assert !HasInfoSeparator(s);
    StripUnchanged(s);
  }

  /** `int()` reads a decimal text back through any whitespace it skips
      around it. */
  lemma PyIntPadded(n: nat, pre: string, post: string)
    requires forall k :: 0 <= k < |pre| ==> IsSpace(pre[k]) && !IsInfoSeparator(pre[k])
    requires forall k :: 0 <= k < |post| ==> IsSpace(post[k]) && !IsInfoSeparator(post[k])
    ensures PyInt(pre + Show(n) + post) == Some(n)
  {
    var d := Show(n);
    NoSpaceInDigits(d);
    assert d[0] in d && d[|d| - 1] in d;
    StripPadded(pre, d, post);
    PaddedNoInfoSeparator(pre, d, post);
    PyIntOfDigits(pre + d + post, d);
  }

  /** A text without information separators that strips to a digit string
      reads as that digit string's value. */
  lemma PyIntOfDigits(s: string, d: string)
    requires !HasInfoSeparator(s) && Strip(s) == d && |d| > 0 && AllDigits(d)
    ensures PyInt(s) == Some(DigitsValue(d) as int)
  {
    assert IsDigit(d[0]);
  }

  /** Stripping whitespace padding gives back the padded text. */
  lemma StripPadded(pre: string, d: string, post: string)
    requires forall k :: 0 <= k < |pre| ==> IsSpace(pre[k])
    requires forall k :: 0 <= k < |post| ==> IsSpace(post[k])
    requires |d| > 0 && !IsSpace(d[0]) && !IsSpace(d[|d| - 1])
    ensures Strip(pre + d + post) == d
  {
    var s := pre + d + post;
    assert forall k :: 0 <= k < |pre| ==> s[k] == pre[k];
    assert forall k :: 0 <= k < |post| ==> s[|pre| + |d| + k] == post[k];
    assert s[|pre|] == d[0];
    assert s[|pre| + |d| - 1] == d[|d| - 1];
    var a := SkipSpaces(s, 0);
    assert a == |pre|;
    var b := TrimEnd(s, a, |s|);
    assert b == |pre| + |d|;
    assert s[a..b] == d;
  }

  lemma PaddedNoInfoSeparator(pre: string, d: string, post: string)
    requires forall k :: 0 <= k < |pre| ==> !IsInfoSeparator(pre[k])
    requires forall k :: 0 <= k < |post| ==> !IsInfoSeparator(post[k])
    requires AllDigits(d)
    ensures !HasInfoSeparator(pre + d + post)
  {
    var s := pre + d + post;
    forall k | 0 <= k < |s|
      ensures !IsInfoSeparator(s[k])
    {
      if k < |pre| {
        assert s[k] == pre[k];
      } else if k < |pre| + |d| {
        assert s[k] == d[k - |pre|];
      } else {
        assert s[k] == post[k - |pre| - |d|];
      }
    }
  }

  lemma NoSpaceInDigits(s: string)
    requires AllDigits(s)
    ensures forall c :: c in s ==> IsDigit(c) && !IsSpace(c)
  {
  }
}
