/**
 * The pieces of Python's `str` that the meeting planner relies on, on `seq<char>`:
 * `isspace`, `strip`, `split(sep)`, `split()`, the lexicographic order of `<`/`<=`,
 * `min`/`max` on two strings, `int()` on a string, and zero-padded decimal output.
 */
module Text {
  import opened Results

  /** Python's `str.isspace()` for a single character (the characters `strip` and `split()` remove). */
  predicate IsSpace(c: char) {
    c == ' ' || ('\t' <= c <= '\r') || ('\U{1C}' <= c <= '\U{1F}') || c == '\U{85}' || c == '\U{A0}'
    || c == '\U{1680}' || ('\U{2000}' <= c <= '\U{200A}') || c == '\U{2028}' || c == '\U{2029}'
    || c == '\U{202F}' || c == '\U{205F}' || c == '\U{3000}'
  }

  /** No leading and no trailing white space. */
  predicate Trimmed(s: string) {
    s == [] || (!IsSpace(s[0]) && !IsSpace(s[|s| - 1]))
  }

  predicate NoSpace(s: string) {
    forall i :: 0 <= i < |s| ==> !IsSpace(s[i])
  }

  // ---------------------------------------------------------------- strip

  /** Python's `s.lstrip()`: the longest suffix of `s` that does not start with white space. */
  function TrimLeft(s: string): (r: string)
    ensures |r| <= |s| && r == s[|s| - |r|..]
    ensures forall i :: 0 <= i < |s| - |r| ==> IsSpace(s[i])
    ensures r != [] ==> !IsSpace(r[0])
  {
    if s != [] && IsSpace(s[0]) then TrimLeft(s[1..]) else s
  }

  /** Python's `s.rstrip()`: the longest prefix of `s` that does not end with white space. */
  function TrimRight(s: string): (r: string)
    ensures |r| <= |s| && r == s[..|r|]
    ensures forall i :: |r| <= i < |s| ==> IsSpace(s[i])
    ensures r != [] ==> !IsSpace(r[|r| - 1])
  {
    if s != [] && IsSpace(s[|s| - 1]) then TrimRight(s[..|s| - 1]) else s
  }

  /** Python's `s.strip()`. */
  function Strip(s: string): (r: string)
    ensures Trimmed(r)
  {
    TrimRight(TrimLeft(s))
  }

  lemma {:induction false} TrimLeftPadded(p: string, y: string)
    requires AllSpace(p) && (y == [] || !IsSpace(y[0]))
    ensures TrimLeft(p + y) == y
  {
    if p != [] {
      assert (p + y)[1..] == p[1..] + y;
      TrimLeftPadded(p[1..], y);
    }
  }

  lemma {:induction false} TrimRightPadded(y: string, q: string)
    requires AllSpace(q) && (y == [] || !IsSpace(y[|y| - 1]))
    ensures TrimRight(y + q) == y
  {
    if q != [] {
      assert (y + q)[..|y + q| - 1] == y + q[..|q| - 1];
      TrimRightPadded(y, q[..|q| - 1]);
    }
  }

  /** Stripping white-space padding off a trimmed string gives back that string. */
  lemma StripPadded(p: string, x: string, q: string)
    requires AllSpace(p) && AllSpace(q) && Trimmed(x)
    ensures Strip(p + x + q) == x
  {
    if x == [] {
      assert p + x + q == (p + q) + [];
      TrimLeftPadded(p + q, []);
    } else {
      assert p + x + q == p + (x + q);
      TrimLeftPadded(p, x + q);
      TrimRightPadded(x, q);
    }
  }

  /** Stripping adds no character. */
  lemma StripKeepsOut(s: string, c: char)
    requires c !in s
    ensures c !in Strip(s)
  {
    var l := TrimLeft(s);
    assert c !in l by {
      assert forall i :: 0 <= i < |l| ==> l[i] == s[|s| - |l| + i];
    }
  }

  /** Stripping a string without surrounding white space changes nothing. */
  lemma StripSelf(x: string)
    requires Trimmed(x)
    ensures Strip(x) == x
  {
    StripPadded([], x, []);
    assert [] + x + [] == x;
  }

  lemma NoSpaceConcat(a: string, b: string)
    requires NoSpace(a) && NoSpace(b)
    ensures NoSpace(a + b)
  {
    assert forall i :: 0 <= i < |a + b| ==> (a + b)[i] == if i < |a| then a[i] else b[i - |a|];
  }

  /** Every character is white space. */
  predicate AllSpace(s: string) {
    forall i :: 0 <= i < |s| ==> IsSpace(s[i])
  }

  // ---------------------------------------------------------------- split(sep)

  /** The pieces joined back together with `sep` between them. */
  function Join(pieces: seq<string>, sep: char): string
    requires |pieces| >= 1
  {
    if |pieces| == 1 then pieces[0] else pieces[0] + [sep] + Join(pieces[1..], sep)
  }

  /**
   * Python's `s.split(sep)` for a one-character separator: one more piece than there are
   * separators, no piece contains the separator, and joining the pieces gives `s` back.
   */
  function Split(s: string, sep: char): (r: seq<string>)
    ensures |r| >= 1
    ensures forall i :: 0 <= i < |r| ==> sep !in r[i]
  {
    if s == [] then [[]]
    else
      var rest := Split(s[1..], sep);
      if s[0] == sep then [[]] + rest else [[s[0]] + rest[0]] + rest[1..]
  }

  /** `s.split(sep)` has one more piece than `s` has separators. */
  lemma {:induction false} SplitCount(s: string, sep: char)
    ensures |Split(s, sep)| == multiset(s)[sep] + 1
  {
    if s != [] {
      SplitCount(s[1..], sep);
      assert s == [s[0]] + s[1..];
    }
  }

  lemma {:induction false} SplitJoin(s: string, sep: char)
    ensures Join(Split(s, sep), sep) == s
  {
    if s != [] {
      SplitJoin(s[1..], sep);
      var rest := Split(s[1..], sep);
      if s[0] != sep {
        var r := Split(s, sep);
        assert r[1..] == rest[1..];
        if |rest| > 1 {
          assert rest == [rest[0]] + rest[1..];
        }
      }
    }
  }

  /** A first piece free of separators is split off exactly. */
  lemma {:induction false} SplitCons(a: string, sep: char, b: string)
    requires sep !in a
    ensures Split(a + [sep] + b, sep) == [a] + Split(b, sep)
  {
    if a != [] {
      assert (a + [sep] + b)[1..] == a[1..] + [sep] + b;
      SplitCons(a[1..], sep, b);
      assert [a[0]] + a[1..] == a;
    } else {
      assert (a + [sep] + b)[1..] == b;
    }
  }

  /** A string without the separator is one piece. */
  lemma {:induction false} SplitNone(a: string, sep: char)
    requires sep !in a
    ensures Split(a, sep) == [a]
  {
    if a != [] {
      SplitNone(a[1..], sep);
      assert [a[0]] + a[1..] == a;
    }
  }

  /** The first piece is everything before the first separator. */
  lemma SplitFirst(a: string, sep: char, x: string)
    requires sep !in a && (x == [] || x[0] == sep)
    ensures Split(a + x, sep)[0] == a
  {
    if x == [] {
      assert a + x == a;
      SplitNone(a, sep);
    } else {
      assert a + x == a + [sep] + x[1..];
      SplitCons(a, sep, x[1..]);
    }
  }

  // ---------------------------------------------------------------- split()

  /** Length of the longest prefix without white space. */
  function WordLength(s: string): (n: nat)
    ensures n <= |s| && NoSpace(s[..n]) && (n < |s| ==> IsSpace(s[n]))
  {
    if s == [] || IsSpace(s[0]) then 0 else 1 + WordLength(s[1..])
  }

  /** Python's `s.split()`: the maximal runs of non-white-space characters, in order. */
  function SplitWs(s: string): (r: seq<string>)
    ensures forall i :: 0 <= i < |r| ==> r[i] != [] && NoSpace(r[i])
    decreases |s|
  {
    if s == [] then []
    else if IsSpace(s[0]) then SplitWs(s[1..])
    else
      var n := WordLength(s);
      [s[..n]] + SplitWs(s[n..])
  }

  /** A word followed by one blank is the first token, and the rest is split on its own. */
  lemma SplitWsCons(w: string, rest: string)
    requires w != [] && NoSpace(w)
    ensures SplitWs(w + [' '] + rest) == [w] + SplitWs(rest)
  {
    var s := w + [' '] + rest;
    var n := WordLength(s);
    assert s[|w|] == ' ';
    assert forall i :: 0 <= i < |w| ==> s[i] == w[i];
    assert forall i :: 0 <= i < n ==> s[..n][i] == s[i];
    assert n == |w|;
    assert s[..n] == w;
    assert s[n..] == [' '] + rest;
    assert (s[n..])[1..] == rest;
  }

  /** A single word is a single token. */
  lemma SplitWsWord(w: string)
    requires w != [] && NoSpace(w)
    ensures SplitWs(w) == [w]
  {
    var n := WordLength(w);
    assert n == |w|;
    assert w[..n] == w && w[n..] == [];
  }

  // ---------------------------------------------------------------- lexicographic order

  /** Python's `a < b` on strings: lexicographic order on code points. */
  predicate StrLess(a: string, b: string) {
    if a == [] then b != []
    else b != [] && (a[0] < b[0] || (a[0] == b[0] && StrLess(a[1..], b[1..])))
  }

  /** Python's `a <= b` on strings. */
  predicate StrLessEq(a: string, b: string) {
    a == b || StrLess(a, b)
  }

  /** The first position where two strings differ decides between them. */
  lemma {:induction false} StrLessAt(a: string, b: string, k: nat)
    requires k < |a| && k < |b| && a[..k] == b[..k] && a[k] < b[k]
    ensures StrLess(a, b) && !StrLess(b, a) && a != b
  {
    if k > 0 {
      assert a[0] == a[..k][0] == b[..k][0] == b[0];
      assert a[1..][..k - 1] == a[1..k] == a[..k][1..];
      assert b[1..][..k - 1] == b[1..k] == b[..k][1..];
      StrLessAt(a[1..], b[1..], k - 1);
    }
  }

  /** A proper prefix comes first. */
  lemma {:induction false} StrLessPrefix(a: string, b: string)
    requires |a| < |b| && a == b[..|a|]
    ensures StrLess(a, b) && !StrLess(b, a)
  {
    if a != [] {
      assert a[0] == b[0];
      assert a[1..] == b[1..][..|a| - 1];
      StrLessPrefix(a[1..], b[1..]);
    }
  }

  lemma {:induction false} StrLessIrreflexive(a: string)
    ensures !StrLess(a, a)
  {
    if a != [] {
      StrLessIrreflexive(a[1..]);
    }
  }

  lemma {:induction false} StrLessTransitive(a: string, b: string, c: string)
    requires StrLess(a, b) && StrLess(b, c)
    ensures StrLess(a, c)
  {
    if a != [] && a[0] == b[0] && b[0] == c[0] {
      StrLessTransitive(a[1..], b[1..], c[1..]);
    }
  }

  /** Any two different strings are ordered one way or the other, and only one way. */
  lemma {:induction false} StrLessTotal(a: string, b: string)
    ensures a == b || StrLess(a, b) || StrLess(b, a)
    ensures !(StrLess(a, b) && StrLess(b, a))
  {
    if a != [] && b != [] && a[0] == b[0] {
      StrLessTotal(a[1..], b[1..]);
      if a[1..] == b[1..] {
        assert a == [a[0]] + a[1..] && b == [b[0]] + b[1..];
      }
    }
  }

  lemma StrLessEqTransitive(a: string, b: string, c: string)
    requires StrLessEq(a, b) && StrLessEq(b, c)
    ensures StrLessEq(a, c)
  {
    if a != b && b != c {
      StrLessTransitive(a, b, c);
    }
  }

  /** A common prefix does not change the order. */
  lemma {:induction false} StrLessSamePrefix(p: string, x: string, y: string)
    ensures StrLess(p + x, p + y) <==> StrLess(x, y)
  {
    if p != [] {
      assert (p + x)[1..] == p[1..] + x && (p + y)[1..] == p[1..] + y;
      StrLessSamePrefix(p[1..], x, y);
    } else {
      assert p + x == x && p + y == y;
    }
  }

  /** Between two different prefixes of the same length, the prefixes decide the order. */
  lemma {:induction false} StrLessPrefixDecides(a: string, x: string, b: string, y: string)
    requires |a| == |b| && a != b
    ensures StrLess(a + x, b + y) <==> StrLess(a, b)
  {
    assert (a + x)[0] == a[0] && (b + y)[0] == b[0];
    if a[0] == b[0] {
      assert a == [a[0]] + a[1..] && b == [b[0]] + b[1..];
      assert (a + x)[1..] == a[1..] + x && (b + y)[1..] == b[1..] + y;
      StrLessPrefixDecides(a[1..], x, b[1..], y);
    }
  }

  /** `<=` on strings is a total preorder, so a stable sort can sort by it. */
  lemma StrLessEqTotal(a: string, b: string, c: string)
    ensures StrLessEq(a, b) || StrLessEq(b, a)
    ensures StrLessEq(a, b) && StrLessEq(b, c) ==> StrLessEq(a, c)
    ensures StrLessEq(a, b) && StrLessEq(b, a) ==> a == b
  {
    StrLessTotal(a, b);
    if StrLessEq(a, b) && StrLessEq(b, c) {
      StrLessEqTransitive(a, b, c);
    }
  }

  /** Python's `min(a, b)`: the first argument unless the second is strictly smaller. */
  function StrMin(a: string, b: string): (r: string)
    ensures r == a || r == b
    ensures StrLessEq(r, a) && StrLessEq(r, b)
  {
    StrLessTotal(a, b);
    if StrLess(b, a) then b else a
  }

  /** Python's `max(a, b)`: the first argument unless the second is strictly greater. */
  function StrMax(a: string, b: string): (r: string)
    ensures r == a || r == b
    ensures StrLessEq(a, r) && StrLessEq(b, r)
  {
    StrLessTotal(a, b);
    if StrLess(a, b) then b else a
  }

  // ---------------------------------------------------------------- int()

  predicate IsDigit(c: char) {
    '0' <= c <= '9'
  }

  function DigitValue(c: char): (d: nat)
    requires IsDigit(c)
    ensures d < 10
  {
    (c as int) - ('0' as int)
  }

  function DigitChar(d: nat): (c: char)
    requires d < 10
    ensures IsDigit(c) && DigitValue(c) == d
  {
    (('0' as int) + d) as char
  }

  /** The digit part accepted by Python's `int()`: ASCII digits, single underscores only between digits. */
  predicate IsDigitString(s: string) {
    && s != [] && IsDigit(s[0]) && IsDigit(s[|s| - 1])
    && (forall i :: 0 <= i < |s| ==> IsDigit(s[i]) || s[i] == '_')
    && (forall i :: 0 <= i < |s| - 1 ==> !(s[i] == '_' && s[i + 1] == '_'))
  }

  /** Only ASCII digits (no underscores, no sign). */
  predicate AllDigits(s: string) {
    forall i :: 0 <= i < |s| ==> IsDigit(s[i])
  }

  /** A non-empty run of digits is free of white space and separators, and `int()` reads it back. */
  lemma DigitsPlain(s: string)
    requires s != [] && AllDigits(s)
    ensures NoSpace(s) && Trimmed(s) && '|' !in s && '.' !in s && ':' !in s
    ensures IsDigitString(s) && ParseInt(s) == Some(DigitsValue(s))
  {
  }

  /** The number the digits of `s` spell, underscores ignored. */
  function DigitsValue(s: string): nat
    requires forall i :: 0 <= i < |s| ==> IsDigit(s[i]) || s[i] == '_'
  {
    if s == [] then 0
    else if s[|s| - 1] == '_' then DigitsValue(s[..|s| - 1])
    else DigitsValue(s[..|s| - 1]) * 10 + DigitValue(s[|s| - 1])
  }

  /** A trailing zero multiplies the value by ten. */
  lemma DigitsValueAppendZero(s: string)
    requires AllDigits(s)
    ensures AllDigits(s + "0") && DigitsValue(s + "0") == DigitsValue(s) * 10
  {
    assert (s + "0")[..|s|] == s;
  }

  /** Python's `int(s)` on a string without surrounding white space; `None` where it raises `ValueError`. */
  function ParseInt(s: string): Option<int> {
    if s != [] && (s[0] == '+' || s[0] == '-') then
      if IsDigitString(s[1..]) then
        var v: int := DigitsValue(s[1..]);
        Some(if s[0] == '-' then -v else v)
      else None
    else if IsDigitString(s) then Some(DigitsValue(s))
    else None
  }

  // ---------------------------------------------------------------- zero-padded output

  /** Two decimal digits with a leading zero (`%02d`, as `strftime` prints `%m`, `%d`, `%H`, `%M`). */
  function Pad2(n: nat): (r: string)
    requires n < 100
    ensures |r| == 2 && AllDigits(r) && DigitsValue(r) == n
  {
    var a, b := DigitChar(n / 10), DigitChar(n % 10);
    assert [a, b][..1] == [a] && [a][..0] == [];
    assert DigitsValue([a]) == n / 10;
    [a, b]
  }

  /** Two more digits multiply the value by a hundred and add theirs. */
  lemma DigitsValueAppend2(x: string, y: string)
    requires AllDigits(x) && AllDigits(y) && |y| == 2
    ensures AllDigits(x + y) && DigitsValue(x + y) == DigitsValue(x) * 100 + DigitsValue(y)
  {
    var xy, x0 := x + y, x + [y[0]];
    assert xy[..|xy| - 1] == x0 && xy[|xy| - 1] == y[1];
    assert x0[..|x|] == x && x0[|x|] == y[0];
    assert DigitsValue(x0) == DigitsValue(x) * 10 + DigitValue(y[0]);
    assert y[..1] == [y[0]] && [y[0]][..0] == [];
    assert DigitsValue([y[0]]) == DigitValue(y[0]);
    assert DigitsValue(y) == DigitValue(y[0]) * 10 + DigitValue(y[1]);
  }

  /** Four decimal digits with leading zeros (`%Y` for years 1 to 9999). */
  function Pad4(n: nat): (r: string)
    requires n < 10000
    ensures |r| == 4 && AllDigits(r) && DigitsValue(r) == n
  {
    var hi, lo := Pad2(n / 100), Pad2(n % 100);
    DigitsValueAppend2(hi, lo);
    hi + lo
  }
}
