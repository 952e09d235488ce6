/** The string operations of Python that the benchmark's command line and
    report rely on: `str.split`, `str.strip`, `str.join`, `str.ljust`, `int(str)`,
    `str(int)` and the `.6f` float format (hometask3.py:156-171, 188). */
module Text {
  import opened Results

  // ---------------------------------------------------------------------------
  // str.join and str.split
  // ---------------------------------------------------------------------------

  /** `sep.join(parts)`. */
  function Join(sep: string, parts: seq<string>): (r: string)
    ensures parts == [] ==> r == ""
  {
    if parts == [] then ""
    else if |parts| == 1 then parts[0]
    else parts[0] + sep + Join(sep, parts[1..])
  }

  /** `s.split(sep)` for a one-character separator: the pieces between
      separators, empty pieces included; `"".split(",")` is `[""]`. */
  function Split(s: string, sep: char): (parts: seq<string>)
    ensures |parts| >= 1
    ensures forall i :: 0 <= i < |parts| ==> sep !in parts[i]
  {
    if s == [] then [""]
    else
      var rest := Split(s[1..], sep);
      if s[0] == sep then [""] + rest
      else [[s[0]] + rest[0]] + rest[1..]
  }

  /** Joining the pieces with the separator gives the string back. */
  lemma {:induction false} JoinSplit(s: string, sep: char)
    ensures Join([sep], Split(s, sep)) == s
  {
    if s != [] {
      var rest := Split(s[1..], sep);
      JoinSplit(s[1..], sep);
      if s[0] == sep {
        assert ([""] + rest)[1..] == rest;
      } else {
        assert ([[s[0]] + rest[0]] + rest[1..])[1..] == rest[1..];
      }
      assert s == [s[0]] + s[1..];
    }
  }

  lemma {:induction false} SplitWithoutSeparator(p: string, sep: char)
    requires sep !in p
    ensures Split(p, sep) == [p]
  {
    if p != [] {
      SplitWithoutSeparator(p[1..], sep);
      assert [p[0]] + p[1..] == p;
    }
  }

  lemma {:induction false} SplitAfterPiece(p: string, sep: char, x: string)
    requires sep !in p
    ensures Split(p + [sep] + x, sep) == [p] + Split(x, sep)
  {
    if p == [] {
      assert p + [sep] + x == [sep] + x;
      assert ([sep] + x)[1..] == x;
    } else {
      assert (p + [sep] + x)[1..] == p[1..] + [sep] + x;
      SplitAfterPiece(p[1..], sep, x);
      assert [p[0]] + p[1..] == p;
    }
  }

  /** Splitting a join of separator-free pieces gives the pieces back. */
  lemma {:induction false} SplitJoin(parts: seq<string>, sep: char)
    requires |parts| >= 1
    requires forall i :: 0 <= i < |parts| ==> sep !in parts[i]
    ensures Split(Join([sep], parts), sep) == parts
  {
    if |parts| == 1 {
      SplitWithoutSeparator(parts[0], sep);
    } else {
      SplitJoin(parts[1..], sep);
      SplitAfterPiece(parts[0], sep, Join([sep], parts[1..]));
      assert parts == [parts[0]] + parts[1..];
    }
  }

  // ---------------------------------------------------------------------------
  // str.strip
  // ---------------------------------------------------------------------------

  /** Python's `str.isspace` for a single character: the ASCII controls
      TAB..CR and FS..US, SPACE, NEL, NO-BREAK SPACE, and the Unicode spaces
      and line/paragraph separators. */
  predicate IsSpace(c: char) {
    || '\t' <= c <= '\r'
    || '\U{1C}' <= c <= ' '
    || c == '\U{85}' || c == '\U{A0}' || c == '\U{1680}'
    || '\U{2000}' <= c <= '\U{200A}'
    || c == '\U{2028}' || c == '\U{2029}' || c == '\U{202F}' || c == '\U{205F}'
    || c == '\U{3000}'
  }

  /** The number of whitespace characters at the start of `s`. */
  function LeadingSpaces(s: string): (k: nat)
    ensures k <= |s|
    ensures forall i :: 0 <= i < k ==> IsSpace(s[i])
    ensures k < |s| ==> !IsSpace(s[k])
  {
    if s == [] || !IsSpace(s[0]) then 0 else 1 + LeadingSpaces(s[1..])
  }

  /** The number of whitespace characters at the end of `s`. */
  function TrailingSpaces(s: string): (k: nat)
    ensures k <= |s|
    ensures forall i :: |s| - k <= i < |s| ==> IsSpace(s[i])
    ensures k < |s| ==> !IsSpace(s[|s| - 1 - k])
  {
    if s == [] || !IsSpace(s[|s| - 1]) then 0 else 1 + TrailingSpaces(s[..|s| - 1])
  }

  /** `s.strip()`: `s` without its leading and trailing whitespace. */
  function Strip(s: string): (r: string)
    ensures r == [] || (!IsSpace(r[0]) && !IsSpace(r[|r| - 1]))
    ensures r == [] <==> forall i :: 0 <= i < |s| ==> IsSpace(s[i])
    ensures LeadingSpaces(s) + |r| <= |s|
    ensures r == s[LeadingSpaces(s)..LeadingSpaces(s) + |r|]
    ensures forall i :: 0 <= i < |s| && !(LeadingSpaces(s) <= i < LeadingSpaces(s) + |r|) ==> IsSpace(s[i])
  {
    var t := s[LeadingSpaces(s)..];
    t[..|t| - TrailingSpaces(t)]
  }

  // ---------------------------------------------------------------------------
  // int(str) and str(int)
  // ---------------------------------------------------------------------------

  predicate IsDigit(c: char) {
    '0' <= c <= '9'
  }

  /** The body of a Python decimal integer literal: digits, with single
      underscores allowed between two digits (`digit (["_"] digit)*`). */
  predicate IsDigitPart(s: string) {
    && |s| > 0
    && IsDigit(s[0]) && IsDigit(s[|s| - 1])
    && (forall i :: 0 <= i < |s| ==> IsDigit(s[i]) || s[i] == '_')
    && (forall i :: 0 <= i < |s| - 1 ==> IsDigit(s[i]) || IsDigit(s[i + 1]))
  }

  /** The number the digits of `s` spell, underscores skipped. */
  function DigitsValue(s: string): nat {
    if s == [] then 0
    else if IsDigit(s[|s| - 1]) then 10 * DigitsValue(s[..|s| - 1]) + (s[|s| - 1] as int - '0' as int)
    else DigitsValue(s[..|s| - 1])
  }

  /** `int(t)` for a string without surrounding whitespace: an optional sign
      then a digit part; anything else raises ValueError (None). Python also
      accepts non-ASCII decimal digits, which this model does not. */
  function ParseInt(t: string): Option<int> {
    if |t| > 0 && (t[0] == '+' || t[0] == '-') then
      if IsDigitPart(t[1..]) then
        var v: int := DigitsValue(t[1..]);
        Some(if t[0] == '-' then -v else v)
      else None
    else if IsDigitPart(t) then Some(DigitsValue(t))
    else None
  }

  function DigitChar(d: nat): (c: char)
    requires d < 10
    ensures IsDigit(c) && c as int - '0' as int == d
  {
    ('0' as int + d) as char
  }

  /** `str(n)` for a non-negative `n`: its decimal digits, no leading zero. */
  function NatToString(n: nat): (r: string)
    ensures |r| >= 1
    ensures forall i :: 0 <= i < |r| ==> IsDigit(r[i])
    ensures |r| > 1 ==> r[0] != '0'
  {
    if n < 10 then [DigitChar(n)] else NatToString(n / 10) + [DigitChar(n % 10)]
  }

  /** `str(i)`: a minus sign for negative numbers, then the digits. */
  function IntToString(i: int): (r: string)
    ensures |r| >= 1
    ensures r[0] == '-' <==> i < 0
  {
    if i < 0 then "-" + NatToString(-i) else NatToString(i)
  }

  lemma {:induction false} NatToStringValue(n: nat)
    ensures DigitsValue(NatToString(n)) == n
  {
    if n >= 10 {
      NatToStringValue(n / 10);
      var s := NatToString(n);
      assert s[..|s| - 1] == NatToString(n / 10);
    }
  }

  /** Parsing what `str` printed gives the number back: the `n` column of the
      report reads back as the size that was benchmarked. */
  lemma ParseIntOfIntToString(i: int)
    ensures ParseInt(IntToString(i)) == Some(i)
  {
    var d := NatToString(if i < 0 then -i else i);
    NatToStringValue(if i < 0 then -i else i);
    assert IsDigitPart(d);
    if i < 0 {
      assert IntToString(i)[1..] == d;
    }
  }

  // ---------------------------------------------------------------------------
  // str.ljust and the ".6f" float format
  // ---------------------------------------------------------------------------

  /** `[c] * n` (for a character, `c * n`): `n` copies of `c`, nothing when
      `n <= 0`. */
  function Repeat<T>(c: T, n: int): (r: seq<T>)
    ensures |r| == if n > 0 then n else 0
    ensures forall i :: 0 <= i < |r| ==> r[i] == c
  {
    seq(if n > 0 then n else 0, _ => c)
  }

  /** `s.ljust(w)`: `s` padded with spaces on the right up to width `w`; a
      string already that wide is returned as it is. */
  function Ljust(s: string, w: int): (r: string)
    ensures |r| == if |s| < w then w else |s|
    ensures r[..|s|] == s
    ensures forall i :: |s| <= i < |r| ==> r[i] == ' '
  {
    s + Repeat(' ', w - |s|)
  }

  /** The integer nearest to `q`, ties to the even one: how Python rounds the
      exact value of a float when formatting it. */
  function RoundHalfEven(q: real): (m: int)
    ensures (m as real) - 0.5 <= q <= (m as real) + 0.5
    ensures q - (q.Floor as real) == 0.5 ==> m % 2 == 0
    ensures q >= 0.0 ==> m >= 0
  {
    var f := q.Floor;
    var frac := q - f as real;
    if frac < 0.5 then f
    else if frac > 0.5 then f + 1
    else if f % 2 == 0 then f
    else f + 1
  }

  /** `d` written with exactly `w` digits, zeros in front. */
  function ZeroPad(d: nat, w: nat): (r: string)
    requires |NatToString(d)| <= w
    ensures |r| == w
    ensures forall i :: 0 <= i < |r| ==> IsDigit(r[i])
  {
    Repeat('0', w - |NatToString(d)|) + NatToString(d)
  }

  lemma {:induction false} NatToStringShort(d: nat, w: nat, p: nat)
    requires d < p
    requires p == Pow10(w)
    requires w >= 1
    ensures |NatToString(d)| <= w
  {
    if d >= 10 {
      NatToStringShort(d / 10, w - 1, Pow10(w - 1));
    }
  }

  function Pow10(w: nat): (p: nat)
    ensures p >= 1
  {
    if w == 0 then 1 else 10 * Pow10(w - 1)
  }

  /** `f"{x:.6f}"`: sign, integer part, a point and six decimals of `x`
      rounded to the nearest millionth, ties to even. Python prints a minus
      sign for every negative value, even one that rounds to zero. */
  function Fixed6(x: real): (r: string)
    ensures |r| >= 8
    ensures r[0] == '-' <==> x < 0.0
    ensures r[|r| - 7] == '.'
    ensures forall i :: |r| - 6 <= i < |r| ==> IsDigit(r[i])
  {
    var m := RoundHalfEven((if x < 0.0 then -x else x) * 1000000.0);
    NatToStringShort(m % 1000000, 6, 1000000);
    (if x < 0.0 then "-" else "") + NatToString(m / 1000000) + "." + ZeroPad(m % 1000000, 6)
  }

  // ---------------------------------------------------------------------------
  // String order
  // ---------------------------------------------------------------------------

  /** Python's `a <= b` on strings: code point by code point, and a proper
      prefix before the longer string. */
  predicate StrLe(a: string, b: string) {
    if a == [] then true
    else if b == [] then false
    else if a[0] != b[0] then a[0] < b[0]
    else StrLe(a[1..], b[1..])
  }

  lemma {:induction false} StrLeTotal(a: string, b: string)
    ensures StrLe(a, b) || StrLe(b, a)
  {
    if a != [] && b != [] && a[0] == b[0] {
      StrLeTotal(a[1..], b[1..]);
    }
  }

  lemma {:induction false} StrLeAntisymmetric(a: string, b: string)
    requires StrLe(a, b) && StrLe(b, a)
    ensures a == b
  {
    if a != [] && b != [] {
      StrLeAntisymmetric(a[1..], b[1..]);
      assert a == [a[0]] + a[1..] && b == [b[0]] + b[1..];
    }
  }

  lemma {:induction false} StrLeTransitive(a: string, b: string, c: string)
    requires StrLe(a, b) && StrLe(b, c)
    ensures StrLe(a, c)
  {
    if a != [] && b != [] && c != [] && a[0] == b[0] == c[0] {
      StrLeTransitive(a[1..], b[1..], c[1..]);
    }
  }

  /** A string without whitespace at either end, padded on the right, strips
      back to itself. */
  lemma StripLjust(s: string, w: int)
    requires s != [] && !IsSpace(s[0]) && !IsSpace(s[|s| - 1])
    ensures Strip(Ljust(s, w)) == s
  {
    var t := Ljust(s, w);
    var r := Strip(t);
    assert LeadingSpaces(t) == 0;
    assert !IsSpace(t[|s| - 1]);
    assert r == t[..|s|];
  }
}
