/** The string primitives the page script relies on: `String.prototype.trim`,
    the `\s` class of its regular expressions, `replace(/[^0-9]/g, '')`,
    `parseInt` and the conversion of an integer to its decimal text. */
module Text {
  import opened Wrappers

  /** ECMAScript WhiteSpace and LineTerminator code points: exactly the set
      that `trim`, the regular-expression class `\s` and `parseInt` skip. */
  predicate IsWhitespace(c: char) {
    || c == '\t' || c == '\n' || c == '\U{B}' || c == '\U{C}' || c == '\r'
    || c == ' ' || c == '\U{A0}' || c == '\U{1680}' || '\U{2000}' <= c <= '\U{200A}'
    || c == '\U{2028}' || c == '\U{2029}' || c == '\U{202F}' || c == '\U{205F}'
    || c == '\U{3000}' || c == '\U{FEFF}'
  }

  predicate AllWhitespace(s: string) {
    forall k :: 0 <= k < |s| ==> IsWhitespace(s[k])
  }

  /** The number of whitespace characters `s` starts with. */
  function LeadingSpace(s: string): (n: nat)
    ensures n <= |s|
  {
    if s != [] && IsWhitespace(s[0]) then 1 + LeadingSpace(s[1..]) else 0
  }

  /** The number of whitespace characters `s` ends with. */
  function TrailingSpace(s: string): (n: nat)
    ensures n <= |s|
  {
    if s != [] && IsWhitespace(s[|s| - 1]) then 1 + TrailingSpace(s[..|s| - 1]) else 0
  }

  /** The leading run is whitespace and stops at a character that is not. */
  lemma {:induction false} LeadingSpaceSpec(s: string)
    ensures var n := LeadingSpace(s);
      AllWhitespace(s[..n]) && (n < |s| ==> !IsWhitespace(s[n]))
  {
    if s != [] && IsWhitespace(s[0]) {
      var n := LeadingSpace(s);
      LeadingSpaceSpec(s[1..]);
      forall k | 0 <= k < n ensures IsWhitespace(s[..n][k]) {
        if k > 0 {
          assert s[..n][k] == s[1..][..n - 1][k - 1];
        }
      }
      if n < |s| {
        assert s[n] == s[1..][n - 1];
      }
    }
  }

  /** The trailing run is whitespace and stops at a character that is not. */
  lemma {:induction false} TrailingSpaceSpec(s: string)
    ensures var n := TrailingSpace(s);
      AllWhitespace(s[|s| - n..]) && (n < |s| ==> !IsWhitespace(s[|s| - n - 1]))
  {
    if s != [] && IsWhitespace(s[|s| - 1]) {
      var n := TrailingSpace(s);
      var p := s[..|s| - 1];
      TrailingSpaceSpec(p);
      var tail := s[|s| - n..];
      forall k | 0 <= k < n ensures IsWhitespace(tail[k]) {
        if k < n - 1 {
          assert tail[k] == p[|p| - (n - 1)..][k];
        }
      }
      if n < |s| {
        assert s[|s| - n - 1] == p[|p| - (n - 1) - 1];
      }
    }
  }

  /** `s` with its leading whitespace removed. */
  function TrimStart(s: string): string
  {
    s[LeadingSpace(s)..]
  }

  /** `s` with its trailing whitespace removed. */
  function TrimEnd(s: string): string
  {
    s[..|s| - TrailingSpace(s)]
  }

  /** `String.prototype.trim`: the text between the leading and the trailing
      whitespace. It is empty exactly when `s` is all whitespace. */
  function Trim(s: string): (r: string)
    ensures r == [] || (!IsWhitespace(r[0]) && !IsWhitespace(r[|r| - 1]))
    ensures r == [] <==> AllWhitespace(s)
  {
    TrimSpec(s);
    TrimEnd(TrimStart(s))
  }

  lemma TrimSpec(s: string)
    ensures var r := TrimEnd(TrimStart(s));
      && (r == [] || (!IsWhitespace(r[0]) && !IsWhitespace(r[|r| - 1])))
      && (r == [] <==> AllWhitespace(s))
  {
    var n := LeadingSpace(s);
    var t := s[n..];
    var m := TrailingSpace(t);
    var r := t[..|t| - m];
    LeadingSpaceSpec(s);
    TrailingSpaceSpec(t);
    assert TrimEnd(TrimStart(s)) == r;
    if r != [] {
      assert r[0] == s[n];
      assert r[|r| - 1] == t[|t| - m - 1];
    } else {
      assert s[..n] == s;
    }
  }

  /** A text with no whitespace at either end is its own trim. */
  lemma TrimKeeps(s: string)
    requires s != [] && !IsWhitespace(s[0]) && !IsWhitespace(s[|s| - 1])
    ensures Trim(s) == s
  {
    assert LeadingSpace(s) == 0;
    assert TrailingSpace(s) == 0;
  }

  /** What `trim` removes is whitespace on both sides of a contiguous piece of `s`. */
  lemma TrimIsInfix(s: string)
    ensures var r := Trim(s);
      exists i :: 0 <= i <= |s| - |r| && r == s[i..i + |r|]
        && AllWhitespace(s[..i]) && AllWhitespace(s[i + |r|..])
  {
    var n := LeadingSpace(s);
    var t := s[n..];
    var m := TrailingSpace(t);
    var r := t[..|t| - m];
    LeadingSpaceSpec(s);
    TrailingSpaceSpec(t);
    assert Trim(s) == r;
    assert r == s[n..n + |r|];
    assert s[n + |r|..] == t[|t| - m..];
  }

  // ----- digits and numerals -----

  /** A digit of radix 10 or 16, as `parseInt` reads them (either case of letter). */
  predicate IsRadixDigit(c: char, hex: bool) {
    || '0' <= c <= '9'
    || (hex && ('a' <= c <= 'f' || 'A' <= c <= 'F'))
  }

  predicate IsDigit(c: char) { IsRadixDigit(c, false) }

  predicate AllDigits(s: string, hex: bool) {
    forall k :: 0 <= k < |s| ==> IsRadixDigit(s[k], hex)
  }

  function DigitValue(c: char, hex: bool): (d: nat)
    requires IsRadixDigit(c, hex)
    ensures d < (if hex then 16 else 10)
  {
    if '0' <= c <= '9' then c as int - '0' as int
    else if 'a' <= c <= 'f' then c as int - 'a' as int + 10
    else c as int - 'A' as int + 10
  }

  /** The value of a numeral in radix 10 or 16, most significant digit first. */
  function NumeralValue(s: string, hex: bool): nat
    requires AllDigits(s, hex)
  {
    if s == [] then 0
    else NumeralValue(s[..|s| - 1], hex) * (if hex then 16 else 10) + DigitValue(s[|s| - 1], hex)
  }

  function DigitChar(d: nat): (c: char)
    requires d < 10
    ensures IsDigit(c) && DigitValue(c, false) == d
  {
    ('0' as int + d) as char
  }

  /** The decimal text of `n` (what `String(n)` gives for a non-negative integer). */
  function NatToString(n: nat): (r: string)
    ensures |r| > 0 && AllDigits(r, false)
    ensures n > 0 ==> r[0] != '0'
  {
    if n < 10 then [DigitChar(n)] else NatToString(n / 10) + [DigitChar(n % 10)]
  }

  /** The decimal text of an integer, with a leading `-` when it is negative. */
  function IntToString(i: int): (r: string)
  {
    if i < 0 then "-" + NatToString(-i) else NatToString(i)
  }

  /** Reading back the decimal text of `n` gives `n`. */
  lemma {:induction false} NatToStringRoundTrip(n: nat)
    ensures NumeralValue(NatToString(n), false) == n
  {
    if n >= 10 {
      NatToStringRoundTrip(n / 10);
      var s := NatToString(n);
      assert s[..|s| - 1] == NatToString(n / 10);
    }
  }

  /** The longest prefix of `s` made of digits of the radix. */
  function DigitPrefix(s: string, hex: bool): (r: string)
    ensures AllDigits(r, hex)
  {
    if s != [] && IsRadixDigit(s[0], hex) then [s[0]] + DigitPrefix(s[1..], hex) else []
  }

  /** The digits read are a prefix of `s` that stops at a non-digit. */
  lemma {:induction false} DigitPrefixSpec(s: string, hex: bool)
    ensures var r := DigitPrefix(s, hex);
      |r| <= |s| && r == s[..|r|] && (|r| < |s| ==> !IsRadixDigit(s[|r|], hex))
  {
    if s != [] && IsRadixDigit(s[0], hex) {
      DigitPrefixSpec(s[1..], hex);
    }
  }

  /** A string of digits is its own longest digit prefix. */
  lemma {:induction false} DigitPrefixOfDigits(s: string, hex: bool)
    requires AllDigits(s, hex)
    ensures DigitPrefix(s, hex) == s
  {
    if s != [] {
      DigitPrefixOfDigits(s[1..], hex);
    }
  }

  /** `u` starts with the `0x` or `0X` of a hexadecimal numeral. */
  predicate HexPrefix(u: string) {
    |u| >= 2 && u[0] == '0' && (u[1] == 'x' || u[1] == 'X')
  }

  /** The unsigned part of `parseInt`: a hexadecimal numeral after a `0x` or
      `0X` prefix, a decimal one otherwise, read up to the first character
      that is not a digit; `None` when no digit was read. */
  function ParseUnsigned(u: string): Option<nat>
  {
    var hex := HexPrefix(u);
    var digits := DigitPrefix(if hex then u[2..] else u, hex);
    if digits == [] then None else Some(NumeralValue(digits, hex))
  }

  /** The text `parseInt` reads its numeral from: what follows the leading
      whitespace and at most one sign. */
  function Unsigned(s: string): string
  {
    var t := TrimStart(s);
    if t != [] && (t[0] == '-' || t[0] == '+') then t[1..] else t
  }

  /** `parseInt(s)` with no radix argument: skip leading whitespace, read an
      optional sign, then the unsigned numeral. `None` stands for `NaN`, which
      it gives exactly when no digit of the radix follows the whitespace, the
      sign and the `0x` prefix: a bare `0x`, or `0x` before a character that
      is not hexadecimal, and any other text not starting with a decimal digit. */
  function ParseInt(s: string): (r: Option<int>)
    ensures r == None <==>
      var u := Unsigned(s);
      if HexPrefix(u) then |u| == 2 || !IsRadixDigit(u[2], true)
      else u == [] || !IsDigit(u[0])
  {
    var t := TrimStart(s);
    if t != [] && (t[0] == '-' || t[0] == '+') then
      match ParseUnsigned(t[1..])
      case None => None
      case Some(n) => Some(if t[0] == '-' then -(n as int) else n as int)
    else
      match ParseUnsigned(t)
      case None => None
      case Some(n) => Some(n)
  }

  /** A decimal numeral is read in radix 10, whole: its second character,
      a digit, is never the `x` of a hexadecimal prefix. */
  lemma ParseUnsignedOfDigits(d: string)
    requires d != [] && AllDigits(d, false)
    ensures ParseUnsigned(d) == Some(NumeralValue(d, false))
  {
    assert |d| >= 2 ==> '0' <= d[1] <= '9';
    DigitPrefixOfDigits(d, false);
  }

  /** Leading whitespace is all `parseInt` skips: a string that starts with a
      sign or a digit is read from its first character. */
  lemma TrimStartKeeps(s: string)
    requires s != [] && (s[0] == '-' || IsDigit(s[0]))
    ensures TrimStart(s) == s
  {
    assert LeadingSpace(s) == 0;
  }

  /** `parseInt` of a string of decimal digits is the numeral's value. */
  lemma ParseIntOfDigits(d: string)
    requires d != [] && AllDigits(d, false)
    ensures ParseInt(d) == Some(NumeralValue(d, false) as int)
  {
    TrimStartKeeps(d);
    ParseUnsignedOfDigits(d);
    assert ParseInt(d) == match ParseUnsigned(d) case None => None case Some(n) => Some(n);
  }

  /** `parseInt` reads back what `String(i)` writes, for every integer. */
  lemma ParseIntRoundTrip(i: int)
    ensures ParseInt(IntToString(i)) == Some(i)
  {
    var n: nat := if i < 0 then -i else i;
    var d := NatToString(n);
    ParseUnsignedOfDigits(d);
    NatToStringRoundTrip(n);
    var s := IntToString(i);
    TrimStartKeeps(s);
    if i < 0 {
      assert s[1..] == d;
    }
  }

  /** Whitespace in front of `s` adds to its leading run. */
  lemma {:induction false} LeadingSpaceAppend(w: string, s: string)
    requires AllWhitespace(w)
    ensures LeadingSpace(w + s) == |w| + LeadingSpace(s)
  {
    if w == [] {
      assert w + s == s;
    } else {
      assert (w + s)[1..] == w[1..] + s;
      LeadingSpaceAppend(w[1..], s);
    }
  }

  /** Whitespace before the text is skipped: it does not change what `parseInt` reads. */
  lemma ParseIntSkipsWhitespace(w: string, s: string)
    requires AllWhitespace(w)
    ensures ParseInt(w + s) == ParseInt(s)
  {
    LeadingSpaceAppend(w, s);
    assert TrimStart(w + s) == TrimStart(s);
  }

  /** One sign before an unsigned text: `+` reads the same numeral, `-` negates it. */
  lemma ParseIntSign(u: string)
    requires u == [] || (!IsWhitespace(u[0]) && u[0] != '-' && u[0] != '+')
    ensures ParseInt("+" + u) == ParseInt(u)
    ensures ParseInt("-" + u) == match ParseInt(u) case None => None case Some(n) => Some(-n)
  {
    assert LeadingSpace(u) == 0;
    assert LeadingSpace("+" + u) == 0;
    assert LeadingSpace("-" + u) == 0;
    assert ("+" + u)[1..] == u;
    assert ("-" + u)[1..] == u;
  }

  /** After `0x` or `0X` the digits are read in radix 16. */
  lemma ParseIntHex(d: string, x: char)
    requires d != [] && AllDigits(d, true) && (x == 'x' || x == 'X')
    ensures ParseInt(['0', x] + d) == Some(NumeralValue(d, true) as int)
  {
    var s := ['0', x] + d;
    assert LeadingSpace(s) == 0;
    assert s[2..] == d;
    DigitPrefixOfDigits(d, true);
  }

  /** The digits of `d` followed by `d`'s longest digit prefix. */
  lemma {:induction false} DigitPrefixAppend(d: string, rest: string)
    requires AllDigits(d, false) && (rest == [] || !IsDigit(rest[0]))
    ensures DigitPrefix(d + rest, false) == d
  {
    if d == [] {
      assert d + rest == rest;
    } else {
      assert (d + rest)[1..] == d[1..] + rest;
      DigitPrefixAppend(d[1..], rest);
    }
  }

  /** Reading stops at the first character that is not a digit: `12px` is 12.
      A lone `0` before `x` is the one exception, the hexadecimal prefix. */
  lemma ParseIntIgnoresTail(d: string, rest: string)
    requires d != [] && AllDigits(d, false) && (rest == [] || !IsDigit(rest[0]))
    requires !HexPrefix(d + rest)
    ensures ParseInt(d + rest) == Some(NumeralValue(d, false) as int)
  {
    var s := d + rest;
    assert s[0] == d[0];
    assert LeadingSpace(s) == 0;
    DigitPrefixAppend(d, rest);
  }

  /** `s.replace(/[^0-9]/g, '')`: the decimal digits of `s`, in order. */
  function KeepDigits(s: string): (r: string)
    ensures AllDigits(r, false) && |r| <= |s|
  {
    if s == [] then []
    else (if IsDigit(s[0]) then [s[0]] else []) + KeepDigits(s[1..])
  }

  predicate HasDigit(s: string) {
    exists k :: 0 <= k < |s| && IsDigit(s[k])
  }

  /** Removing the non-digits keeps a digit exactly when there was one. */
  lemma {:induction false} KeepDigitsNonEmpty(s: string)
    ensures KeepDigits(s) != [] <==> HasDigit(s)
  {
    if s != [] {
      KeepDigitsNonEmpty(s[1..]);
      if HasDigit(s[1..]) {
        var k :| 0 <= k < |s| - 1 && IsDigit(s[1..][k]);
        assert IsDigit(s[k + 1]);
      }
      if HasDigit(s) && !IsDigit(s[0]) {
        var k :| 0 <= k < |s| && IsDigit(s[k]);
        assert s[1..][k - 1] == s[k];
      }
    }
  }

  /** Filtering distributes over concatenation. */
  lemma {:induction false} KeepDigitsAppend(a: string, b: string)
    ensures KeepDigits(a + b) == KeepDigits(a) + KeepDigits(b)
  {
    if a != [] {
      assert (a + b)[1..] == a[1..] + b;
      KeepDigitsAppend(a[1..], b);
    } else {
      assert a + b == b;
    }
  }

  /** A string of digits loses nothing to the filter. */
  lemma {:induction false} KeepDigitsOfDigits(s: string)
    requires AllDigits(s, false)
    ensures KeepDigits(s) == s
  {
    if s != [] {
      KeepDigitsOfDigits(s[1..]);
    }
  }
}
