/**
 * The JavaScript string and number built-ins the screens rely on, on `string`
 * (a sequence of characters): `parseInt(s)` without a radix, `String(n)` and
 * `n.toString()` for integers, `padStart(2, '0')`, `trim()` and `split(sep)`.
 */
module JsText {
  import opened Wrappers

  /** ECMAScript white space and line terminators, as `trim` and `parseInt` skip them. */
  predicate IsSpace(c: char) {
    || c == '\t' || c == '\n' || c == '\U{B}' || c == '\U{C}' || c == '\r' || c == ' '
    || c == '\U{A0}' || c == '\U{1680}' || ('\U{2000}' <= c <= '\U{200A}')
    || c == '\U{2028}' || c == '\U{2029}' || c == '\U{202F}' || c == '\U{205F}'
    || c == '\U{3000}' || c == '\U{FEFF}'
  }

  predicate AllSpace(s: string) {
    forall i :: 0 <= i < |s| ==> IsSpace(s[i])
  }

  /** `s` with its leading white space removed (`trimStart`). */
  function TrimStart(s: string): (r: string)
    ensures |r| <= |s| && r == s[|s| - |r|..]
    ensures AllSpace(s[..|s| - |r|])
    ensures r == [] || !IsSpace(r[0])
  {
    if s != [] && IsSpace(s[0]) then TrimStart(s[1..]) else s
  }

  /** `s` with its trailing white space removed (`trimEnd`). */
  function TrimEnd(s: string): (r: string)
    ensures |r| <= |s| && r == s[..|r|]
    ensures AllSpace(s[|r|..])
    ensures r == [] || !IsSpace(r[|r| - 1])
  {
    if s != [] && IsSpace(s[|s| - 1]) then TrimEnd(s[..|s| - 1]) else s
  }

  /** `s.trim()`. */
  function Trim(s: string): (r: string)
    ensures |r| <= |s|
    ensures r == [] <==> AllSpace(s)
    ensures r != [] ==> !IsSpace(r[0]) && !IsSpace(r[|r| - 1])
  {
    var t := TrimStart(s);
    assert t == [] ==> AllSpace(s) by {
      if t == [] { assert s[..|s|] == s; }
    }
    assert AllSpace(s) ==> t == [];
    TrimEnd(t)
  }

  /** Trimming twice is trimming once. */
  lemma TrimIdempotent(s: string)
    ensures Trim(Trim(s)) == Trim(s)
  {
    var r := Trim(s);
    assert TrimStart(r) == r;
    if r != [] {
      assert TrimEnd(r) == r;
    }
  }

  predicate IsDecDigit(c: char) { '0' <= c <= '9' }

  predicate IsDigit(c: char, radix: nat) {
    if radix == 16 then IsDecDigit(c) || 'a' <= c <= 'f' || 'A' <= c <= 'F'
    else IsDecDigit(c)
  }

  function DigitValue(c: char): (v: nat)
    requires IsDigit(c, 16)
    ensures v < 16
    ensures IsDecDigit(c) ==> v < 10
  {
    if IsDecDigit(c) then c as int - '0' as int
    else if 'a' <= c <= 'f' then c as int - 'a' as int + 10
    else c as int - 'A' as int + 10
  }

  predicate AllDigits(s: string, radix: nat) {
    forall i :: 0 <= i < |s| ==> IsDigit(s[i], radix)
  }

  /** The longest prefix of `s` made of digits in `radix`. */
  function DigitPrefix(s: string, radix: nat): (r: string)
    ensures r <= s && AllDigits(r, radix)
    ensures |r| < |s| ==> !IsDigit(s[|r|], radix)
  {
    if s != [] && IsDigit(s[0], radix) then [s[0]] + DigitPrefix(s[1..], radix) else []
  }

  /** The number that the digits `ds` denote in `radix`, most significant first. */
  function DigitsValue(ds: string, radix: nat): nat
    requires radix == 10 || radix == 16
    requires AllDigits(ds, radix)
  {
    if ds == [] then 0
    else DigitsValue(ds[..|ds| - 1], radix) * radix + DigitValue(ds[|ds| - 1])
  }

  /**
   * The digits after the sign, as `parseInt` with no radix reads them: hexadecimal
   * after a `0x`/`0X` prefix, decimal otherwise, up to the first non-digit.
   */
  function ParseUnsigned(u: string): Option<nat> {
    var hex := |u| >= 2 && u[0] == '0' && (u[1] == 'x' || u[1] == 'X');
    var radix := if hex then 16 else 10;
    var ds := DigitPrefix(if hex then u[2..] else u, radix);
    if ds == [] then None else Some(DigitsValue(ds, radix))
  }

  /**
   * `parseInt(s)` with no radix: skip leading white space, take an optional sign and
   * read the digits that follow. `None` stands for `NaN` (no digit at all).
   */
  function ParseInt(s: string): Option<int> {
    ParseSigned(TrimStart(s))
  }

  /** An optional sign, then the digits that `ParseUnsigned` reads. */
  function ParseSigned(t: string): Option<int> {
    var negative := t != [] && t[0] == '-';
    var u := if t != [] && (t[0] == '-' || t[0] == '+') then t[1..] else t;
    match ParseUnsigned(u)
    case None => None
    case Some(v) => Some(if negative then -(v as int) else v as int)
  }

  /** `parseInt(s) || fallback`: `NaN` and zero are falsy and give `fallback`. */
  function ParsedOr(s: string, fallback: int): (r: int)
    ensures fallback != 0 ==> r != 0
    ensures ParseInt(s).Some? && ParseInt(s).value != 0 ==> r == ParseInt(s).value
    ensures ParseInt(s).None? || ParseInt(s).value == 0 ==> r == fallback
  {
    match ParseInt(s)
    case Some(v) => if v != 0 then v else fallback
    case None => fallback
  }

  function DecDigit(d: nat): (c: char)
    requires d < 10
    ensures IsDecDigit(c) && DigitValue(c) == d
  {
    ('0' as int + d) as char
  }

  /** The decimal numeral of `n`, with no leading zero. */
  function NatToString(n: nat): (r: string)
    ensures |r| >= 1 && AllDigits(r, 10)
    ensures DigitsValue(r, 10) == n
    ensures |r| == 1 <==> n < 10
  {
    if n < 10 then [DecDigit(n)]
    else
      var p := NatToString(n / 10);
      var r := p + [DecDigit(n % 10)];
      assert r[..|r| - 1] == p;
      r
  }

  /** `String(n)` for an integer `n`. */
  function IntToString(n: int): (r: string)
    ensures |r| >= 1 && !IsSpace(r[0])
    ensures |r| == 1 <==> 0 <= n < 10
  {
    if n < 0 then "-" + NatToString(-n) else NatToString(n)
  }

  /** A string made only of digits is its own longest digit prefix. */
  lemma {:induction false} DigitPrefixOfDigits(s: string, radix: nat)
    requires AllDigits(s, radix)
    ensures DigitPrefix(s, radix) == s
  {
    if s != [] {
      DigitPrefixOfDigits(s[1..], radix);
    }
  }

  /** The digits of a decimal numeral are read whole, in decimal. */
  lemma ParseUnsignedDecimal(p: string)
    requires p != [] && AllDigits(p, 10)
    ensures ParseUnsigned(p) == Some(DigitsValue(p, 10))
  {
    DigitPrefixOfDigits(p, 10);
    if |p| >= 2 {
      assert IsDecDigit(p[1]);
    }
  }

  /** A string with no leading white space is read from its first character. */
  lemma ParseUntrimmed(t: string)
    requires t == [] || !IsSpace(t[0])
    ensures ParseInt(t) == ParseSigned(t)
  {
    assert TrimStart(t) == t;
  }

  /** `parseInt` reads a decimal numeral. */
  lemma ParseDecimal(p: string)
    requires p != [] && AllDigits(p, 10)
    ensures ParseInt(p) == Some(DigitsValue(p, 10) as int)
  {
    ParseUntrimmed(p);
    ParseUnsignedDecimal(p);
    assert p[0] != '-' && p[0] != '+';
  }

  /** A minus sign followed by decimal digits reads as the negated number. */
  lemma ParseMinus(t: string)
    requires |t| >= 2 && t[0] == '-' && AllDigits(t[1..], 10)
    ensures ParseInt(t) == Some(-(DigitsValue(t[1..], 10) as int))
  {
    ParseUntrimmed(t);
    ParseUnsignedDecimal(t[1..]);
  }

  /** Reading back the numeral of `n` with `parseInt` gives `n`. */
  lemma ParseIntToString(n: int)
    ensures ParseInt(IntToString(n)) == Some(n)
  {
    if n < 0 {
      var s := IntToString(n);
      assert s[0] == '-' && s[1..] == NatToString(-n);
      ParseMinus(s);
    } else {
      ParseDecimal(NatToString(n));
    }
  }

  /** `s.padStart(2, '0')`. */
  function PadStart2(s: string): (r: string)
    ensures |r| >= 2
    ensures |s| >= 2 ==> r == s
    ensures |s| < 2 ==> r[2 - |s|..] == s && AllDigits(r[..2 - |s|], 10)
  {
    if |s| >= 2 then s else seq(2 - |s|, _ => '0') + s
  }

  /** A digit after a leading zero reads as the digit. */
  lemma ParseZeroPadded(d: nat)
    requires d < 10
    ensures ParseInt(['0', DecDigit(d)]) == Some(d)
  {
    var r := ['0', DecDigit(d)];
    assert AllDigits(r, 10) by { assert IsDecDigit(r[0]) && IsDecDigit(r[1]); }
    ParseDecimal(r);
    var zero := r[..1];
    assert zero == ['0'];
    assert DigitsValue(zero, 10) == 0 by { assert zero[..0] == []; }
    assert DigitsValue(r, 10) == DigitsValue(zero, 10) * 10 + DigitValue(r[1]);
  }

  /** Reading back `String(n).padStart(2, '0')` with `parseInt` gives `n`: the pad is a leading zero. */
  lemma ParseIntPadded(n: int)
    ensures ParseInt(PadStart2(IntToString(n))) == Some(n)
  {
    var s := IntToString(n);
    if |s| >= 2 {
      ParseIntToString(n);
    } else {
      assert s == [DecDigit(n)];
      assert PadStart2(s) == ['0', DecDigit(n)];
      ParseZeroPadded(n);
    }
  }

  /** `s.split(sep)`: the fields between separators, in order; always at least one. */
  function Split(s: string, sep: char): (r: seq<string>)
    ensures |r| >= 1
    ensures forall i :: 0 <= i < |r| ==> sep !in r[i]
    ensures sep !in s ==> r == [s]
  {
    if s == [] then [[]]
    else
      var rest := Split(s[1..], sep);
      if s[0] == sep then [[]] + rest
      else
        assert sep !in s[1..] ==> s == [s[0]] + s[1..];
        [[s[0]] + rest[0]] + rest[1..]
  }

  /** Splitting `a` joined to `b` by the separator gives `a` followed by the fields of `b`. */
  lemma {:induction false} SplitAt(a: string, sep: char, b: string)
    requires sep !in a
    ensures Split(a + [sep] + b, sep) == [a] + Split(b, sep)
  {
    if a == [] {
      assert a + [sep] + b == [sep] + b;
      assert ([sep] + b)[1..] == b;
    } else {
      var s := a + [sep] + b;
      assert s[1..] == a[1..] + [sep] + b;
      SplitAt(a[1..], sep, b);
      assert [a[0]] + a[1..] == a;
    }
  }
}
