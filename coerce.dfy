/**
 * The importer's null-safe coercers (`_to_float`, `_to_int`) and its two
 * date parsers (`_to_date_owid`, `_to_date_oxcgrt`), with the parts of
 * Python's `float()`, `int()`, `str.strip()`, `str()` and
 * `datetime.strptime` they rely on.
 */
module Coerce {
  import opened Wrappers
  import opened Dates

  // ---------------------------------------------------------------------------
  // Whitespace (Python's str.isspace / str.strip, and what float() strips)
  // ---------------------------------------------------------------------------

  /** Python's `str.isspace()` for one code point. */
  predicate IsSpace(c: char)
  {
    ('\t' <= c <= '\r') || ('\U{1c}' <= c <= '\U{1f}') || c == ' '
    || c == '\U{85}' || c == '\U{a0}' || c == '\U{1680}'
    || ('\U{2000}' <= c <= '\U{200a}') || c == '\U{2028}' || c == '\U{2029}'
    || c == '\U{202f}' || c == '\U{205f}' || c == '\U{3000}'
  }

  /**
   * Which characters a strip removes. `str.strip()` removes every
   * `str.isspace()` character. `float()` keeps ASCII characters as they are
   * and turns other whitespace into a space before stripping ASCII
   * whitespace only, so the separators `\x1c`-`\x1f` are not stripped there.
   */
  datatype Blanks = StrBlanks | FloatBlanks

  predicate IsBlank(k: Blanks, c: char)
  {
    IsSpace(c) && (k == FloatBlanks ==> !('\U{1c}' <= c <= '\U{1f}'))
  }

  predicate AllBlank(k: Blanks, s: string)
  {
    forall i :: 0 <= i < |s| ==> IsBlank(k, s[i])
  }

  /** `s.lstrip()`: `s` without its leading whitespace. */
  function StripLeft(k: Blanks, s: string): (r: string)
    ensures |r| <= |s| && r == s[|s| - |r|..]
    ensures AllBlank(k, s[..|s| - |r|])
    ensures r == [] || !IsBlank(k, r[0])
  {
    if s != [] && IsBlank(k, s[0]) then StripLeft(k, s[1..]) else s
  }

  /** `s.rstrip()`: `s` without its trailing whitespace. */
  function StripRight(k: Blanks, s: string): (r: string)
    ensures |r| <= |s| && r == s[..|r|]
    ensures AllBlank(k, s[|r|..])
    ensures r == [] || !IsBlank(k, r[|r| - 1])
  {
    if s != [] && IsBlank(k, s[|s| - 1]) then
      var init := s[..|s| - 1];
      var r := StripRight(k, init);
      assert init[..|r|] == s[..|r|];
      assert s[|r|..] == init[|r|..] + [s[|s| - 1]];
      r
    else s
  }

  /** `s.strip()`, removing the whitespace `k` names. */
  function Strip(k: Blanks, s: string): string
  {
    StripRight(k, StripLeft(k, s))
  }

  /** `s.strip() == ""` exactly when `s` is whitespace only. */
  lemma StripEmptyIff(k: Blanks, s: string)
    ensures Strip(k, s) == [] <==> AllBlank(k, s)
  {
  }

  // ---------------------------------------------------------------------------
  // Numbers (Python's float(str), int(float), str(int))
  // ---------------------------------------------------------------------------

  predicate IsDigit(c: char)
  {
    '0' <= c <= '9'
  }

  predicate AllDigits(s: string)
  {
    forall i :: 0 <= i < |s| ==> IsDigit(s[i])
  }

  function DigitValue(c: char): int
  {
    c as int - '0' as int
  }

  /** Length of the run of ASCII digits that starts `s`. */
  function DigitRun(s: string): (n: nat)
    ensures n <= |s| && AllDigits(s[..n])
    ensures n < |s| ==> !IsDigit(s[n])
  {
    if s != [] && IsDigit(s[0]) then
      var k := DigitRun(s[1..]);
      assert s[..k + 1] == [s[0]] + s[1..][..k];
      k + 1
    else 0
  }

  /** The natural number a string of ASCII digits denotes. */
  function DigitsValue(s: string): (v: nat)
    requires AllDigits(s)
  {
    if s == [] then 0 else 10 * DigitsValue(s[..|s| - 1]) + DigitValue(s[|s| - 1])
  }

  /** 10 raised to an integer power, as a real. */
  function Scale(e: int): (r: real)
    ensures r > 0.0
    decreases if e >= 0 then e else -e
  {
    if e == 0 then 1.0
    else if e > 0 then 10.0 * Scale(e - 1)
    else Scale(e + 1) / 10.0
  }

  /** The value of the digit string `n` scaled by `10^e`. */
  function Magnitude(n: nat, e: int): real
  {
    n as real * Scale(e)
  }

  /** A non-negative power is the integer power of ten. */
  lemma {:induction false} ScaleUp(k: nat)
    ensures Scale(k) == Pow10(k) as real
  {
    if k > 0 {
      ScaleUp(k - 1);
    }
  }

  /** A negative power is the reciprocal of the integer power of ten. */
  lemma {:induction false} ScaleDown(k: nat)
    ensures Scale(-(k as int)) * (Pow10(k) as real) == 1.0
  {
    if k > 0 {
      ScaleDown(k - 1);
      assert Scale(-(k as int)) == Scale(-((k - 1) as int)) / 10.0;
      assert Pow10(k) as real == 10.0 * (Pow10(k - 1) as real);
    }
  }

  /** The exponent part `[eE][+-]?digits` that ends a numeral, or 0 when there is none. */
  function ParseExponent(s: string): (r: Option<int>)
    ensures s == [] ==> r == Some(0)
    ensures r.Some? && s != [] ==> (s[0] == 'e' || s[0] == 'E')
  {
    if s == [] then Some(0)
    else if s[0] != 'e' && s[0] != 'E' then None
    else
      var t := s[1..];
      var neg := t != [] && t[0] == '-';
      var digits := if t != [] && (t[0] == '+' || t[0] == '-') then t[1..] else t;
      if digits != [] && DigitRun(digits) == |digits| then
        assert digits[..|digits|] == digits;
        var v: int := DigitsValue(digits);
        Some(if neg then -v else v)
      else None
  }

  /**
   * A stripped numeral cut into the parts `float()` reads:
   * `sign intPart point fracPart exp`, the digit runs taken as long as possible.
   */
  datatype Numeral = Numeral(sign: string, intPart: string, point: string, fracPart: string, exp: string)

  /** A string cut in two: `s == head + tail`. */
  datatype Cut = Cut(head: string, tail: string)

  /** The sign `+` or `-` that may start `s`. */
  function CutSign(s: string): Cut
  {
    if s != [] && (s[0] == '+' || s[0] == '-') then Cut([s[0]], s[1..]) else Cut("", s)
  }

  /** The longest run of digits that starts `s`. */
  function CutDigits(s: string): (c: Cut)
    ensures AllDigits(c.head)
  {
    var i := DigitRun(s);
    Cut(s[..i], s[i..])
  }

  /** The point that may start `s`. */
  function CutPoint(s: string): Cut
  {
    if s != [] && s[0] == '.' then Cut(".", s[1..]) else Cut("", s)
  }

  function SplitNumeral(t: string): (n: Numeral)
    ensures AllDigits(n.intPart) && AllDigits(n.fracPart)
  {
    var sign := CutSign(t);
    var ip := CutDigits(sign.tail);
    var pt := CutPoint(ip.tail);
    var fp := if pt.head == "." then CutDigits(pt.tail) else Cut("", pt.tail);
    Numeral(sign.head, ip.head, pt.head, fp.head, fp.tail)
  }

  lemma CutSignFacts(s: string)
    ensures var c := CutSign(s);
      s == c.head + c.tail && (c.head == "" || c.head == "+" || c.head == "-")
  {
    if s != [] && (s[0] == '+' || s[0] == '-') {
      assert s == [s[0]] + s[1..];
    }
  }

  lemma CutDigitsFacts(s: string)
    ensures var c := CutDigits(s); s == c.head + c.tail
  {
    SplitAt(s, DigitRun(s));
  }

  lemma CutPointFacts(s: string)
    ensures var c := CutPoint(s); s == c.head + c.tail && (c.head == "" || c.head == ".")
  {
    if s != [] && s[0] == '.' {
      assert s == [s[0]] + s[1..];
    }
  }

  /** The cut puts every character of the numeral in exactly one part. */
  lemma SplitNumeralFacts(t: string)
    ensures var n := SplitNumeral(t);
      t == n.sign + n.intPart + n.point + n.fracPart + n.exp
      && (n.sign == "" || n.sign == "+" || n.sign == "-")
      && (n.point == "" || n.point == ".")
      && (n.point == "" ==> n.fracPart == "")
  {
    var sign := CutSign(t);
    CutSignFacts(t);
    var ip := CutDigits(sign.tail);
    CutDigitsFacts(sign.tail);
    var pt := CutPoint(ip.tail);
    CutPointFacts(ip.tail);
    var fp := if pt.head == "." then CutDigits(pt.tail) else Cut("", pt.tail);
    if pt.head == "." {
      CutDigitsFacts(pt.tail);
    } else {
      assert pt.tail == fp.head + fp.tail;
    }
    Assoc5(sign.head, ip.head, pt.head, fp.head, fp.tail);
  }

  /** A numeral with a digit before or after its point has a digit. */
  lemma NumeralDigit(n: Numeral)
    requires AllDigits(n.intPart) && AllDigits(n.fracPart) && |n.intPart| + |n.fracPart| > 0
    ensures var t := n.sign + n.intPart + n.point + n.fracPart + n.exp;
      exists i :: 0 <= i < |t| && IsDigit(t[i])
  {
    var t := n.sign + n.intPart + n.point + n.fracPart + n.exp;
    if n.intPart != [] {
      assert t[|n.sign|] == n.intPart[0];
    } else {
      assert t[|n.sign| + |n.point|] == n.fracPart[0];
    }
  }

  lemma SplitAt(s: string, k: nat)
    requires k <= |s|
    ensures s == s[..k] + s[k..]
  {
  }

  lemma Assoc5(a: string, b: string, c: string, d: string, e: string)
    ensures a + (b + (c + (d + e))) == a + b + c + d + e
  {
  }

  /**
   * A stripped decimal numeral as `float()` reads it:
   * `[+-]? (digits [. digits?] | . digits) ([eE] [+-]? digits)?`, valued exactly.
   */
  function ParseDecimal(t: string): (r: Option<real>)
    ensures r.Some? ==> exists i :: 0 <= i < |t| && IsDigit(t[i])
  {
    var n := SplitNumeral(t);
    var r := NumeralValue(n);
    if r.Some? then
      SplitNumeralFacts(t);
      NumeralDigit(n);
      r
    else None
  }

  /** The value of a cut numeral: it needs a digit, and its exponent must parse. */
  function NumeralValue(n: Numeral): (r: Option<real>)
    requires AllDigits(n.intPart) && AllDigits(n.fracPart)
    ensures r.Some? ==> |n.intPart| + |n.fracPart| > 0
  {
    if |n.intPart| + |n.fracPart| == 0 then None
    else
      match ParseExponent(n.exp)
      case None => None
      case Some(e) =>
        assert AllDigits(n.intPart + n.fracPart);
        var mag := Magnitude(DigitsValue(n.intPart + n.fracPart), e - |n.fracPart|);
        Some(if n.sign == "-" then -mag else mag)
  }

  /** The only way to cut `sign ip pt fp x` when the digit runs cannot be extended. */
  lemma SplitParts(sign: string, ip: string, pt: string, fp: string, x: string)
    requires sign == "" || sign == "+" || sign == "-"
    requires ip != [] && AllDigits(ip)
    requires pt == "" || pt == "."
    requires AllDigits(fp) && (pt == "" ==> fp == "")
    requires x == [] || !IsDigit(x[0])
    requires pt == "" && x != [] ==> x[0] != '.'
    ensures SplitNumeral(sign + ip + pt + fp + x) == Numeral(sign, ip, pt, fp, x)
  {
    Assoc5(sign, ip, pt, fp, x);
    CutSignOf(sign, ip + (pt + (fp + x)));
    CutDigitsOf(ip, pt + (fp + x));
    CutPointOf(pt, fp + x);
    if pt == "." {
      CutDigitsOf(fp, x);
    } else {
      assert fp + x == x;
    }
  }

  lemma CutSignOf(sign: string, rest: string)
    requires sign == "" || sign == "+" || sign == "-"
    requires rest != [] && IsDigit(rest[0])
    ensures CutSign(sign + rest) == Cut(sign, rest)
  {
    if sign != "" {
      assert (sign + rest)[1..] == rest;
    }
  }

  lemma CutDigitsOf(d: string, rest: string)
    requires AllDigits(d) && (rest == [] || !IsDigit(rest[0]))
    ensures CutDigits(d + rest) == Cut(d, rest)
  {
    DigitRunPrefix(d, rest);
    assert (d + rest)[..|d|] == d && (d + rest)[|d|..] == rest;
  }

  lemma CutPointOf(pt: string, rest: string)
    requires pt == "" || pt == "."
    requires pt == "" ==> rest == [] || rest[0] != '.'
    ensures CutPoint(pt + rest) == Cut(pt, rest)
  {
    if pt == "." {
      assert (pt + rest)[1..] == rest;
    } else {
      assert pt + rest == rest;
    }
  }


  /** `float(s)` for the decimal numerals it accepts; `None` where it raises. */
  function ParseFloat(s: string): Option<real>
  {
    ParseDecimal(Strip(FloatBlanks, s))
  }

  /**
   * `_to_float(x)`: `None` and `""` give `None`; a numeral gives its value;
   * anything `float()` rejects gives `None` (the exception is swallowed).
   */
  function ToFloat(x: Option<string>): (r: Option<real>)
    ensures x == None || x == Some("") ==> r == None
    ensures x.Some? && AllBlank(StrBlanks, x.value) ==> r == None
    ensures r.Some? ==> x.Some? && exists i :: 0 <= i < |x.value| && IsDigit(x.value[i])
  {
    if x.None? || x.value == "" then None
    else
      ParseFloatFacts(x.value);
      ParseFloat(x.value)
  }

  lemma ParseFloatFacts(s: string)
    ensures ParseFloat(s).Some? ==> exists i :: 0 <= i < |s| && IsDigit(s[i])
    ensures AllBlank(StrBlanks, s) ==> ParseFloat(s) == None
  {
    if ParseFloat(s).Some? {
      StrippedDigit(s);
      var i :| 0 <= i < |s| && IsDigit(s[i]);
      assert !IsBlank(StrBlanks, s[i]);
    }
  }

  /** A digit of the stripped text is a digit of the text. */
  lemma StrippedDigit(s: string)
    requires exists i :: 0 <= i < |Strip(FloatBlanks, s)| && IsDigit(Strip(FloatBlanks, s)[i])
    ensures exists i :: 0 <= i < |s| && IsDigit(s[i])
  {
    var t := Strip(FloatBlanks, s);
    var i :| 0 <= i < |t| && IsDigit(t[i]);
    var l := StripLeft(FloatBlanks, s);
    assert t[i] == l[i] == s[|s| - |l| + i];
  }

  /** `v` truncated toward zero is `n` (what `int(v)` does to a float). */
  predicate TruncatesTo(v: real, n: int)
  {
    (v >= 0.0 ==> n as real <= v < n as real + 1.0)
    && (v < 0.0 ==> n as real - 1.0 < v <= n as real)
  }

  /** `int(v)` for a float `v`: truncation toward zero. */
  function Trunc(v: real): (n: int)
    ensures TruncatesTo(v, n)
  {
    if v >= 0.0 then v.Floor else -((-v).Floor)
  }

  /**
   * `_to_int(x)` is `int(float(x))`: present exactly when `_to_float(x)` is,
   * and then that value truncated toward zero.
   */
  function ToInt(x: Option<string>): (r: Option<int>)
    ensures r.Some? <==> ToFloat(x).Some?
    ensures r.Some? ==> TruncatesTo(ToFloat(x).value, r.value)
  {
    match ToFloat(x)
    case None => None
    case Some(v) => Some(Trunc(v))
  }

  /** `str(n)` for a natural number. */
  function NatStr(n: nat): (s: string)
    ensures s != [] && AllDigits(s)
  {
    if n < 10 then [DigitChar(n)] else NatStr(n / 10) + [DigitChar(n % 10)]
  }

  /** `str(n)` for an integer: a `-` before the digits of a negative number. */
  function IntStr(n: int): (s: string)
    ensures s != [] && (s[0] == '-' || IsDigit(s[0])) && IsDigit(s[|s| - 1])
    ensures forall i :: 0 < i < |s| ==> IsDigit(s[i])
  {
    if n < 0 then "-" + NatStr(-n) else NatStr(n)
  }

  lemma {:induction false} NatStrValue(n: nat)
    ensures DigitsValue(NatStr(n)) == n
  {
    if n >= 10 {
      var s := NatStr(n);
      assert s[..|s| - 1] == NatStr(n / 10);
      NatStrValue(n / 10);
    }
  }

  lemma {:induction false} DigitRunAll(s: string)
    requires AllDigits(s)
    ensures DigitRun(s) == |s|
  {
    if s != [] {
      DigitRunAll(s[1..]);
    }
  }

  lemma NatStrParses(m: nat)
    ensures ParseDecimal(NatStr(m)) == Some(m as real)
  {
    var t := NatStr(m);
    SplitParts("", t, "", "", "");
    assert "" + t + "" + "" + "" == t;
    NatStrValue(m);
    assert t + "" == t;
  }

  lemma NegNatStrParses(m: nat)
    ensures ParseDecimal("-" + NatStr(m)) == Some(-(m as real))
  {
    var t := NatStr(m);
    SplitParts("-", t, "", "", "");
    assert "-" + t + "" + "" + "" == "-" + t;
    NatStrValue(m);
    assert t + "" == t;
  }

  lemma IntStrStripped(n: int)
    ensures Strip(FloatBlanks, IntStr(n)) == IntStr(n)
  {
    var s := IntStr(n);
    assert !IsBlank(FloatBlanks, s[0]) && !IsBlank(FloatBlanks, s[|s| - 1]);
    assert StripLeft(FloatBlanks, s) == s;
  }

  /** Rendering an integer with `str()` and reading it back with `float()` gives the integer. */
  lemma IntStrRoundTrip(n: int)
    ensures ToFloat(Some(IntStr(n))) == Some(n as real)
    ensures ToInt(Some(IntStr(n))) == Some(n)
  {
    IntStrStripped(n);
    if n < 0 {
      NegNatStrParses(-n);
    } else {
      NatStrParses(n);
    }
    assert ParseFloat(IntStr(n)) == Some(n as real);
    assert Trunc(n as real) == n;
  }

  /** The run of digits at the start of `a + b` is all of `a` when `b` does not start with a digit. */
  lemma {:induction false} DigitRunPrefix(a: string, b: string)
    requires AllDigits(a) && (b == [] || !IsDigit(b[0]))
    ensures DigitRun(a + b) == |a|
    decreases |a|
  {
    if a == [] {
      assert a + b == b;
    } else {
      assert (a + b)[1..] == a[1..] + b;
      DigitRunPrefix(a[1..], b);
    }
  }

  /** Reading digits `a` then digits `b` shifts `a` left by `|b|` places. */
  lemma {:induction false} DigitsValueAppend(a: string, b: string)
    requires AllDigits(a) && AllDigits(b)
    ensures AllDigits(a + b)
    ensures DigitsValue(a + b) == DigitsValue(a) * Pow10(|b|) + DigitsValue(b)
    decreases |b|
  {
    if b == [] {
      assert a + b == a;
    } else {
      var ab := a + b;
      var init := b[..|b| - 1];
      assert ab[..|ab| - 1] == a + init;
      assert ab[|ab| - 1] == b[|b| - 1];
      DigitsValueAppend(a, init);
      var va, vi, d := DigitsValue(a), DigitsValue(init), DigitValue(b[|b| - 1]);
      var w := Pow10(|b| - 1);
      ShiftDigit(va, w, vi, d);
      calc {
        DigitsValue(ab);
        10 * DigitsValue(a + init) + d;
        10 * (va * w + vi) + d;
        va * (10 * w) + (10 * vi + d);
        { assert Pow10(|b|) == 10 * w; assert DigitsValue(b) == 10 * vi + d; }
        va * Pow10(|b|) + DigitsValue(b);
      }
    }
  }

  lemma ShiftDigit(va: int, w: int, vi: int, d: int)
    ensures 10 * (va * w + vi) + d == va * (10 * w) + (10 * vi + d)
  {
  }

  /** `e` followed by `str(n)` is read as the exponent `n`. */
  lemma ExponentParses(n: int)
    ensures ParseExponent("e" + IntStr(n)) == Some(n)
  {
    var s := "e" + IntStr(n);
    var t := IntStr(n);
    assert s[1..] == t;
    if n < 0 {
      var digits := NatStr(-n);
      assert t[1..] == digits;
      DigitRunAll(digits);
      NatStrValue(-n);
      assert digits[..|digits|] == digits;
    } else {
      DigitRunAll(t);
      NatStrValue(n);
      assert t[..|t|] == t;
    }
  }

  /**
   * `_to_float` of `[+-] digits [. digits] exp`, with any whitespace around
   * it, where `exp` is empty (exponent 0) or an exponent `[eE][+-]?digits`
   * denoting `n`, is the number the digits denote scaled by
   * `10^(n - number of fractional digits)`: `" 81.48\n"` is `8148 × 10^-2`,
   * `"-1.5e2"` is `-(15 × 10^1)` and `"+5"` is `5 × 10^0`.
   */
  lemma DecimalRoundTrip(w1: string, sign: string, ip: string, pt: string, fp: string, x: string, w2: string, n: int)
    requires AllBlank(FloatBlanks, w1) && AllBlank(FloatBlanks, w2)
    requires sign == "" || sign == "+" || sign == "-"
    requires ip != [] && AllDigits(ip) && AllDigits(fp)
    requires pt == "" || pt == "."
    requires pt == "" ==> fp == ""
    requires ParseExponent(x) == Some(n)
    ensures AllDigits(ip + fp)
    ensures var v := Magnitude(DigitsValue(ip + fp), n - |fp|);
      ToFloat(Some(w1 + (sign + ip + pt + fp + x) + w2)) == Some(if sign == "-" then -v else v)
  {
    ExponentShape(x);
    SurroundedNumeral(w1, sign, ip, pt, fp, x, w2);
    DecimalValue(sign, ip, pt, fp, x, n);
  }

  /** `lstrip()` removes exactly the whitespace in front of text that starts with a non-space. */
  lemma {:induction false} StripLeftSpaces(k: Blanks, w: string, t: string)
    requires AllBlank(k, w) && t != [] && !IsBlank(k, t[0])
    ensures StripLeft(k, w + t) == t
    decreases |w|
  {
    if w == [] {
      assert w + t == t;
    } else {
      var s := w + t;
      assert s[0] == w[0] && IsBlank(k, w[0]);
      assert s[1..] == w[1..] + t;
      StripLeftSpaces(k, w[1..], t);
      assert StripLeft(k, s) == StripLeft(k, s[1..]);
    }
  }

  /** `rstrip()` removes exactly the whitespace after text that ends with a non-space. */
  lemma {:induction false} StripRightSpaces(k: Blanks, t: string, w: string)
    requires AllBlank(k, w) && t != [] && !IsBlank(k, t[|t| - 1])
    ensures StripRight(k, t + w) == t
    decreases |w|
  {
    if w == [] {
      assert t + w == t;
    } else {
      assert (t + w)[..|t + w| - 1] == t + w[..|w| - 1];
      StripRightSpaces(k, t, w[..|w| - 1]);
    }
  }

  /** Text with no whitespace at either end is its own `strip()`. */
  lemma StripUnpadded(k: Blanks, t: string)
    requires t != [] && !IsBlank(k, t[0]) && !IsBlank(k, t[|t| - 1])
    ensures Strip(k, t) == t
  {
    assert StripLeft(k, t) == t;
  }

  /** `strip()` of text between two runs of whitespace, when the text has non-space ends. */
  lemma StripSurrounded(k: Blanks, w1: string, t: string, w2: string)
    requires AllBlank(k, w1) && AllBlank(k, w2)
    requires t != [] && !IsBlank(k, t[0]) && !IsBlank(k, t[|t| - 1])
    ensures Strip(k, w1 + t + w2) == t
  {
    assert w1 + t + w2 == w1 + (t + w2);
    StripLeftSpaces(k, w1, t + w2);
    StripRightSpaces(k, t, w2);
  }

  /** A numeral that starts with a sign or digit and ends with a digit or point is what `strip()` leaves of it. */
  lemma SurroundedNumeral(w1: string, sign: string, ip: string, pt: string, fp: string, x: string, w2: string)
    requires AllBlank(FloatBlanks, w1) && AllBlank(FloatBlanks, w2)
    requires sign == "" || sign == "+" || sign == "-"
    requires ip != [] && AllDigits(ip) && AllDigits(fp)
    requires pt == "" || pt == "."
    requires x == [] || IsDigit(x[|x| - 1])
    ensures ToFloat(Some(w1 + (sign + ip + pt + fp + x) + w2)) == ParseDecimal(sign + ip + pt + fp + x)
  {
    var t := sign + ip + pt + fp + x;
    assert t[0] == (if sign != "" then sign[0] else ip[0]);
    assert t[|t| - 1] ==
      (if x != [] then x[|x| - 1] else if fp != [] then fp[|fp| - 1] else if pt != [] then '.' else ip[|ip| - 1]);
    StripSurrounded(FloatBlanks, w1, t, w2);
  }

  /** How `ParseDecimal` values `sign int [. frac] exp`. */
  lemma DecimalValue(sign: string, ip: string, pt: string, fp: string, x: string, n: int)
    requires sign == "" || sign == "+" || sign == "-"
    requires ip != [] && AllDigits(ip) && AllDigits(fp)
    requires pt == "" || pt == "."
    requires pt == "" ==> fp == ""
    requires x == [] || (!IsDigit(x[0]) && x[0] != '.')
    requires ParseExponent(x) == Some(n)
    ensures AllDigits(ip + fp)
    ensures var v := Magnitude(DigitsValue(ip + fp), n - |fp|);
      ParseDecimal(sign + ip + pt + fp + x) == Some(if sign == "-" then -v else v)
  {
    SplitParts(sign, ip, pt, fp, x);
    NumeralValueOf(sign, ip, pt, fp, x, n);
  }

  /** The digits of `str(m)` followed by `f` padded to `k` places denote `m·10^k + f`. */
  lemma DecimalDigits(m: nat, f: nat, k: nat)
    requires f < Pow10(k)
    ensures AllDigits(NatStr(m) + Pad(f, k))
    ensures DigitsValue(NatStr(m) + Pad(f, k)) == m * Pow10(k) + f
  {
    NatStrValue(m);
    PadValue(f, k);
    DigitsValueAppend(NatStr(m), Pad(f, k));
  }

  /** How `NumeralValue` values the parts `sign int pt frac exp`. */
  lemma NumeralValueOf(sign: string, ip: string, pt: string, fp: string, x: string, n: int)
    requires ip != [] && AllDigits(ip) && AllDigits(fp)
    requires ParseExponent(x) == Some(n)
    ensures AllDigits(ip + fp)
    ensures var v := Magnitude(DigitsValue(ip + fp), n - |fp|);
      NumeralValue(Numeral(sign, ip, pt, fp, x)) == Some(if sign == "-" then -v else v)
  {
    assert AllDigits(ip + fp);
  }

  /**
   * The information separators `\x1c`-`\x1f` count as whitespace for
   * `str.strip()` but not for `float()`: `"\x1c5".strip()` is `"5"`, while
   * `float("\x1c5")` raises and `_to_float` gives `None`.
   */
  lemma SeparatorStripped(c: char, t: string)
    requires '\U{1c}' <= c <= '\U{1f}'
    requires t != [] && !IsSpace(t[0]) && !IsSpace(t[|t| - 1])
    ensures Strip(StrBlanks, [c] + t) == t
  {
    assert [c] + t + [] == [c] + t;
    StripSurrounded(StrBlanks, [c], t, []);
  }

  lemma SeparatorRejectedByFloat(c: char, t: string)
    requires '\U{1c}' <= c <= '\U{1f}'
    requires t != [] && !IsSpace(t[|t| - 1])
    ensures ToFloat(Some([c] + t)) == None
  {
    var s := [c] + t;
    StripUnpadded(FloatBlanks, s);
    ForeignFirstRejected(s);
  }

  /** Stripped text that starts with a character no numeral has is not a number. */
  lemma ForeignFirstRejected(s: string)
    requires Strip(FloatBlanks, s) == s && s != [] && !NumeralChar(s[0])
    ensures ToFloat(Some(s)) == None
  {
    ToFloatRejects(s);
  }

  /** The characters a numeral accepted by `float()` here is made of. */
  predicate NumeralChar(c: char)
  {
    IsDigit(c) || c == '+' || c == '-' || c == '.' || c == 'e' || c == 'E'
  }

  lemma ExponentShape(s: string)
    requires ParseExponent(s).Some?
    ensures forall i :: 0 <= i < |s| ==> NumeralChar(s[i]) && s[i] != '.'
    ensures s != [] ==> IsDigit(s[|s| - 1])
  {
    if s != [] {
      var t := s[1..];
      var signed := t != [] && (t[0] == '+' || t[0] == '-');
      var digits := if signed then t[1..] else t;
      assert digits != [] && DigitRun(digits) == |digits|;
      assert digits[..|digits|] == digits;
      var off := if signed then 2 else 1;
      assert s[off..] == digits;
      forall i | 0 <= i < |s| ensures NumeralChar(s[i]) && s[i] != '.' {
        if i >= off {
          assert s[i] == digits[i - off];
        }
      }
    }
  }

  /**
   * What `float()` accepts here: numeral characters only, at most one point,
   * and a digit or the point last.
   */
  lemma NumeralShape(t: string)
    requires ParseDecimal(t).Some?
    ensures NumeralShaped(t)
  {
    var n := SplitNumeral(t);
    AcceptedParts(t);
    ExponentShape(n.exp);
    PartsShape(n.sign, n.intPart, n.point, n.fracPart, n.exp);
  }

  /** The text's characters are numeral characters, with at most one point and a digit or the point last. */
  predicate NumeralShaped(t: string)
  {
    (forall i :: 0 <= i < |t| ==> NumeralChar(t[i]))
    && (forall i, j :: 0 <= i < j < |t| && t[i] == '.' ==> t[j] != '.')
    && t != [] && (IsDigit(t[|t| - 1]) || t[|t| - 1] == '.')
  }

  /** The parts of an accepted numeral: a digit somewhere and a well-formed exponent. */
  lemma AcceptedParts(t: string)
    requires ParseDecimal(t).Some?
    ensures var n := SplitNumeral(t);
      t == n.sign + n.intPart + n.point + n.fracPart + n.exp
      && (n.sign == "" || n.sign == "+" || n.sign == "-")
      && (n.point == "" || n.point == ".")
      && |n.intPart| + |n.fracPart| > 0 && ParseExponent(n.exp).Some?
  {
    SplitNumeralFacts(t);
    assert NumeralValue(SplitNumeral(t)).Some?;
  }

  /** Parts cut as `SplitNumeral` cuts them make a shaped numeral. */
  lemma PartsShape(sign: string, ip: string, pt: string, fp: string, x: string)
    requires sign == "" || sign == "+" || sign == "-"
    requires AllDigits(ip) && AllDigits(fp) && |ip| + |fp| > 0 && (pt == "" || pt == ".")
    requires forall i :: 0 <= i < |x| ==> NumeralChar(x[i]) && x[i] != '.'
    requires x != [] ==> IsDigit(x[|x| - 1])
    ensures NumeralShaped(sign + ip + pt + fp + x)
  {
    PartsChars(sign, ip, pt, fp, x);
    PartsLast(sign, ip, pt, fp, x);
  }

  /** Numeral characters only, and a point at most at the one place after the integer digits. */
  lemma PartsChars(sign: string, ip: string, pt: string, fp: string, x: string)
    requires sign == "" || sign == "+" || sign == "-"
    requires AllDigits(ip) && AllDigits(fp) && (pt == "" || pt == ".")
    requires forall i :: 0 <= i < |x| ==> NumeralChar(x[i]) && x[i] != '.'
    ensures var t := sign + ip + pt + fp + x;
      forall i :: 0 <= i < |t| ==> NumeralChar(t[i]) && (t[i] == '.' ==> i == |sign| + |ip|)
  {
    var t := sign + ip + pt + fp + x;
    var b := |sign| + |ip|;
    var c := b + |pt|;
    var e := c + |fp|;
    forall k | 0 <= k < |t|
      ensures NumeralChar(t[k]) && (t[k] == '.' ==> k == b)
    {
      if k >= e {
        assert t[k] == x[k - e];
      } else if k >= c {
        assert t[k] == fp[k - c];
      } else if k >= b {
        assert t[k] == pt[k - b];
      } else if k >= |sign| {
        assert t[k] == ip[k - |sign|];
      } else {
        assert t[k] == sign[k];
      }
    }
  }

  /** The numeral ends with a digit, or with its point. */
  lemma PartsLast(sign: string, ip: string, pt: string, fp: string, x: string)
    requires AllDigits(ip) && AllDigits(fp) && |ip| + |fp| > 0 && (pt == "" || pt == ".")
    requires x != [] ==> IsDigit(x[|x| - 1])
    ensures var t := sign + ip + pt + fp + x;
      t != [] && (IsDigit(t[|t| - 1]) || t[|t| - 1] == '.')
  {
    var t := sign + ip + pt + fp + x;
    if x != [] {
      assert t[|t| - 1] == x[|x| - 1];
    } else if fp != [] {
      assert t[|t| - 1] == fp[|fp| - 1];
    } else if pt != [] {
      assert t[|t| - 1] == '.';
    } else {
      assert t[|t| - 1] == ip[|ip| - 1];
    }
  }

  /**
   * `_to_float` gives none for text whose stripped form has a character no
   * numeral uses (`"1a"`), two points (`"1.2.3"`), or ends in anything but a
   * digit or a point (`"1e"`, `"1e+"`).
   */
  lemma ToFloatRejects(s: string)
    ensures (exists i :: 0 <= i < |Strip(FloatBlanks, s)| && !NumeralChar(Strip(FloatBlanks, s)[i])) ==> ToFloat(Some(s)) == None
    ensures (exists i, j :: 0 <= i < j < |Strip(FloatBlanks, s)| && Strip(FloatBlanks, s)[i] == '.' && Strip(FloatBlanks, s)[j] == '.') ==> ToFloat(Some(s)) == None
    ensures Strip(FloatBlanks, s) != [] && !IsDigit(Strip(FloatBlanks, s)[|Strip(FloatBlanks, s)| - 1]) && Strip(FloatBlanks, s)[|Strip(FloatBlanks, s)| - 1] != '.' ==>
      ToFloat(Some(s)) == None
  {
    if ToFloat(Some(s)).Some? {
      NumeralShape(Strip(FloatBlanks, s));
    }
  }

  // ---------------------------------------------------------------------------
  // Dates (datetime.strptime with "%Y-%m-%d" and "%Y%m%d")
  // ---------------------------------------------------------------------------

  /** Why `strptime` raised `ValueError`. */
  datatype DateError =
    | DoesNotMatch(text: string)      // "time data ... does not match format"
    | UnconvertedData(text: string)   // "unconverted data remains"
    | OutOfRange(text: string)        // year 0, or a day past the end of the month

  /** A matched group of the format: how many characters it took and the number it denotes. */
  datatype Group = Group(len: nat, value: int)

  /**
   * The alternatives of `%m`'s pattern `1[0-2]|0[1-9]|[1-9]` that match at the
   * start of `s`, in the order the regular expression tries them.
   */
  function MonthAlternatives(s: string): (r: seq<Group>)
    ensures forall k :: 0 <= k < |r| ==> 1 <= r[k].len <= |s| && 1 <= r[k].value <= 12
  {
    (if |s| >= 2 && s[0] == '1' && '0' <= s[1] <= '2' then [Group(2, 10 + DigitValue(s[1]))] else [])
    + (if |s| >= 2 && s[0] == '0' && '1' <= s[1] <= '9' then [Group(2, DigitValue(s[1]))] else [])
    + (if |s| >= 1 && '1' <= s[0] <= '9' then [Group(1, DigitValue(s[0]))] else [])
  }

  /**
   * The first alternative of `%d`'s pattern `3[01]|[12]\d|0[1-9]|[1-9]| [1-9]`
   * that matches at the start of `s`; nothing follows the day in either format,
   * so the first alternative that matches is the one kept.
   */
  function DayMatch(s: string): (r: Option<Group>)
    ensures r.Some? ==> 1 <= r.value.len <= |s| && 1 <= r.value.value <= 31
  {
    if |s| >= 2 && s[0] == '3' && (s[1] == '0' || s[1] == '1') then Some(Group(2, 30 + DigitValue(s[1])))
    else if |s| >= 2 && (s[0] == '1' || s[0] == '2') && IsDigit(s[1]) then Some(Group(2, 10 * DigitValue(s[0]) + DigitValue(s[1])))
    else if |s| >= 2 && s[0] == '0' && '1' <= s[1] <= '9' then Some(Group(2, DigitValue(s[1])))
    else if |s| >= 1 && '1' <= s[0] <= '9' then Some(Group(1, DigitValue(s[0])))
    else if |s| >= 2 && s[0] == ' ' && '1' <= s[1] <= '9' then Some(Group(2, DigitValue(s[1])))
    else None
  }

  /** Where a match of month, separator and day ends, and the month and day it read. */
  datatype MonthDay = MonthDay(end: nat, month: int, day: int)

  /**
   * Backtracking over the month alternatives: the first one after which the
   * separator `sep` and a day match.
   */
  function MatchMonthDay(s: string, alts: seq<Group>, sep: string): (r: Option<MonthDay>)
    requires forall k :: 0 <= k < |alts| ==> alts[k].len <= |s| && 1 <= alts[k].value <= 12
    ensures r.Some? ==> r.value.end <= |s| && 1 <= r.value.month <= 12 && 1 <= r.value.day <= 31
    decreases |alts|
  {
    if alts == [] then None
    else
      var m := alts[0];
      var dayStart := m.len + |sep|;
      if dayStart <= |s| && s[m.len..dayStart] == sep && DayMatch(s[dayStart..]).Some? then
        var d := DayMatch(s[dayStart..]).value;
        Some(MonthDay(dayStart + d.len, m.value, d.value))
      else MatchMonthDay(s, alts[1..], sep)
  }

  /**
   * `datetime.strptime(s, "%Y" + sep + "%m" + sep + "%d").date()`: four year
   * digits, the separator, then the month and day groups as the regular
   * expression matches them; the match must cover all of `s` and name a real
   * calendar day.
   */
  function Strptime(s: string, sep: string): (r: Result<Date, DateError>)
  {
    if |s| < 4 + |sep| || !AllDigits(s[..4]) || s[4..4 + |sep|] != sep then Err(DoesNotMatch(s))
    else
      var rest := s[4 + |sep|..];
      match MatchMonthDay(rest, MonthAlternatives(rest), sep)
      case None => Err(DoesNotMatch(s))
      case Some(md) =>
        if 4 + |sep| + md.end != |s| then Err(UnconvertedData(s))
        else
          var d := YMD(DigitsValue(s[..4]), md.month, md.day);
          if ValidYMD(d) then Ok(d) else Err(OutOfRange(s))
  }

  /** `_to_date_owid`: the metrics feed's `%Y-%m-%d`. */
  function ParseOwidDate(s: string): Result<Date, DateError>
  {
    Strptime(s, "-")
  }

  /** `_to_date_oxcgrt`: the policy feed's `%Y%m%d`. */
  function ParseOxcgrtDate(s: string): Result<Date, DateError>
  {
    Strptime(s, "")
  }

  /** `d.strftime("%Y%m%d")`, the compact form the policy feed writes dates in. */
  function Compact(d: Date): (s: string)
    ensures |s| == 8 && AllDigits(s)
  {
    Pad(d.year, 4) + Pad(d.month, 2) + Pad(d.day, 2)
  }

  lemma Pad2(x: nat)
    requires x < 100
    ensures Pad(x, 2) == [DigitChar(x / 10), DigitChar(x % 10)]
  {
    assert Pad(x / 10 / 10, 0) == "";
  }

  lemma {:induction false} PadValue(x: nat, w: nat)
    requires x < Pow10(w)
    ensures AllDigits(Pad(x, w)) && DigitsValue(Pad(x, w)) == x
  {
    if w > 0 {
      var p := Pad(x, w);
      assert p[..w - 1] == Pad(x / 10, w - 1);
      PadValue(x / 10, w - 1);
    }
  }

  /** The two-character day field that `Pad(day, 2)` writes is read back as `day`. */
  lemma DayFieldRoundTrip(day: int, tail: string)
    requires 1 <= day <= 31
    ensures DayMatch(Pad(day, 2) + tail) == Some(Group(2, day))
  {
    Pad2(day);
    var s := Pad(day, 2) + tail;
    var hi, lo := day / 10, day % 10;
    assert day == 10 * hi + lo && 0 <= hi <= 3;
    assert DigitValue(s[0]) == hi && DigitValue(s[1]) == lo;
    if hi == 3 {
      assert s[0] == '3' && (s[1] == '0' || s[1] == '1');
    } else if hi >= 1 {
      assert (s[0] == '1' || s[0] == '2') && IsDigit(s[1]);
    } else {
      assert s[0] == '0' && '1' <= s[1] <= '9';
    }
  }

  lemma FirstMonthAlternative(s: string, month: int)
    requires 1 <= month <= 12
    requires |s| >= 2 && s[0] == DigitChar(month / 10) && s[1] == DigitChar(month % 10)
    ensures |MonthAlternatives(s)| >= 1 && MonthAlternatives(s)[0] == Group(2, month)
  {
    var hi, lo := month / 10, month % 10;
    assert month == 10 * hi + lo && 0 <= hi <= 1;
    assert DigitValue(s[0]) == hi && DigitValue(s[1]) == lo;
    if hi == 1 {
      assert s[0] == '1' && '0' <= s[1] <= '2';
    } else {
      assert s[0] == '0' && '1' <= s[1] <= '9';
    }
  }

  /** The month alternative tried first is kept when the separator and a day follow it. */
  lemma FirstAlternativeKept(s: string, sep: string, month: int, day: int)
    requires |MonthAlternatives(s)| >= 1 && MonthAlternatives(s)[0] == Group(2, month)
    requires 2 + |sep| <= |s| && s[2..2 + |sep|] == sep
    requires DayMatch(s[2 + |sep|..]) == Some(Group(2, day))
    ensures MatchMonthDay(s, MonthAlternatives(s), sep) == Some(MonthDay(2 + |sep| + 2, month, day))
  {
  }

  /** The two-character month field, followed by `sep` and a day field, is matched by its own alternative. */
  lemma MonthFieldRoundTrip(month: int, day: int, sep: string)
    requires 1 <= month <= 12 && 1 <= day <= 31
    ensures MatchMonthDay(Pad(month, 2) + sep + Pad(day, 2),
                          MonthAlternatives(Pad(month, 2) + sep + Pad(day, 2)), sep)
            == Some(MonthDay(2 + |sep| + 2, month, day))
  {
    var m, d := Pad(month, 2), Pad(day, 2);
    var s := m + sep + d;
    Pad2(month);
    FieldsOf(m, sep, d);
    FirstMonthAlternative(s, month);
    DayFieldRoundTrip(day, "");
    assert d + "" == d;
    FirstAlternativeKept(s, sep, month, day);
  }

  /** Where the fields of a two-character month, a separator and a day sit in their concatenation. */
  lemma FieldsOf(m: string, sep: string, d: string)
    requires |m| == 2
    ensures (m + sep + d)[0] == m[0] && (m + sep + d)[1] == m[1]
    ensures (m + sep + d)[2..2 + |sep|] == sep && (m + sep + d)[2 + |sep|..] == d
  {
  }

  /** `_to_date_owid` reads back every date that `isoformat()` writes. */
  lemma OwidDateRoundTrip(d: Date)
    ensures ParseOwidDate(Iso(d)) == Ok(d)
  {
    var s := Iso(d);
    var rest := Pad(d.month, 2) + "-" + Pad(d.day, 2);
    assert s[..4] == Pad(d.year, 4);
    assert s[4..5] == "-";
    assert s[5..] == rest;
    assert Pow10(4) == 10000;
    PadValue(d.year, 4);
    MonthFieldRoundTrip(d.month, d.day, "-");
  }

  /** `_to_date_oxcgrt` reads back every date written in the compact form. */
  lemma OxcgrtDateRoundTrip(d: Date)
    ensures ParseOxcgrtDate(Compact(d)) == Ok(d)
  {
    var s := Compact(d);
    var rest := Pad(d.month, 2) + "" + Pad(d.day, 2);
    assert s[..4] == Pad(d.year, 4);
    assert s[4..4] == "";
    assert s[4..] == rest;
    assert Pow10(4) == 10000;
    PadValue(d.year, 4);
    MonthFieldRoundTrip(d.month, d.day, "");
  }

  /** Each parser rejects the other feed's format. */
  lemma FormatsAreDistinct(d: Date)
    ensures ParseOwidDate(Compact(d)).Err?
    ensures ParseOxcgrtDate(Iso(d)).Err?
  {
    var c := Compact(d);
    assert c[4] != '-';
    var s := Iso(d);
    assert !AllDigits(s[..]);
    Pad2(d.month);
    var rest := s[4..];
    assert rest[0] == '-';
  }

  /**
   * Four year digits, two month digits and two day digits, joined by `sep`,
   * parse to that calendar day when it exists and raise a range error when
   * it does not.
   */
  lemma PaddedDateParse(y: nat, m: int, d: int, sep: string)
    requires y < 10000 && 1 <= m <= 12 && 1 <= d <= 31
    ensures var s := Pad(y, 4) + sep + Pad(m, 2) + sep + Pad(d, 2);
      ValidYMD(YMD(y, m, d)) ==> Strptime(s, sep) == Ok(YMD(y, m, d))
    ensures var s := Pad(y, 4) + sep + Pad(m, 2) + sep + Pad(d, 2);
      !ValidYMD(YMD(y, m, d)) ==> Strptime(s, sep) == Err(OutOfRange(s))
  {
    var s := Pad(y, 4) + sep + Pad(m, 2) + sep + Pad(d, 2);
    var rest := Pad(m, 2) + sep + Pad(d, 2);
    assert s == Pad(y, 4) + (sep + rest);
    assert s[..4] == Pad(y, 4);
    assert s[4..4 + |sep|] == sep;
    assert s[4 + |sep|..] == rest;
    assert Pow10(4) == 10000;
    PadValue(y, 4);
    MonthFieldRoundTrip(m, d, sep);
  }

  /**
   * A well-formed year, month and day that name no calendar day (year 0, or
   * a day past the end of its month) raise a range error in both formats.
   */
  lemma RejectsImpossibleDay(y: nat, m: int, d: int)
    requires y < 10000 && 1 <= m <= 12 && 1 <= d <= 31
    requires y == 0 || d > DaysInMonth(y, m)
    ensures var s := Pad(y, 4) + "-" + Pad(m, 2) + "-" + Pad(d, 2);
      ParseOwidDate(s) == Err(OutOfRange(s))
    ensures var s := Pad(y, 4) + Pad(m, 2) + Pad(d, 2);
      ParseOxcgrtDate(s) == Err(OutOfRange(s))
  {
    PaddedDateParse(y, m, d, "-");
    CompactDateParse(y, m, d);
  }

  /** `PaddedDateParse` for the policy feed, whose separator is empty. */
  lemma CompactDateParse(y: nat, m: int, d: int)
    requires y < 10000 && 1 <= m <= 12 && 1 <= d <= 31
    ensures var s := Pad(y, 4) + Pad(m, 2) + Pad(d, 2);
      !ValidYMD(YMD(y, m, d)) ==> ParseOxcgrtDate(s) == Err(OutOfRange(s))
  {
    var sep := "";
    PaddedDateParse(y, m, d, sep);
    assert Pad(y, 4) + sep + Pad(m, 2) + sep + Pad(d, 2) == Pad(y, 4) + Pad(m, 2) + Pad(d, 2);
  }

  /**
   * The regular expression behind `%m` and `%d` also takes one-digit fields,
   * so the metrics parser is not limited to `YYYY-MM-DD` and a seven-digit
   * policy date is read by the first month alternative that lets a day follow.
   */
  lemma AcceptsShortFields()
    ensures ParseOwidDate("2020-1-5") == Ok(YMD(2020, 1, 5))
    ensures ParseOxcgrtDate("2020111") == Ok(YMD(2020, 11, 1))
  {
    AcceptsOneDigitFields();
    AcceptsSevenDigitDate();
  }

  lemma AcceptsOneDigitFields()
    ensures ParseOwidDate("2020-1-5") == Ok(YMD(2020, 1, 5))
  {
    var s := "2020-1-5";
    assert s[..4] == "2020" && s[4..5] == "-";
    assert DigitsValue("2020") == 2020 by {
      assert "2020"[..3] == "202" && "202"[..2] == "20" && "20"[..1] == "2" && "2"[..0] == "";
    }
    assert s[5..] == "1-5";
    OneDigitMonthDay();
    assert ValidYMD(YMD(2020, 1, 5));
  }

  lemma OneDigitMonthDay()
    ensures MatchMonthDay("1-5", MonthAlternatives("1-5"), "-") == Some(MonthDay(3, 1, 5))
  {
    var rest := "1-5";
    assert MonthAlternatives(rest) == [Group(1, 1)];
    assert rest[1..2] == "-" && rest[2..] == "5";
    assert DayMatch(rest[2..]) == Some(Group(1, 5));
  }

  lemma AcceptsSevenDigitDate()
    ensures ParseOxcgrtDate("2020111") == Ok(YMD(2020, 11, 1))
  {
    var t := "2020111";
    assert t[..4] == "2020" && t[4..4] == "";
    assert DigitsValue("2020") == 2020 by {
      assert "2020"[..3] == "202" && "202"[..2] == "20" && "20"[..1] == "2" && "2"[..0] == "";
    }
    var rest := t[4..];
    assert rest == "111";
    assert MonthAlternatives(rest) == [Group(2, 11), Group(1, 1)];
    assert rest[2..2] == "" && rest[2..] == "1";
    assert DayMatch(rest[2..]) == Some(Group(1, 1));
    assert MatchMonthDay(rest, [Group(2, 11), Group(1, 1)], "") == Some(MonthDay(3, 11, 1));
    assert ValidYMD(YMD(2020, 11, 1));
  }
}
