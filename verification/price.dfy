/** The rendering of a stored price on the dish read path: the text is read as a
    floating-point number and printed with exactly two decimals. The model covers
    plain decimal literals (an optional sign, at most 13 integer digits, an
    optional point and at most 2 fraction digits), where that conversion is exact. */
module Price {
  import opened Wrappers

  predicate IsDigit(ch: char) { '0' <= ch <= '9' }

  predicate AllDigits(s: string) { forall i :: 0 <= i < |s| ==> IsDigit(s[i]) }

  function DigitValue(ch: char): (v: nat)
    requires IsDigit(ch)
    ensures v < 10
  {
    (ch - '0') as nat
  }

  function DigitChar(v: nat): (ch: char)
    requires v < 10
    ensures IsDigit(ch) && DigitValue(ch) == v
  {
    '0' + v as char
  }

  /** The number a run of decimal digits denotes (0 for the empty run). */
  function DigitsValue(s: string): nat
    requires AllDigits(s)
  {
    if s == [] then 0 else DigitsValue(s[..|s| - 1]) * 10 + DigitValue(s[|s| - 1])
  }

  function Pow10(k: nat): (p: nat)
    ensures p >= 1
  {
    if k == 0 then 1 else 10 * Pow10(k - 1)
  }

  /** The shortest decimal numeral of `n`. */
  function NatToString(n: nat): (s: string)
    ensures |s| >= 1 && AllDigits(s)
  {
    if n < 10 then [DigitChar(n)] else NatToString(n / 10) + [DigitChar(n % 10)]
  }

  /** A price as a sign and a whole number of hundredths. */
  datatype Decimal = Decimal(negative: bool, hundredths: nat)

  /** The text before the first point, and the text after it if there is one. */
  function SplitAtPoint(s: string): (r: (string, Option<string>))
    ensures r.1.None? ==> r.0 == s && '.' !in s
    ensures r.1.Some? ==> s == r.0 + "." + r.1.value && '.' !in r.0
  {
    if s == [] then ("", None)
    else if s[0] == '.' then ("", Some(s[1..]))
    else
      var (head, tail) := SplitAtPoint(s[1..]);
      (if tail.Some? then assert s == [s[0]] + s[1..]; ([s[0]] + head, tail) else (s, None))
  }

  /** The hundredths an unsigned literal denotes: at most 13 digits, then
      optionally a point and at most 2 digits, with at least one digit in all. */
  function ParseUnsigned(body: string): Option<nat> {
    var (whole, fraction) := SplitAtPoint(body);
    var frac := if fraction.Some? then fraction.value else "";
    if AllDigits(whole) && AllDigits(frac) && |whole| <= 13 && |frac| <= 2 && |whole| + |frac| >= 1 then
      Some(DigitsValue(whole) * 100 + (if |frac| == 1 then DigitsValue(frac) * 10 else DigitsValue(frac)))
    else
      None
  }

  /** Reads a plain decimal literal; None for any other text. */
  function ParsePrice(p: string): (r: Option<Decimal>)
    ensures r.Some? ==> (r.value.negative <==> |p| > 0 && p[0] == '-')
  {
    var signed := |p| > 0 && (p[0] == '-' || p[0] == '+');
    match ParseUnsigned(if signed then p[1..] else p)
    case Some(h) => Some(Decimal(|p| > 0 && p[0] == '-', h))
    case None => None
  }

  /** Two-decimal fixed-point text of `d`, with a minus sign kept even for zero. */
  function RenderPrice(d: Decimal): (s: string)
    ensures |s| >= 4 && s[|s| - 3] == '.' && IsDigit(s[|s| - 2]) && IsDigit(s[|s| - 1])
    ensures s[0] == '-' <==> d.negative
  {
    (if d.negative then "-" else "")
      + NatToString(d.hundredths / 100) + "." + [DigitChar(d.hundredths % 100 / 10), DigitChar(d.hundredths % 10)]
  }

  /** What the dish read path shows for a stored price; None when the text is
      not a plain decimal literal. */
  function FormatPrice(p: string): (r: Option<string>)
    ensures r.Some? ==> |r.value| >= 4 && r.value[|r.value| - 3] == '.'
  {
    match ParsePrice(p)
    case Some(d) => Some(RenderPrice(d))
    case None => None
  }

  lemma {:induction false} NatToStringValue(n: nat)
    ensures DigitsValue(NatToString(n)) == n
  {
    var s := NatToString(n);
    if n >= 10 {
      NatToStringValue(n / 10);
      assert s[..|s| - 1] == NatToString(n / 10);
    }
  }

  lemma {:induction false} NatToStringLength(n: nat, k: nat)
    requires n < Pow10(k) && k >= 1
    ensures |NatToString(n)| <= k
  {
    if n >= 10 {
      NatToStringLength(n / 10, k - 1);
    }
  }

  lemma DigitsNoPoint(s: string)
    requires AllDigits(s)
    ensures '.' !in s
  {
    assert forall i :: 0 <= i < |s| ==> s[i] != '.';
  }

  /** A whole part and a two-digit fraction, joined by a point, read back digit by digit. */
  lemma ParseTwoDecimals(whole: string, frac: string)
    requires AllDigits(whole) && |whole| <= 13 && AllDigits(frac) && |frac| == 2
    ensures ParseUnsigned(whole + "." + frac) == Some(DigitsValue(whole) * 100 + DigitsValue(frac))
  {
    DigitsNoPoint(whole);
    SplitAtPointOf(whole, frac);
    ParseSplit(whole + "." + frac, whole, frac);
  }

  lemma ParseSplit(body: string, whole: string, frac: string)
    requires SplitAtPoint(body) == (whole, Some(frac))
    requires AllDigits(whole) && |whole| <= 13 && AllDigits(frac) && |frac| == 2
    ensures ParseUnsigned(body) == Some(DigitsValue(whole) * 100 + DigitsValue(frac))
  {
  }

  /** A fixed-point numeral with two decimals reads back as its hundredths. */
  lemma ParseFixedPoint(q: nat, a: nat, b: nat)
    requires q < Pow10(13) && a < 10 && b < 10
    ensures ParseUnsigned(NatToString(q) + "." + [DigitChar(a), DigitChar(b)]) == Some(q * 100 + a * 10 + b)
  {
    var whole := NatToString(q);
    var frac := [DigitChar(a), DigitChar(b)];
    NatToStringLength(q, 13);
    NatToStringValue(q);
    assert AllDigits(frac) by {
      assert IsDigit(frac[0]) && IsDigit(frac[1]);
    }
    assert DigitsValue(frac) == a * 10 + b by {
      assert frac[..1] == [frac[0]] && frac[..1][..0] == [];
      assert DigitsValue(frac[..1]) == a;
    }
    ParseTwoDecimals(whole, frac);
  }

  /** The last two decimal digits of `h` and the rest. */
  lemma HundredthsDigits(h: nat)
    ensures h == h / 100 * 100 + h % 100 / 10 * 10 + h % 10
  {
    var q, r := h / 100, h % 100;
    var a, b := r / 10, r % 10;
    assert h == q * 100 + r;
    assert r == a * 10 + b;
    assert 0 <= b < 10;
    TenRemainder(h, q * 10 + a, b);
  }

  lemma TenRemainder(h: nat, m: nat, b: nat)
    requires h == m * 10 + b && b < 10
    ensures h % 10 == b
  {
  }

  /** The unsigned part of a rendered price reads back as its hundredths. */
  lemma ParseRenderUnsigned(h: nat)
    requires h < Pow10(15)
    ensures ParseUnsigned(NatToString(h / 100) + "." + [DigitChar(h % 100 / 10), DigitChar(h % 10)]) == Some(h)
  {
    assert Pow10(15) == 100 * Pow10(13);
    assert h / 100 < Pow10(13);
    HundredthsDigits(h);
    ParseFixedPoint(h / 100, h % 100 / 10, h % 10);
  }

  /** An optional minus sign in front of an unsigned literal only sets the sign. */
  lemma ParseSigned(negative: bool, body: string, h: nat)
    requires ParseUnsigned(body) == Some(h) && |body| > 0 && IsDigit(body[0])
    ensures ParsePrice((if negative then "-" else "") + body) == Some(Decimal(negative, h))
  {
    var s := (if negative then "-" else "") + body;
    if negative {
      assert s[0] == '-' && s[1..] == body;
      assert ParseUnsigned(s[1..]) == Some(h);
    } else {
      assert s == body && s[0] != '-' && s[0] != '+';
      assert ParseUnsigned(s) == Some(h);
    }
  }

  /** Reading back a rendered price gives the same price, for every price whose
      integer part has at most 13 digits. */
  lemma ParseRender(d: Decimal)
    requires d.hundredths < Pow10(15)
    ensures ParsePrice(RenderPrice(d)) == Some(d)
  {
    var h := d.hundredths;
    var whole := NatToString(h / 100);
    var body := whole + "." + [DigitChar(h % 100 / 10), DigitChar(h % 10)];
    assert RenderPrice(d) == (if d.negative then "-" else "") + body;
    ParseRenderUnsigned(h);
    assert body[0] == whole[0];
    ParseSigned(d.negative, body, h);
  }

  lemma {:induction false} SplitAtPointOf(whole: string, rest: string)
    requires '.' !in whole
    ensures SplitAtPoint(whole + "." + rest) == (whole, Some(rest))
  {
    var s := whole + "." + rest;
    if whole != [] {
      assert s[0] == whole[0] && s[1..] == whole[1..] + "." + rest;
      assert whole[0] != '.';
      SplitAtPointOf(whole[1..], rest);
      assert [s[0]] + whole[1..] == whole;
    } else {
      assert (whole + "." + rest)[1..] == rest;
    }
  }

  /** A parsed price never has more than 13 integer digits. */
  lemma ParsedBound(body: string)
    requires ParseUnsigned(body).Some?
    ensures ParseUnsigned(body).value < Pow10(15)
  {
    var (whole, fraction) := SplitAtPoint(body);
    var frac := if fraction.Some? then fraction.value else "";
    var f := (if |frac| == 1 then DigitsValue(frac) * 10 else DigitsValue(frac));
    DigitsBound(whole);
    Pow10Monotone(|whole|, 13);
    DigitsBound(frac);
    Pow10Monotone(|frac|, 2);
    assert f < 100 by {
      assert Pow10(1) == 10 && Pow10(2) == 100;
    }
    HundredthsBound(DigitsValue(whole), f, Pow10(13));
    assert Pow10(15) == 100 * Pow10(13);
  }

  lemma HundredthsBound(w: nat, f: nat, b: nat)
    requires w < b && f < 100
    ensures w * 100 + f < 100 * b
  {
  }

  /** Formatting is idempotent: a formatted price formats to itself. */
  lemma FormatPriceIdempotent(p: string)
    requires FormatPrice(p).Some?
    ensures FormatPrice(FormatPrice(p).value) == FormatPrice(p)
  {
    FormatPriceKeepsValue(p);
  }

  lemma {:induction false} DigitsBound(s: string)
    requires AllDigits(s)
    ensures DigitsValue(s) < Pow10(|s|)
  {
    if s != [] {
      DigitsBound(s[..|s| - 1]);
    }
  }

  lemma {:induction false} Pow10Monotone(j: nat, k: nat)
    requires j <= k
    ensures Pow10(j) <= Pow10(k)
  {
    if j < k {
      Pow10Monotone(j, k - 1);
    }
  }

  /** A whole-number price gains two zero decimals, as on the dish read path. */
  lemma FormatWholePrice()
    ensures FormatPrice("100") == Some("100.00")
  {
    assert SplitAtPoint("100") == ("100", None);
    assert DigitsValue("100") == 100 by {
      assert "100"[..2] == "10" && "10"[..1] == "1" && "1"[..0] == "";
    }
    assert ParseUnsigned("100") == Some(10000);
    assert NatToString(100) == "100" by {
      assert NatToString(1) == "1";
      assert NatToString(10) == "10";
    }
    assert DigitChar(0) == '0';
    assert RenderPrice(Decimal(false, 10000)) == "100.00";
  }

  /** A one-decimal price gains a trailing zero. */
  lemma FormatOneDecimalPrice()
    ensures FormatPrice("12.5") == Some("12.50")
  {
    SplitAtPointOf("12", "5");
    assert "12" + "." + "5" == "12.5";
    assert DigitsValue("12") == 12 by { assert "12"[..1] == "1" && "1"[..0] == ""; }
    assert DigitsValue("5") == 5 by { assert "5"[..0] == ""; }
    assert ParseUnsigned("12.5") == Some(1250);
    assert NatToString(12) == "12" by { assert NatToString(1) == "1"; }
    assert DigitChar(5) == '5' && DigitChar(0) == '0';
    assert RenderPrice(Decimal(false, 1250)) == "12.50";
  }

  /** The sign survives on zero, as Python's formatting of a negative zero does. */
  lemma FormatNegativeZero()
    ensures FormatPrice("-0") == Some("-0.00")
  {
    assert "-0"[1..] == "0";
    assert SplitAtPoint("0") == ("0", None);
    assert DigitsValue("0") == 0 by { assert "0"[..0] == ""; }
    assert ParseUnsigned("0") == Some(0);
    assert DigitChar(0) == '0';
    assert RenderPrice(Decimal(true, 0)) == "-0.00";
  }

  /** An ASCII character that no text Python's `float` accepts can contain: a
      letter other than those of an exponent, `inf`, `infinity` or `nan`, or
      punctuation other than a sign, a point or an underscore. */
  predicate NeverInFloat(ch: char) {
    || (('a' <= ch <= 'z' || 'A' <= ch <= 'Z') && ch !in "eEiInNfFtTyYaA")
    || ch in ",;:$%#@!?*/\\|&^~=<>()[]{}'\"`"
  }

  /** A body holding a character that is neither a digit nor a point does not parse. */
  lemma NonDigitUnparsable(body: string, j: nat)
    requires j < |body| && !IsDigit(body[j]) && body[j] != '.'
    ensures ParseUnsigned(body) == None
  {
    var (whole, fraction) := SplitAtPoint(body);
    if fraction.Some? {
      var frac := fraction.value;
      assert body == whole + "." + frac;
      if j < |whole| {
        assert whole[j] == body[j];
      } else {
        assert j != |whole|;
        assert frac[j - |whole| - 1] == body[j];
      }
    } else {
      assert whole[j] == body[j];
    }
  }

  /** Text holding a character that no float literal contains has no
      rendering, so the read path raises ValueError, as `float` does on it. */
  lemma FormatNonNumber(p: string, i: nat)
    requires i < |p| && NeverInFloat(p[i])
    ensures FormatPrice(p) == None
  {
    var signed := |p| > 0 && (p[0] == '-' || p[0] == '+');
    if signed {
      assert i >= 1;
      assert p[1..][i - 1] == p[i];
      NonDigitUnparsable(p[1..], i - 1);
    } else {
      NonDigitUnparsable(p, i);
    }
  }

  /** Text that is not a number has no rendering. */
  lemma FormatAbc()
    ensures FormatPrice("abc") == None
  {
    FormatNonNumber("abc", 1);
  }

  /** Formatting keeps the value: the rendered text reads back to the sign and
      hundredths the stored text denotes. */
  lemma FormatPriceKeepsValue(p: string)
    requires FormatPrice(p).Some?
    ensures ParsePrice(FormatPrice(p).value) == ParsePrice(p)
  {
    var signed := |p| > 0 && (p[0] == '-' || p[0] == '+');
    ParsedBound(if signed then p[1..] else p);
    ParseRender(ParsePrice(p).value);
  }
}
