/**
 * Python's `float(x)` on a string, as the exact rational it denotes.
 *
 * The grammar is the one Python documents for `float()`:
 *   floatvalue ::= [sign] floatnumber
 *   floatnumber ::= number [exponent]
 *   number ::= [digitpart] "." digitpart | digitpart ["."]
 *   exponent ::= ("e" | "E") [sign] digitpart
 *   digitpart ::= digit (["_"] digit)*
 * surrounded by optional white space. `None` is the `ValueError` that the
 * cleansing code catches.
 */
module PyFloat {
  import opened Wrappers
  import opened PyStr

  predicate IsDigit(c: char) {
    '0' <= c <= '9'
  }

  predicate AllDigits(s: string) {
    forall i :: 0 <= i < |s| ==> IsDigit(s[i])
  }

  /** The number a string of decimal digits denotes (0 for the empty string). */
  function DigitsValue(ds: string): nat
    requires AllDigits(ds)
  {
    if ds == [] then 0 else 10 * DigitsValue(ds[..|ds| - 1]) + (ds[|ds| - 1] as int - '0' as int)
  }

  function Pow10(n: nat): (r: real)
    ensures r >= 1.0
  {
    if n == 0 then 1.0 else 10.0 * Pow10(n - 1)
  }

  /** `digitpart`: digits, with single underscores allowed between two digits. */
  predicate IsDigitPart(s: string)
    decreases |s|
  {
    && |s| > 0
    && IsDigit(s[0])
    && (|s| == 1 || if s[1] == '_' then |s| > 2 && IsDigitPart(s[2..]) else IsDigitPart(s[1..]))
  }

  /** The digits of a `digitpart`, its underscores dropped. */
  function DigitPartDigits(s: string): (r: string)
    requires IsDigitPart(s)
    decreases |s|
    ensures r != [] && AllDigits(r)
    ensures |r| <= |s|
  {
    [s[0]] + if |s| == 1 then [] else if s[1] == '_' then DigitPartDigits(s[2..]) else DigitPartDigits(s[1..])
  }

  function DigitPartValue(s: string): nat
    requires IsDigitPart(s)
  {
    DigitsValue(DigitPartDigits(s))
  }

  /** The value of the digits after a decimal point. */
  function FractionValue(s: string): (r: real)
    requires IsDigitPart(s)
  {
    var ds := DigitPartDigits(s);
    DigitsValue(ds) as real / Pow10(|ds|)
  }

  /** `number ::= [digitpart] "." digitpart | digitpart ["."]` */
  function ParseMantissa(m: string): Option<real> {
    match Find(m, ".")
    case None => if IsDigitPart(m) then Some(DigitPartValue(m) as real) else None
    case Some(i) =>
      var whole, frac := m[..i], m[i + 1..];
      if whole == [] then
        if IsDigitPart(frac) then Some(FractionValue(frac)) else None
      else if !IsDigitPart(whole) then None
      else if frac == [] then Some(DigitPartValue(whole) as real)
      else if IsDigitPart(frac) then Some(DigitPartValue(whole) as real + FractionValue(frac))
      else None
  }

  /** `[sign] digitpart`, the part of an exponent after the `e`. */
  function ParseExponent(e: string): Option<int> {
    if e != [] && (e[0] == '+' || e[0] == '-') then
      if IsDigitPart(e[1..]) then
        var k: int := DigitPartValue(e[1..]);
        Some(if e[0] == '-' then -k else k)
      else None
    else if IsDigitPart(e) then Some(DigitPartValue(e))
    else None
  }

  function Scale(m: real, e: int): real {
    if e >= 0 then m * Pow10(e) else m / Pow10(-e)
  }

  /**
   * `floatnumber ::= number [exponent]`. A valid mantissa or exponent holds no
   * letter, so the string is split at its first `e` once every `E` has been
   * written as `e`.
   */
  function ParseUnsigned(body: string): Option<real> {
    var b := ReplaceChar(body, 'E', 'e');
    match Find(b, "e")
    case None => ParseMantissa(b)
    case Some(i) =>
      match (ParseMantissa(b[..i]), ParseExponent(b[i + 1..]))
      case (Some(m), Some(e)) => Some(Scale(m, e))
      case _ => None
  }

  /** Python's `float(s)`; `None` where Python raises `ValueError`. */
  function ParseNumber(s: string): Option<real> {
    ParseSigned(Strip(s))
  }

  /** `[sign] floatnumber`, once the surrounding white space is gone. */
  function ParseSigned(t: string): Option<real> {
    if t != [] && (t[0] == '+' || t[0] == '-') then
      match ParseUnsigned(t[1..])
      case None => None
      case Some(v) => Some(if t[0] == '-' then -v else v)
    else ParseUnsigned(t)
  }

  /** Blank text is not a number: `float("")` and `float("  ")` raise `ValueError`. */
  lemma ParseNumberBlank(s: string)
    requires AllSpace(s)
    ensures ParseNumber(s).None?
  {
    StripAllSpace(s);
    assert ReplaceChar([], 'E', 'e') == [];
  }

  /** `float()` ignores white space around the numeral. */
  lemma ParseNumberPadded(p: string, s: string, q: string)
    requires AllSpace(p) && AllSpace(q)
    requires s != [] && Unpadded(s)
    ensures ParseNumber(p + s + q) == ParseNumber(s)
  {
    StripPadding(p, s, q);
    UnpaddedStrip(s);
    assert ParseNumber(p + s + q) == ParseSigned(s);
  }

  /** The decimal notation of `n` (Python's `str(n)`). */
  function NatToString(n: nat): (r: string)
    ensures r != [] && AllDigits(r)
    ensures DigitsValue(r) == n
  {
    var d := [('0' as int + n % 10) as char];
    if n < 10 then d
    else
      var r := NatToString(n / 10) + d;
      assert r[..|r| - 1] == NatToString(n / 10);
      r
  }

  /** A string with no sign, no exponent and no padding is read as a bare `number`. */
  lemma PlainNumber(s: string)
    requires s != [] && IsDigit(s[0]) && Unpadded(s)
    requires 'e' !in s && 'E' !in s
    ensures ParseNumber(s) == ParseMantissa(s)
  {
    UnpaddedStrip(s);
    assert Strip(s) == s;
    assert !(s[0] == '+' || s[0] == '-');
    assert ParseNumber(s) == ParseUnsigned(s);
    assert ReplaceChar(s, 'E', 'e') == s;
    AbsentFirstChar(s, "e");
  }

  /** A non-empty run of digits is a `digitpart` with nothing to drop. */
  lemma {:induction false} DigitsAreDigitPart(s: string)
    requires s != [] && AllDigits(s)
    ensures IsDigitPart(s) && DigitPartDigits(s) == s
  {
    if |s| > 1 {
      DigitsAreDigitPart(s[1..]);
    }
  }

  lemma DigitsUnpadded(s: string)
    requires s != [] && AllDigits(s)
    ensures Unpadded(s) && Strip(s) == s
  {
    UnpaddedStrip(s);
  }

  /** `float(str(n)) == n` for every natural number `n`. */
  lemma ParseNatToString(n: nat)
    ensures ParseNumber(NatToString(n)) == Some(n as real)
  {
    var s := NatToString(n);
    DigitsUnpadded(s);
    assert 'E' !in s && 'e' !in s && '.' !in s;
    PlainNumber(s);
    AbsentFirstChar(s, ".");
    DigitsAreDigitPart(s);
  }

  /** A `digitpart` is made of digits and underscores only. */
  lemma {:induction false} DigitPartChars(s: string)
    requires IsDigitPart(s)
    ensures forall i :: 0 <= i < |s| ==> IsDigit(s[i]) || s[i] == '_'
  {
    if |s| > 1 {
      if s[1] == '_' {
        DigitPartChars(s[2..]);
        assert forall i :: 2 <= i < |s| ==> s[i] == s[2..][i - 2];
      } else {
        DigitPartChars(s[1..]);
        assert forall i :: 1 <= i < |s| ==> s[i] == s[1..][i - 1];
      }
    }
  }

  /** The mantissa `w.f` is read as the whole part `w` plus the fraction `f`. */
  lemma MantissaDecimal(w: string, f: string)
    requires IsDigitPart(w) && IsDigitPart(f)
    ensures ParseMantissa(w + "." + f) == Some(DigitPartValue(w) as real + FractionValue(f))
  {
    var s := w + "." + f;
    DigitPartChars(w);
    assert '.' !in w;
    assert s == w + ("." + f);
    FindPastPrefix(w, "." + f, ".");
    assert OccursAt("." + f, ".", 0);
    assert BeforeFirst("." + f, ".") == [];
    assert AfterFirst("." + f, ".") == f;
    assert Find(s, ".") == Some(|w|);
    assert s[..|w|] == w && s[|w| + 1..] == f;
  }

  /** A fraction written with plain digits `f` is worth `f / 10^|f|`. */
  lemma FractionOfDigits(f: string)
    requires f != [] && AllDigits(f)
    ensures IsDigitPart(f) && FractionValue(f) == DigitsValue(f) as real / Pow10(|f|)
  {
    DigitsAreDigitPart(f);
  }

  /** A numeral `w.f` made of plain digits is read as a bare mantissa. */
  lemma DecimalIsPlain(ws: string, f: string)
    requires ws != [] && AllDigits(ws)
    requires f != [] && AllDigits(f)
    ensures ParseNumber(ws + "." + f) == ParseMantissa(ws + "." + f)
  {
    var s := ws + "." + f;
    assert s[0] == ws[0] && s[|s| - 1] == f[|f| - 1];
    assert forall i :: 0 <= i < |s| ==> s[i] == '.' || IsDigit(s[i]);
    PlainNumber(s);
  }

  /** `float("w.f")` is `w` plus the fraction that the digits `f` denote. */
  lemma ParseDecimal(ws: string, f: string)
    requires ws != [] && AllDigits(ws)
    requires f != [] && AllDigits(f)
    ensures ParseNumber(ws + "." + f).Some?
    ensures ParseNumber(ws + "." + f).value
         == DigitsValue(ws) as real + DigitsValue(f) as real / Pow10(|f|)
  {
    DecimalIsPlain(ws, f);
    DigitsAreDigitPart(ws);
    FractionOfDigits(f);
    MantissaDecimal(ws, f);
  }
}
