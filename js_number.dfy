/**
 * JavaScript numbers, the white space that `trim`, `\s` and `Number()` share,
 * and the conversion `Number(string)` (the StringToNumber grammar of ECMAScript).
 *
 * Doubles are seen as exact reals: there is no rounding, no overflow to
 * Infinity and no negative zero. The three special values are kept so that
 * `===` behaves as in JavaScript: Infinity equals itself, NaN equals nothing.
 */
module JsNumber {
  import opened Wrappers

  datatype Number = Finite(r: real) | PosInf | NegInf | NaN

  /** `a === b` on two numbers. */
  function NumEq(a: Number, b: Number): (eq: bool)
    ensures eq <==> a == b && !a.NaN?
  {
    match (a, b)
    case (Finite(x), Finite(y)) => x == y
    case (PosInf, PosInf) => true
    case (NegInf, NegInf) => true
    case _ => false
  }

  /** Unary `-`. */
  function Negate(a: Number): Number {
    match a
    case Finite(x) => Finite(-x)
    case PosInf => NegInf
    case NegInf => PosInf
    case NaN => NaN
  }

  /** `a + b`. */
  function Add(a: Number, b: Number): (c: Number)
    ensures a.Finite? && b.Finite? ==> c == Finite(a.r + b.r)
    ensures c.Finite? <==> a.Finite? && b.Finite?
    ensures c == NaN <==> a == NaN || b == NaN || (a == PosInf && b == NegInf) || (a == NegInf && b == PosInf)
  {
    match (a, b)
    case (NaN, _) => NaN
    case (_, NaN) => NaN
    case (PosInf, NegInf) => NaN
    case (NegInf, PosInf) => NaN
    case (PosInf, _) => PosInf
    case (NegInf, _) => NegInf
    case (_, PosInf) => PosInf
    case (_, NegInf) => NegInf
    case (Finite(x), Finite(y)) => Finite(x + y)
  }

  /** `a / b`; a zero divisor counts as +0. */
  function Div(a: Number, b: Number): (c: Number)
    ensures a.Finite? && b.Finite? && b.r != 0.0 ==> c == Finite(a.r / b.r)
    ensures c.Finite? <==> a.Finite? && b != NaN && b != Finite(0.0)
    ensures c == NaN <==> a == NaN || b == NaN || a == b == Finite(0.0) || (!a.Finite? && !b.Finite?)
  {
    match (a, b)
    case (NaN, _) => NaN
    case (_, NaN) => NaN
    case (Finite(x), Finite(y)) =>
      if y != 0.0 then Finite(x / y)
      else if x > 0.0 then PosInf
      else if x < 0.0 then NegInf
      else NaN
    // finite / ±Infinity is a (signed) zero
    case (Finite(_), _) => Finite(0.0)
    // ±Infinity / finite keeps or flips the sign of the infinity
    case (_, Finite(y)) => if a.PosInf? == (y >= 0.0) then PosInf else NegInf
    // ±Infinity / ±Infinity
    case _ => NaN
  }

  /** The characters JavaScript counts as white space: WhiteSpace and LineTerminator. */
  predicate IsSpace(c: char) {
    || c == '\t' || c == '\n' || c == '\U{B}' || c == '\U{C}' || c == '\r' || c == ' '
    || c == '\U{A0}' || c == '\U{1680}' || ('\U{2000}' <= c <= '\U{200A}')
    || c == '\U{2028}' || c == '\U{2029}' || c == '\U{202F}' || c == '\U{205F}'
    || c == '\U{3000}' || c == '\U{FEFF}'
  }

  predicate AllSpaces(s: string) {
    forall i :: 0 <= i < |s| ==> IsSpace(s[i])
  }

  predicate NoSpaceAtEnds(s: string) {
    s == [] || (!IsSpace(s[0]) && !IsSpace(s[|s| - 1]))
  }

  /** Drops the leading white space. */
  function TrimStart(s: string): (r: string)
    ensures |r| <= |s| && r == s[|s| - |r|..]
    ensures forall i :: 0 <= i < |s| - |r| ==> IsSpace(s[i])
    ensures r == [] || !IsSpace(r[0])
  {
    if |s| > 0 && IsSpace(s[0]) then TrimStart(s[1..]) else s
  }

  /** Drops the trailing white space. */
  function TrimEnd(s: string): (r: string)
    ensures |r| <= |s| && r == s[..|r|]
    ensures forall i :: |r| <= i < |s| ==> IsSpace(s[i])
    ensures r == [] || !IsSpace(r[|r| - 1])
  {
    if |s| > 0 && IsSpace(s[|s| - 1]) then TrimEnd(s[..|s| - 1]) else s
  }

  /** `s.trim()`: the longest infix of `s` that neither starts nor ends with white space. */
  function Trim(s: string): (r: string)
    ensures NoSpaceAtEnds(r) && |r| <= |s|
    ensures exists i :: 0 <= i <= |s| - |r| && AllSpaces(s[..i]) && r == s[i..][..|r|] && AllSpaces(s[i..][|r|..])
    ensures NoSpaceAtEnds(s) ==> r == s
    ensures (forall i :: 0 <= i < |s| ==> IsSpace(s[i])) ==> r == []
  {
    var t := TrimStart(s);
    var r := TrimEnd(t);
    assert r != [] ==> !IsSpace(r[0]) by {
      if r != [] { assert r[0] == t[0]; }
    }
    TrimmedInfix(s, t, r);
    r
  }

  lemma TrimmedInfix(s: string, t: string, r: string)
    requires |r| <= |t| <= |s|
    requires t == s[|s| - |t|..] && AllSpaces(s[..|s| - |t|])
    requires r == t[..|r|] && AllSpaces(t[|r|..])
    ensures var i := |s| - |t|; AllSpaces(s[..i]) && r == s[i..][..|r|] && AllSpaces(s[i..][|r|..])
  {
  }

  /** The value of `c` as a hexadecimal digit, or 16 when it is none. */
  function HexDigitValue(c: char): (v: nat)
    ensures v <= 16
    ensures v < 10 <==> '0' <= c <= '9'
  {
    if '0' <= c <= '9' then (c as int) - ('0' as int)
    else if 'a' <= c <= 'f' then (c as int) - ('a' as int) + 10
    else if 'A' <= c <= 'F' then (c as int) - ('A' as int) + 10
    else 16
  }

  predicate IsDigitIn(c: char, radix: nat) {
    HexDigitValue(c) < radix
  }

  predicate AllDigitsIn(s: string, radix: nat) {
    forall i :: 0 <= i < |s| ==> IsDigitIn(s[i], radix)
  }

  /** A decimal digit, `\d` of a regular expression. */
  predicate IsDigit(c: char) {
    IsDigitIn(c, 10)
  }

  predicate AllDigits(s: string) {
    AllDigitsIn(s, 10)
  }

  /** The value of the digit string `s` in base `radix`, most significant digit first. */
  function ValueIn(s: string, radix: nat): nat
    requires AllDigitsIn(s, radix)
  {
    if s == [] then 0
    else radix * ValueIn(s[..|s| - 1], radix) + HexDigitValue(s[|s| - 1])
  }

  /** The value of a decimal digit string. */
  function DigitsValue(s: string): nat
    requires AllDigits(s)
  {
    ValueIn(s, 10)
  }

  /** The number of leading decimal digits of `s`. */
  function DigitRun(s: string): (n: nat)
    ensures n <= |s| && AllDigits(s[..n])
    ensures n < |s| ==> !IsDigit(s[n])
  {
    if |s| > 0 && IsDigit(s[0]) then
      var n := 1 + DigitRun(s[1..]);
      assert s[..n] == [s[0]] + s[1..][..n - 1];
      n
    else 0
  }

  function Power10(n: nat): (p: nat)
    ensures p >= 1
  {
    if n == 0 then 1 else 10 * Power10(n - 1)
  }

  /** 10 raised to an integer exponent. */
  function Pow10(e: int): (p: real)
    ensures p > 0.0
  {
    if e >= 0 then Power10(e) as real else 1.0 / (Power10(-e) as real)
  }

  /** Base of a `0x`, `0o` or `0b` literal from the letter after the zero; 0 for any other letter. */
  function RadixOf(c: char): nat {
    if c == 'x' || c == 'X' then 16
    else if c == 'o' || c == 'O' then 8
    else if c == 'b' || c == 'B' then 2
    else 0
  }

  /** NonDecimalIntegerLiteral: `0x`, `0o` or `0b` (either case) and at least one digit, no sign. */
  function NonDecimalLiteral(t: string): Option<nat> {
    if |t| >= 3 && t[0] == '0' && RadixOf(t[1]) != 0 && AllDigitsIn(t[2..], RadixOf(t[1])) then
      Some(ValueIn(t[2..], RadixOf(t[1])))
    else None
  }

  /** ExponentPart, possibly absent: `` or `e`/`E`, an optional sign and decimal digits. */
  function Exponent(x: string): Option<int> {
    if x == [] then Some(0)
    else if x[0] == 'e' || x[0] == 'E' then
      var y := x[1..];
      var neg := |y| > 0 && y[0] == '-';
      var z := if |y| > 0 && (y[0] == '-' || y[0] == '+') then y[1..] else y;
      if |z| > 0 && AllDigits(z) then
        var v: int := DigitsValue(z);
        Some(if neg then -v else v)
      else None
    else None
  }

  /**
   * StrUnsignedDecimalLiteral without `Infinity`:
   * `Digits [. Digits?] [Exponent]` or `. Digits [Exponent]`.
   */
  function DecimalLiteral(u: string): Option<real> {
    var i := DigitRun(u);
    if i < |u| && u[i] == '.' then
      var f := u[i + 1..];
      var j := DigitRun(f);
      if i == 0 && j == 0 then None
      else
        var digits := u[..i] + f[..j];
        assert AllDigits(digits) by {
          forall k | 0 <= k < |digits| ensures IsDigit(digits[k]) {
            if k < i { assert digits[k] == u[..i][k]; } else { assert digits[k] == f[..j][k - i]; }
          }
        }
        match Exponent(f[j..])
        case Some(e) => Some(DigitsValue(digits) as real * Pow10(e - j))
        case None => None
    else if i == 0 then None
    else
      match Exponent(u[i..])
      case Some(e) => Some(DigitsValue(u[..i]) as real * Pow10(e))
      case None => None
  }

  /** StrUnsignedDecimalLiteral. */
  function UnsignedDecimalLiteral(u: string): (r: Option<Number>)
    ensures r == Some(PosInf) <==> u == "Infinity"
    ensures r.Some? ==> r.value.Finite? || r.value == PosInf
  {
    if u == "Infinity" then Some(PosInf)
    else
      match DecimalLiteral(u)
      case Some(x) => Some(Finite(x))
      case None => None
  }

  /** StrDecimalLiteral: an optional `+` or `-` before an unsigned literal. */
  function SignedDecimalLiteral(t: string): Option<Number> {
    if |t| > 0 && t[0] == '-' then
      match UnsignedDecimalLiteral(t[1..])
      case Some(x) => Some(Negate(x))
      case None => None
    else if |t| > 0 && t[0] == '+' then UnsignedDecimalLiteral(t[1..])
    else UnsignedDecimalLiteral(t)
  }

  /** `Number(s)` for a string `s`: white space around the literal is ignored, blank text is 0, anything else is NaN. */
  function StringToNumber(s: string): (n: Number)
    ensures AllSpaces(s) ==> n == Finite(0.0)
    ensures n == PosInf <==> Trim(s) == "Infinity" || Trim(s) == "+Infinity"
    ensures n == NegInf <==> Trim(s) == "-Infinity"
  {
    var t := Trim(s);
    SignedInfinity(t);
    if t == [] then Finite(0.0)
    else
      match NonDecimalLiteral(t)
      case Some(v) => Finite(v as real)
      case None =>
        match SignedDecimalLiteral(t)
        case Some(x) => x
        case None => NaN
  }

  /** The literals naming an infinity: `Infinity` and `+Infinity`, and `-Infinity`. */
  lemma SignedInfinity(t: string)
    ensures SignedDecimalLiteral(t) == Some(PosInf) <==> t == "Infinity" || t == "+Infinity"
    ensures SignedDecimalLiteral(t) == Some(NegInf) <==> t == "-Infinity"
    ensures t == "Infinity" || t == "+Infinity" || t == "-Infinity" ==> NonDecimalLiteral(t) == None
  {
    if |t| > 0 {
      assert t == [t[0]] + t[1..];
    }
  }

  /** A non-empty string of decimal digits converts to its value. */
  lemma DigitsToNumber(d: string)
    requires |d| > 0 && AllDigits(d)
    ensures StringToNumber(d) == Finite(DigitsValue(d) as real)
  {
    DigitsHaveNoSpace(d);
    assert NonDecimalLiteral(d) == None by {
      if |d| >= 3 { assert IsDigit(d[1]); assert RadixOf(d[1]) == 0; }
    }
    DigitsDecimalLiteral(d);
  }

  lemma DigitsHaveNoSpace(d: string)
    requires |d| > 0 && AllDigits(d)
    ensures NoSpaceAtEnds(d) && Trim(d) == d
  {
    assert IsDigit(d[0]) && IsDigit(d[|d| - 1]);
  }

  lemma DigitsDecimalLiteral(d: string)
    requires |d| > 0 && AllDigits(d)
    ensures SignedDecimalLiteral(d) == Some(Finite(DigitsValue(d) as real))
  {
    assert IsDigit(d[0]);
    assert d != "Infinity" by { assert d[0] != 'I'; }
    var i := DigitRun(d);
    assert i == |d|;
    assert d[..i] == d && d[i..] == [];
  }

  /** A trimmed decimal literal that starts with a digit and names no radix converts to its value. */
  lemma DecimalToNumber(s: string, x: real)
    requires s != [] && IsDigit(s[0]) && (|s| > 1 ==> RadixOf(s[1]) == 0) && NoSpaceAtEnds(s)
    requires DecimalLiteral(s) == Some(x)
    ensures StringToNumber(s) == Finite(x)
  {
    assert Trim(s) == s;
    assert s != "Infinity" by { assert s[0] != 'I'; }
  }

  /**
   * A string whose first character after any white space is a letter that
   * starts no number word (anything but `I` of `Infinity`) converts to NaN.
   */
  lemma LetterStartIsNaN(s: string)
    requires s != [] && 'a' <= s[0] <= 'z'
    ensures StringToNumber(s) == NaN
  {
    assert !IsSpace(s[0]);
    assert TrimStart(s) == s;
    var t := Trim(s);
    assert t == TrimEnd(s);
    assert t != [];
    assert t[0] == s[0];
    assert NonDecimalLiteral(t) == None;
    assert SignedDecimalLiteral(t) == UnsignedDecimalLiteral(t);
    assert t != "Infinity" by { assert t[0] != 'I'; }
    assert DigitRun(t) == 0;
    assert DecimalLiteral(t) == None;
  }

  /**
   * A string that starts with decimal digits followed directly by a letter
   * that neither opens an exponent nor names a radix converts to NaN.
   */
  lemma DigitsThenLetterIsNaN(w: string, rest: string)
    requires |w| > 0 && AllDigits(w)
    requires rest != [] && 'a' <= rest[0] <= 'z' && rest[0] != 'e' && RadixOf(rest[0]) == 0
    requires NoSpaceAtEnds(w + rest)
    ensures StringToNumber(w + rest) == NaN
  {
    var t := w + rest;
    assert Trim(t) == t;
    assert NonDecimalLiteral(t) == None by {
      if |t| >= 3 {
        assert t[1] == (if |w| > 1 then w[1] else rest[0]);
        if |w| > 1 { assert IsDigit(w[1]); }
      }
    }
    assert t[0] == w[0] && IsDigit(t[0]);
    assert SignedDecimalLiteral(t) == UnsignedDecimalLiteral(t);
    assert t != "Infinity" by { assert t[0] != 'I'; }
    assert DecimalLiteral(t) == None by {
      DigitRunOfConcat(w, rest);
      assert t[|w|..] == rest;
      assert t[|w|] == rest[0] != '.';
      assert Exponent(rest) == None;
    }
    assert UnsignedDecimalLiteral(t) == None;
  }

  /** The leading digit run of `w + rest` is `w` when `rest` does not start with a digit. */
  lemma DigitRunOfConcat(w: string, rest: string)
    requires AllDigits(w) && rest != [] && !IsDigit(rest[0])
    ensures DigitRun(w + rest) == |w|
  {
    var t := w + rest;
    var i := DigitRun(t);
    assert t[|w|] == rest[0];
    assert forall k :: 0 <= k < |w| ==> t[k] == w[k];
    assert forall k :: 0 <= k < i ==> t[..i][k] == t[k];
  }
}
