/**
 * `normalizeFraction`: turns the text of a mixed number, a simple fraction or
 * a plain number into a JavaScript number for `===` comparison, or `null`.
 *
 * The only LaTeX handling is deleting every backslash, and a zero denominator
 * is divided through: `"3/0"` gives Infinity and `"0/0"` gives NaN.
 */
module Normalize {
  import opened Wrappers
  import opened JsNumber
  import opened JsValue

  /** `s.replace(/\\/g, '')`. */
  function RemoveBackslashes(s: string): (r: string)
    ensures '\\' !in r && |r| <= |s|
    ensures '\\' !in s ==> r == s
    ensures multiset(r) == multiset(s)['\\' := 0]
  {
    if s == [] then []
    else
      var rest := RemoveBackslashes(s[1..]);
      assert s == [s[0]] + s[1..];
      if s[0] == '\\' then rest else [s[0]] + rest
  }

  lemma {:induction false} RemoveBackslashesConcat(a: string, b: string)
    ensures RemoveBackslashes(a + b) == RemoveBackslashes(a) + RemoveBackslashes(b)
  {
    if a != [] {
      assert (a + b)[1..] == a[1..] + b;
      RemoveBackslashesConcat(a[1..], b);
    } else {
      assert a + b == b;
    }
  }

  /** The number of leading white-space characters of `s`. */
  function SpaceRun(s: string): (n: nat)
    ensures n <= |s| && AllSpaces(s[..n])
    ensures n < |s| ==> !IsSpace(s[n])
  {
    if |s| > 0 && IsSpace(s[0]) then
      var n := 1 + SpaceRun(s[1..]);
      assert s[..n] == [s[0]] + s[1..][..n - 1];
      n
    else 0
  }

  /** `s.match(/^(\d+)\/(\d+)$/)`: the numerator and denominator digits. */
  function MatchFraction(s: string): (r: Option<(string, string)>)
    ensures r.Some? ==> FractionShape(s, r.value.0, r.value.1)
  {
    var i := DigitRun(s);
    if 0 < i && i + 1 < |s| && s[i] == '/' && AllDigits(s[i + 1..]) then
      assert s == s[..i] + "/" + s[i + 1..];
      Some((s[..i], s[i + 1..]))
    else None
  }

  /** `s.match(/^(\d+)\s+(\d+)\/(\d+)$/)`: the whole, numerator and denominator digits. */
  function MatchMixed(s: string): (r: Option<(string, string, string)>)
    ensures r.Some? ==> |r.value.0| > 0 && AllDigits(r.value.0) && r.value.0 <= s
    ensures r.Some? ==> (|r.value.0| + |r.value.1| + 1 + |r.value.2| < |s|
      && FractionShape(s[|s| - |r.value.1| - 1 - |r.value.2|..], r.value.1, r.value.2))
    ensures r.Some? ==> MatchFraction(s) == None
  {
    var i := DigitRun(s);
    var k := SpaceRun(s[i..]);
    if i > 0 && k > 0 then
      assert s[i] == s[i..][0] && IsSpace(s[i]);
      match MatchFraction(s[i + k..])
      case Some((n, d)) =>
        assert |s[i + k..]| == |n| + 1 + |d|;
        Some((s[..i], n, d))
      case None => None
    else None
  }

  /** `s` is `n/d` with non-empty digit strings `n` and `d`. */
  ghost predicate FractionShape(s: string, n: string, d: string) {
    && |n| > 0 && AllDigits(n)
    && |d| > 0 && AllDigits(d)
    && s == n + "/" + d
  }

  /** `s` is `w`, white space `sp`, then `n/d`, all digit strings non-empty. */
  ghost predicate MixedShape(s: string, w: string, sp: string, n: string, d: string) {
    && |w| > 0 && AllDigits(w)
    && |sp| > 0 && AllSpaces(sp)
    && FractionShape(n + "/" + d, n, d)
    && s == w + sp + (n + "/" + d)
  }

  /** The fraction matcher recognises exactly the `digits/digits` strings, and splits them uniquely. */
  lemma MatchFractionIff(s: string, n: string, d: string)
    ensures MatchFraction(s) == Some((n, d)) <==> FractionShape(s, n, d)
  {
    if MatchFraction(s) == Some((n, d)) {
      var i := DigitRun(s);
      assert s == s[..i] + "/" + s[i + 1..];
    }
    if FractionShape(s, n, d) {
      DigitRunOfConcat(n, "/" + d);
      assert s == n + ("/" + d);
      assert s[|n| + 1..] == d;
      assert s[..|n|] == n;
    }
  }

  /** A `w sp n/d` string is matched as a mixed number with groups `w`, `n`, `d`. */
  lemma MatchMixedComplete(s: string, w: string, sp: string, n: string, d: string)
    requires MixedShape(s, w, sp, n, d)
    ensures MatchMixed(s) == Some((w, n, d))
  {
    var f := n + "/" + d;
    assert IsDigit(f[0]);
    DigitRunOfConcat(w, sp + f);
    assert s == w + (sp + f);
    assert s[|w|..] == sp + f;
    SpaceRunOfConcat(sp, f);
    assert s[|w| + |sp|..] == f;
    assert s[..|w|] == w;
    MatchFractionIff(f, n, d);
  }

  /** Whatever the mixed matcher accepts has the mixed shape for some run of white space. */
  lemma MatchMixedSound(s: string, w: string, n: string, d: string)
    requires MatchMixed(s) == Some((w, n, d))
    ensures MixedShape(s, w, s[|w|..|s| - |n| - 1 - |d|], n, d)
  {
    var i := DigitRun(s);
    var k := SpaceRun(s[i..]);
    var b := |s| - |n| - 1 - |d|;
    assert i == |w| && i + k == b;
    assert s[i..b] == s[i..][..k];
    ThreeWay(s, i, b);
    AssembleMixed(s, w, s[i..b], s[b..], n, d);
  }

  lemma ThreeWay(s: string, a: nat, b: nat)
    requires a <= b <= |s|
    ensures s == s[..a] + s[a..b] + s[b..]
  {
  }

  lemma AssembleMixed(s: string, w: string, sp: string, f: string, n: string, d: string)
    requires |w| > 0 && AllDigits(w) && |sp| > 0 && AllSpaces(sp) && FractionShape(f, n, d)
    requires s == w + sp + f
    ensures MixedShape(s, w, sp, n, d)
  {
  }

  lemma SpaceRunOfConcat(sp: string, rest: string)
    requires AllSpaces(sp) && rest != [] && !IsSpace(rest[0])
    ensures SpaceRun(sp + rest) == |sp|
  {
    var t := sp + rest;
    var i := SpaceRun(t);
    assert t[|sp|] == rest[0];
    assert forall k :: 0 <= k < |sp| ==> t[k] == sp[k];
    assert forall k :: 0 <= k < i ==> t[..i][k] == t[k];
  }

  /** `String(v)` for the values that get past the empty guard (numbers are handled apart). */
  function Text(v: Value): string {
    match v
    case Str(s) => s
    case Bool(b) => if b then "true" else "false"
    case Obj(text) => text
    case _ => ""
  }

  /** The three attempts on the cleaned text, in order: mixed number, simple fraction, plain number. */
  function Classify(s: string): (r: Value)
    ensures r.Null? || r.Num?
  {
    match MatchMixed(s)
    case Some((w, n, d)) => Num(Add(StringToNumber(w), Div(StringToNumber(n), StringToNumber(d))))
    case None =>
      match MatchFraction(s)
      case Some((n, d)) => Num(Div(StringToNumber(n), StringToNumber(d)))
      case None =>
        var x := StringToNumber(s);
        if x.NaN? then Null else Num(x)
  }

  /** The body of `normalizeFraction` after the guard: trim, delete backslashes, classify. */
  function NormalizeText(text: string): (r: Value)
    ensures r.Null? || r.Num?
  {
    Classify(RemoveBackslashes(Trim(text)))
  }

  /**
   * `normalizeFraction(val)`: `undefined`, `null` and `''` give `null`; other
   * values go through `String(val)`. For a number argument the result is the
   * number itself unless it is NaN, since `Number(String(x))` is `x`.
   */
  function NormalizeFraction(val: Value): (r: Value)
    ensures r.Null? || r.Num?
    ensures val.Undefined? || val.Null? || val == Str("") ==> r == Null
  {
    match val
    case Undefined => Null
    case Null => Null
    case Num(n) => if n.NaN? then Null else Num(n)
    case _ => if val == Str("") then Null else NormalizeText(Text(val))
  }

  /** Text that is already trimmed and has no backslash is classified as it stands. */
  lemma CleanText(s: string)
    requires s != [] && NoSpaceAtEnds(s) && '\\' !in s
    ensures NormalizeFraction(Str(s)) == Classify(s)
  {
    assert Trim(s) == s;
  }

  /** The value of the fraction `n/d` of two digit strings as `Number(n) / Number(d)` computes it. */
  function FractionValue(n: string, d: string): Number
    requires AllDigits(n) && AllDigits(d)
  {
    if DigitsValue(d) != 0 then Finite(DigitsValue(n) as real / DigitsValue(d) as real)
    else if DigitsValue(n) != 0 then PosInf
    else NaN
  }

  lemma FractionDivision(n: string, d: string)
    requires |n| > 0 && AllDigits(n) && |d| > 0 && AllDigits(d)
    ensures Div(StringToNumber(n), StringToNumber(d)) == FractionValue(n, d)
  {
    DigitsToNumber(n);
    DigitsToNumber(d);
  }

  /** A fraction of digit strings is trimmed already and holds no backslash. */
  lemma FractionIsClean(n: string, d: string)
    requires |n| > 0 && AllDigits(n) && |d| > 0 && AllDigits(d)
    ensures NoSpaceAtEnds(n + "/" + d) && '\\' !in n + "/" + d
  {
    var s := n + "/" + d;
    assert s[0] == n[0] && IsDigit(n[0]);
    assert s[|s| - 1] == d[|d| - 1] && IsDigit(d[|d| - 1]);
    forall k | 0 <= k < |s| ensures s[k] != '\\' {
      if k < |n| { assert s[k] == n[k]; assert IsDigit(n[k]); }
      else if k > |n| { assert s[k] == d[k - |n| - 1]; assert IsDigit(d[k - |n| - 1]); }
    }
  }

  /** A simple fraction is not a mixed number: its digit run is followed by `/`, not white space. */
  lemma FractionIsNotMixed(n: string, d: string)
    requires |n| > 0 && AllDigits(n) && |d| > 0 && AllDigits(d)
    ensures MatchMixed(n + "/" + d) == None
  {
    var s := n + "/" + d;
    DigitRunOfConcat(n, "/" + d);
    assert s == n + ("/" + d);
    assert s[|n|..][0] == '/';
  }

  lemma ClassifyFraction(n: string, d: string)
    requires |n| > 0 && AllDigits(n) && |d| > 0 && AllDigits(d)
    ensures Classify(n + "/" + d) == Num(FractionValue(n, d))
  {
    FractionIsNotMixed(n, d);
    MatchFractionIff(n + "/" + d, n, d);
    FractionDivision(n, d);
  }

  /**
   * A simple fraction of digit strings normalises to `num/den`; a zero
   * denominator gives Infinity, or NaN for `0/0`, and never `null`.
   */
  lemma NormalizeSimpleFraction(n: string, d: string)
    requires |n| > 0 && AllDigits(n) && |d| > 0 && AllDigits(d)
    ensures NormalizeFraction(Str(n + "/" + d)) == Num(FractionValue(n, d))
  {
    FractionIsClean(n, d);
    CleanText(n + "/" + d);
    ClassifyFraction(n, d);
  }

  /** A mixed number of digit strings is trimmed already and holds no backslash. */
  lemma MixedIsClean(s: string, w: string, sp: string, n: string, d: string)
    requires MixedShape(s, w, sp, n, d)
    ensures NoSpaceAtEnds(s) && '\\' !in s
  {
    var f := n + "/" + d;
    FractionIsClean(n, d);
    assert s[0] == w[0] && IsDigit(w[0]);
    assert s[|s| - 1] == f[|f| - 1];
    forall k | 0 <= k < |s| ensures s[k] != '\\' {
      if k < |w| { assert s[k] == w[k]; assert IsDigit(w[k]); }
      else if k < |w| + |sp| { assert s[k] == sp[k - |w|]; assert IsSpace(sp[k - |w|]); }
      else { assert s[k] == f[k - |w| - |sp|]; }
    }
  }

  lemma ClassifyMixed(s: string, w: string, sp: string, n: string, d: string)
    requires MixedShape(s, w, sp, n, d)
    ensures Classify(s) == Num(Add(Finite(DigitsValue(w) as real), FractionValue(n, d)))
  {
    MatchMixedComplete(s, w, sp, n, d);
    DigitsToNumber(w);
    FractionDivision(n, d);
  }

  /**
   * A mixed number of digit strings normalises to `whole + num/den`; with a
   * zero denominator the sum is Infinity or NaN, never `null`.
   */
  lemma NormalizeMixedNumber(s: string, w: string, sp: string, n: string, d: string)
    requires MixedShape(s, w, sp, n, d)
    ensures NormalizeFraction(Str(s)) == Num(Add(Finite(DigitsValue(w) as real), FractionValue(n, d)))
  {
    MixedIsClean(s, w, sp, n, d);
    CleanText(s);
    ClassifyMixed(s, w, sp, n, d);
  }

  lemma OneDigit(c: char)
    requires '0' <= c <= '9'
    ensures AllDigits([c]) && DigitsValue([c]) == (c as int) - ('0' as int)
  {
    assert IsDigit(c);
    assert [c][..0] == [];
    assert ValueIn([c], 10) == 10 * ValueIn([], 10) + HexDigitValue(c);
  }

  lemma HalfValues()
    ensures AllDigits("1") && AllDigits("2") && AllDigits("3")
    ensures DigitsValue("1") == 1 && FractionValue("1", "2") == Finite(0.5) && FractionValue("3", "2") == Finite(1.5)
  {
    OneDigit('1');
    OneDigit('2');
    OneDigit('3');
  }

  /** The documented examples: "1 1/2", "3/2" and "1.5" all give 1.5. */
  lemma DocumentedExamples()
    ensures NormalizeFraction(Str("1 1/2")) == Num(Finite(1.5))
    ensures NormalizeFraction(Str("3/2")) == Num(Finite(1.5))
    ensures NormalizeFraction(Str("1.5")) == Num(Finite(1.5))
  {
    MixedExample();
    FractionExample();
    DecimalExample();
  }

  lemma MixedExample()
    ensures NormalizeFraction(Str("1 1/2")) == Num(Finite(1.5))
  {
    HalfValues();
    assert AllSpaces(" ");
    var s := "1 1/2";
    assert s == "1" + " " + ("1" + "/" + "2");
    NormalizeMixedNumber(s, "1", " ", "1", "2");
  }

  lemma FractionExample()
    ensures NormalizeFraction(Str("3/2")) == Num(Finite(1.5))
  {
    HalfValues();
    assert "3/2" == "3" + "/" + "2";
    NormalizeSimpleFraction("3", "2");
  }

  lemma DecimalExample()
    ensures NormalizeFraction(Str("1.5")) == Num(Finite(1.5))
  {
    var s := "1.5";
    assert !IsSpace(s[0]) && !IsSpace(s[2]);
    CleanText(s);
    DecimalUnmatched(s);
    DecimalValue();
  }

  lemma DecimalUnmatched(s: string)
    requires s == "1.5"
    ensures MatchMixed(s) == None && MatchFraction(s) == None
  {
    assert IsDigit(s[0]) && !IsDigit(s[1]);
    assert DigitRun(s) == 1;
    assert SpaceRun(s[1..]) == 0;
  }

  lemma DecimalValue()
    ensures StringToNumber("1.5") == Finite(1.5)
  {
    var s := "1.5";
    assert IsDigit(s[0]) && RadixOf(s[1]) == 0 && !IsSpace(s[2]);
    DecimalLiteralValue();
    DecimalToNumber(s, 1.5);
  }

  lemma DecimalLiteralValue()
    ensures DecimalLiteral("1.5") == Some(1.5)
  {
    var s := "1.5";
    assert IsDigit(s[0]) && !IsDigit(s[1]) && IsDigit(s[2]);
    assert DigitRun(s) == 1;
    assert DigitRun(s[2..]) == 1 by { assert s[2..] == "5"; }
    assert s[..1] + s[2..][..1] == "15";
    assert DigitsValue("15") == 15 by {
      assert "15"[..1] == "1";
      OneDigit('1');
    }
    assert Pow10(-1) == 0.1;
    assert s[2..][1..] == "";
  }

  /** Zero denominators are divided through: "3/0" is Infinity and "0/0" is NaN. */
  lemma ZeroDenominators()
    ensures NormalizeFraction(Str("3/0")) == Num(PosInf)
    ensures NormalizeFraction(Str("0/0")) == Num(NaN)
  {
    OneDigit('3');
    OneDigit('0');
    assert "3/0" == "3" + "/" + "0";
    assert "0/0" == "0" + "/" + "0";
    NormalizeSimpleFraction("3", "0");
    NormalizeSimpleFraction("0", "0");
  }

  /** `\frac{n}{d}` is not unwrapped: deleting the backslash leaves `frac{n}{d}`, which is no number. */
  lemma LatexFractionIsNull(n: string, d: string)
    requires AllDigits(n) && AllDigits(d)
    ensures NormalizeFraction(Str("\\frac{" + n + "}{" + d + "}")) == Null
  {
    var tail := "frac{" + n + "}{" + d + "}";
    var s := "\\frac{" + n + "}{" + d + "}";
    assert s == [] + ("\\" + tail);
    LatexIsNull(s, [], tail, n, d);
  }

  /** `w\frac{n}{d}` (a LaTeX mixed number) normalises to `null` as well. */
  lemma LatexMixedIsNull(w: string, n: string, d: string)
    requires |w| > 0 && AllDigits(w) && AllDigits(n) && AllDigits(d)
    ensures NormalizeFraction(Str(w + "\\frac{" + n + "}{" + d + "}")) == Null
  {
    var tail := "frac{" + n + "}{" + d + "}";
    var s := w + "\\frac{" + n + "}{" + d + "}";
    assert s == w + ("\\" + tail);
    LatexIsNull(s, w, tail, n, d);
  }

  lemma LatexIsNull(s: string, w: string, tail: string, n: string, d: string)
    requires AllDigits(w) && AllDigits(n) && AllDigits(d)
    requires tail == "frac{" + n + "}{" + d + "}" && s == w + ("\\" + tail)
    ensures NormalizeFraction(Str(s)) == Null
  {
    LatexStripped(s, w, tail, n, d);
    LatexTail(tail, n, d);
    StrippedLatexIsNaN(w, tail);
    NormalizeCleaned(s, w + tail);
  }

  lemma LatexTail(tail: string, n: string, d: string)
    requires tail == "frac{" + n + "}{" + d + "}"
    ensures tail != [] && tail[0] == 'f' && tail[|tail| - 1] == '}'
  {
  }

  /** A non-empty string normalises as the classification of its trimmed, backslash-free text. */
  lemma NormalizeCleaned(s: string, u: string)
    requires s != "" && RemoveBackslashes(Trim(s)) == u
    ensures NormalizeFraction(Str(s)) == Classify(u)
  {
  }

  /** Trimming leaves `w\frac{n}{d}` alone, and deleting backslashes leaves `wfrac{n}{d}`. */
  lemma LatexStripped(s: string, w: string, tail: string, n: string, d: string)
    requires AllDigits(w) && AllDigits(n) && AllDigits(d)
    requires tail == "frac{" + n + "}{" + d + "}" && s == w + ("\\" + tail)
    ensures RemoveBackslashes(Trim(s)) == w + tail
  {
    LatexTrimmed(s, w, tail);
    NoBackslashInDigits(w);
    LatexTailClean(tail, n, d);
    RemoveBackslashesConcat(w, "\\" + tail);
    RemoveBackslashesConcat("\\", tail);
  }

  lemma LatexTailClean(tail: string, n: string, d: string)
    requires AllDigits(n) && AllDigits(d) && tail == "frac{" + n + "}{" + d + "}"
    ensures RemoveBackslashes(tail) == tail
  {
    NoBackslashInDigits(n);
    NoBackslashInDigits(d);
    var open, mid, close := "frac{", "}{", "}";
    assert '\\' !in open && '\\' !in mid && '\\' !in close;
    assert tail == open + n + mid + d + close;
  }

  lemma LatexTrimmed(s: string, w: string, tail: string)
    requires AllDigits(w) && tail != [] && tail[|tail| - 1] == '}' && s == w + ("\\" + tail)
    ensures Trim(s) == s
  {
    assert s[|s| - 1] == '}';
    assert !IsSpace(s[0]) by {
      if |w| > 0 { assert s[0] == w[0] && IsDigit(w[0]); } else { assert s[0] == '\\'; }
    }
  }

  /** `w` then a word starting with `f` (after the backslash is gone) is neither fraction nor number. */
  lemma StrippedLatexIsNaN(w: string, tail: string)
    requires AllDigits(w) && tail != [] && tail[0] == 'f' && tail[|tail| - 1] == '}'
    ensures Classify(w + tail) == Null
  {
    var t := w + tail;
    DigitRunOfConcat(w, tail);
    assert t[|w|..] == tail;
    assert SpaceRun(tail) == 0;
    assert MatchMixed(t) == None;
    assert MatchFraction(t) == None;
    if w == [] {
      assert t == tail;
      LetterStartIsNaN(tail);
    } else {
      assert t[0] == w[0] && IsDigit(w[0]);
      assert t[|t| - 1] == '}';
      DigitsThenLetterIsNaN(w, tail);
    }
  }

  lemma NoBackslashInDigits(s: string)
    requires AllDigits(s)
    ensures '\\' !in s && RemoveBackslashes(s) == s
  {
    assert forall k :: 0 <= k < |s| ==> IsDigit(s[k]);
  }

  /** Text that is not a number at all gives `null`: "abc", "-3/2" and "frac{3}{2}". */
  lemma NonNumbersAreNull()
    ensures NormalizeFraction(Str("abc")) == Null
    ensures NormalizeFraction(Str("-3/2")) == Null
    ensures NormalizeFraction(Str("frac{3}{2}")) == Null
  {
    WordIsNull();
    LatexWordIsNull();
    NegativeFraction("-3/2");
  }

  lemma WordIsNull()
    ensures NormalizeFraction(Str("abc")) == Null
  {
    LetterText("abc");
  }

  lemma LatexWordIsNull()
    ensures NormalizeFraction(Str("frac{3}{2}")) == Null
  {
    LetterText("frac{3}{2}");
  }

  lemma LetterText(s: string)
    requires s != [] && 'a' <= s[0] <= 'z' && !IsSpace(s[|s| - 1]) && '\\' !in s
    ensures NormalizeFraction(Str(s)) == Null
  {
    CleanText(s);
    assert DigitRun(s) == 0;
    LetterStartIsNaN(s);
  }

  lemma NegativeFraction(s: string)
    requires s == "-3/2"
    ensures NormalizeFraction(Str(s)) == Null
  {
    CleanText(s);
    assert DigitRun(s) == 0;
    NegativeFractionIsNaN(s);
  }

  lemma NegativeFractionIsNaN(s: string)
    requires s == "-3/2"
    ensures StringToNumber(s) == NaN
  {
    assert Trim(s) == s;
    assert NonDecimalLiteral(s) == None;
    var u := s[1..];
    assert u == "3/2";
    assert u != "Infinity";
    assert DigitRun(u) == 1 by { assert DigitRun(u[1..]) == 0; }
    assert u[1..] == "/2";
    assert Exponent(u[1..]) == None;
  }

  /** Any other digit string is neither a mixed number nor a fraction, and `Number(s)` gives its value. */
  lemma DigitsNormalise(d: string)
    requires |d| > 0 && AllDigits(d)
    ensures NormalizeFraction(Str(d)) == Num(Finite(DigitsValue(d) as real))
  {
    DigitsHaveNoSpace(d);
    NoBackslashInDigits(d);
    CleanText(d);
    assert DigitRun(d) == |d| by {
      if DigitRun(d) < |d| { assert IsDigit(d[DigitRun(d)]); }
    }
    assert d[|d|..] == [];
    assert MatchMixed(d) == None;
    assert MatchFraction(d) == None;
    DigitsToNumber(d);
  }

  /** Blank text other than '' passes the guard, trims to '' and `Number('')` makes it 0. */
  lemma WhitespaceIsZero(s: string)
    requires s != [] && AllSpaces(s)
    ensures NormalizeFraction(Str(s)) == Num(Finite(0.0))
  {
    assert Trim(s) == [];
    assert RemoveBackslashes([]) == [];
    assert MatchMixed([]) == None;
  }
}
