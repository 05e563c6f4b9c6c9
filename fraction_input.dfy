/**
 * The structured fraction input: three text fields (whole, numerator,
 * denominator) kept in sync with the single answer string the scoring
 * engine reads. `ParseValue` splits an answer string into the fields and
 * `Emit` joins the fields back into the string handed to `onChange`.
 */
module FractionInput {
  import opened JsNumber
  import opened JsValue
  import opened Normalize

  // ----- String.prototype.split with a one-character separator -----

  /** The position of the first `c` in `s`. */
  function IndexOf(s: string, c: char): (i: nat)
    requires c in s
    ensures i < |s| && s[i] == c && c !in s[..i]
  {
    if s[0] == c then 0
    else
      var i := 1 + IndexOf(s[1..], c);
      assert s[..i] == [s[0]] + s[1..][..i - 1];
      i
  }

  /** `s.split(c)`: the pieces between the occurrences of `c`, in order. */
  function Split(s: string, c: char): (pieces: seq<string>)
    ensures |pieces| >= 1
    ensures c in s <==> |pieces| >= 2
    ensures forall i :: 0 <= i < |pieces| ==> c !in pieces[i]
    decreases |s|
  {
    if c !in s then [s]
    else
      var i := IndexOf(s, c);
      [s[..i]] + Split(s[i + 1..], c)
  }

  /** `pieces.join(c)`. */
  function Join(pieces: seq<string>, c: char): string
    requires |pieces| >= 1
  {
    if |pieces| == 1 then pieces[0] else pieces[0] + [c] + Join(pieces[1..], c)
  }

  /** Joining the pieces of a split gives back the string. */
  lemma {:induction false} JoinSplit(s: string, c: char)
    ensures Join(Split(s, c), c) == s
    decreases |s|
  {
    if c in s {
      var i := IndexOf(s, c);
      JoinSplit(s[i + 1..], c);
      assert s == s[..i] + [c] + s[i + 1..];
    }
  }

  /** A character missing from `s` is missing from every piece of its split. */
  lemma {:induction false} SplitKeepsOut(s: string, c: char, x: char)
    requires x !in s
    ensures forall i :: 0 <= i < |Split(s, c)| ==> x !in Split(s, c)[i]
    decreases |s|
  {
    if c in s {
      var i := IndexOf(s, c);
      assert x !in s[i + 1..];
      SplitKeepsOut(s[i + 1..], c, x);
    }
  }

  /** Splitting a string with exactly one separator gives the two sides. */
  lemma SplitOnce(a: string, b: string, c: char)
    requires c !in a && c !in b
    ensures Split(a + [c] + b, c) == [a, b]
  {
    var s := a + [c] + b;
    assert s[|a|] == c;
    assert s[..|a|] == a;
    assert s[|a| + 1..] == b;
  }

  // ----- the component -----

  /** The three input fields. */
  datatype Parts = Parts(whole: string, num: string, den: string)

  const Empty := Parts("", "", "")

  /**
   * `parseValue`: a value with a space is `whole` then a fraction, a value
   * with a slash is a fraction, anything else is a numerator alone.
   */
  function ParseValue(val: string): (p: Parts)
    ensures ' ' !in p.whole && ' ' !in p.num && ' ' !in p.den
    ensures '/' !in p.num && '/' !in p.den
    ensures val == "" ==> p == Empty
    ensures ' ' !in val && '/' !in val ==> p == Parts("", val, "")
  {
    if val == "" then Empty
    else if ' ' in val then
      var pieces := Split(val, ' ');
      var f := pieces[1];
      if '/' in f then
        var q := Split(f, '/');
        SplitKeepsOut(f, '/', ' ');
        Parts(pieces[0], q[0], q[1])
      else Parts(pieces[0], "", "")
    else if '/' in val then
      var q := Split(val, '/');
      SplitKeepsOut(val, '/', ' ');
      Parts("", q[0], q[1])
    else Parts("", val, "")
  }

  /** The three kinds of string `handlePartChange` builds, before trimming. */
  function Combine(p: Parts, mixed: bool): (c: string)
    ensures !(mixed && p.whole != "") ==> p.num <= c
    ensures !(mixed && p.whole != "") && (p.num == "" || p.den == "") ==> c == p.num
    ensures (mixed && p.whole != "") || (p.num != "" && p.den != "") ==> '/' in c
    ensures !mixed ==> |c| <= |p.num| + 1 + |p.den|
  {
    if mixed && p.whole != "" then p.whole + " " + p.num + "/" + p.den
    else if p.num != "" && p.den != "" then p.num + "/" + p.den
    else p.num
  }

  /** The string passed to `onChange`. */
  function Emit(p: Parts, mixed: bool): (s: string)
    ensures NoSpaceAtEnds(s)
  {
    Trim(Combine(p, mixed))
  }

  /** Which field an edit is in. */
  datatype Field = WholeField | NumField | DenField

  /** The text of one field. */
  function FieldOf(p: Parts, key: Field): string {
    match key
    case WholeField => p.whole
    case NumField => p.num
    case DenField => p.den
  }

  function WithField(p: Parts, key: Field, val: string): (q: Parts)
    ensures FieldOf(q, key) == val
    ensures forall other :: other != key ==> FieldOf(q, other) == FieldOf(p, other)
  {
    match key
    case WholeField => p.(whole := val)
    case NumField => p.(num := val)
    case DenField => p.(den := val)
  }

  /** A field contains neither white space nor a slash. */
  predicate Plain(s: string) {
    forall i :: 0 <= i < |s| ==> !IsSpace(s[i]) && s[i] != '/'
  }

  /** A plain field contains neither separator and is left alone by trimming. */
  lemma PlainHasNoSeparator(s: string)
    requires Plain(s)
    ensures ' ' !in s && '/' !in s && NoSpaceAtEnds(s)
  {
    assert IsSpace(' ');
  }

  /** `n/d` parses back to its numerator and denominator. */
  lemma ParseFraction(n: string, d: string)
    requires Plain(n) && Plain(d)
    ensures ParseValue(n + "/" + d) == Parts("", n, d)
  {
    PlainHasNoSeparator(n);
    PlainHasNoSeparator(d);
    var s := n + "/" + d;
    assert s == n + ['/'] + d;
    assert ' ' !in s by {
      forall i | 0 <= i < |s| ensures s[i] != ' ' {
        if i < |n| { assert s[i] == n[i]; }
        else if i > |n| { assert s[i] == d[i - |n| - 1]; }
      }
    }
    SplitOnce(n, d, '/');
  }

  /** `w n/d` parses back to its three parts. */
  lemma ParseMixed(w: string, n: string, d: string)
    requires Plain(w) && Plain(n) && Plain(d) && w != ""
    ensures ParseValue(w + " " + n + "/" + d) == Parts(w, n, d)
  {
    PlainHasNoSeparator(w);
    PlainHasNoSeparator(n);
    PlainHasNoSeparator(d);
    var f := n + "/" + d;
    var s := w + " " + n + "/" + d;
    assert s == w + [' '] + f;
    assert ' ' !in f by {
      forall i | 0 <= i < |f| ensures f[i] != ' ' {
        if i < |n| { assert f[i] == n[i]; }
        else if i > |n| { assert f[i] == d[i - |n| - 1]; }
      }
    }
    SplitOnce(w, f, ' ');
    assert f == n + ['/'] + d;
    SplitOnce(n, d, '/');
  }

  /**
   * Emitting the fields and parsing the string again gives the same fields,
   * as long as the fields hold no spaces or slashes, a whole part only
   * appears in the mixed form, and a lone denominator is not pending.
   */
  lemma RoundTrip(p: Parts, mixed: bool)
    requires Plain(p.whole) && Plain(p.num) && Plain(p.den)
    requires p.whole != "" ==> mixed
    requires p.whole == "" ==> p.num != "" || p.den == ""
    ensures ParseValue(Emit(p, mixed)) == p
  {
    var s := Combine(p, mixed);
    if mixed && p.whole != "" {
      assert NoSpaceAtEnds(s) by {
        PlainHasNoSeparator(p.whole);
        assert s[0] == p.whole[0];
        assert s[|s| - 1] == (if p.den == "" then '/' else p.den[|p.den| - 1]);
      }
      ParseMixed(p.whole, p.num, p.den);
    } else if p.num != "" && p.den != "" {
      assert NoSpaceAtEnds(s) by {
        assert s[0] == p.num[0];
        assert s[|s| - 1] == p.den[|p.den| - 1];
      }
      ParseFraction(p.num, p.den);
    } else {
      PlainHasNoSeparator(p.num);
    }
  }

  /** A denominator typed before any numerator is emitted as the empty string, so parsing the emitted value drops it. */
  lemma LoneDenominatorIsLost(den: string)
    requires den != ""
    ensures Emit(Parts("", "", den), false) == ""
    ensures ParseValue(Emit(Parts("", "", den), false)) == Empty != Parts("", "", den)
  {
  }

  /** A whole part typed before the fraction is emitted as `w /`, which parses back to the whole part alone. */
  lemma WholeBeforeFraction(w: string)
    requires w != "" && Plain(w)
    ensures Emit(Parts(w, "", ""), true) == w + " /"
    ensures ParseValue(Emit(Parts(w, "", ""), true)) == Parts(w, "", "")
  {
    var c := Combine(Parts(w, "", ""), true);
    assert c == w + " /";
    assert NoSpaceAtEnds(c) by {
      PlainHasNoSeparator(w);
      assert c[0] == w[0] && c[|c| - 1] == '/';
    }
    assert Emit(Parts(w, "", ""), true) == c;
    RoundTrip(Parts(w, "", ""), true);
  }

  /** Numerator and denominator digits are emitted as a fraction that the normaliser reads as their quotient. */
  lemma EmittedFractionValue(n: string, d: string)
    requires |n| > 0 && AllDigits(n) && |d| > 0 && AllDigits(d)
    ensures Emit(Parts("", n, d), false) == n + "/" + d
    ensures NormalizeFraction(Str(Emit(Parts("", n, d), false))) == Num(FractionValue(n, d))
  {
    FractionIsClean(n, d);
    NormalizeSimpleFraction(n, d);
  }

  /** Whole, numerator and denominator digits are emitted as a mixed number that the normaliser reads as whole plus quotient. */
  lemma EmittedMixedValue(w: string, n: string, d: string)
    requires |w| > 0 && AllDigits(w) && |n| > 0 && AllDigits(n) && |d| > 0 && AllDigits(d)
    ensures Emit(Parts(w, n, d), true) == w + " " + (n + "/" + d)
    ensures NormalizeFraction(Str(Emit(Parts(w, n, d), true)))
         == Num(Add(Finite(DigitsValue(w) as real), FractionValue(n, d)))
  {
    var s := w + " " + (n + "/" + d);
    assert Combine(Parts(w, n, d), true) == s;
    assert MixedShape(s, w, " ", n, d);
    MixedIsClean(s, w, " ", n, d);
    NormalizeMixedNumber(s, w, " ", n, d);
  }

  /** The input's field state. */
  class Input {
    const mixed: bool
    var parts: Parts

    /** The fields start from the parsed `value`. */
    constructor (value: string, fractionOrMixed: bool)
      ensures mixed == fractionOrMixed && parts == ParseValue(value)
    {
      mixed := fractionOrMixed;
      parts := ParseValue(value);
    }

    /** The effect on `value`: the fields are re-parsed whenever the value changes. */
    method SyncValue(value: string)
      modifies this
      ensures parts == ParseValue(value)
    {
      parts := ParseValue(value);
    }

    /** `handlePartChange`: store the edited field and return the string passed to `onChange`. */
    method HandlePartChange(key: Field, val: string) returns (emitted: string)
      modifies this
      ensures parts == WithField(old(parts), key, val)
      ensures emitted == Emit(parts, mixed)
    {
      var p := WithField(parts, key, val);
      parts := p;
      var combined := "";
      if mixed && p.whole != "" {
        combined := p.whole + " " + p.num + "/" + p.den;
      } else if p.num != "" && p.den != "" {
        combined := p.num + "/" + p.den;
      } else {
        combined := p.num;
      }
      emitted := Trim(combined);
    }
  }
}
