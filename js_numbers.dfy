/**
 * The JavaScript number values the web client handles: the integers
 * `parseInt(_, 10)` produces, or `NaN` when the text holds no digits, and
 * their rendering inside a template literal.
 */
module JsNumbers {
  import Text

  /** A JavaScript number as far as the client produces them: an integer or `NaN`. */
  datatype JsNumber = Num(n: int) | NaN

  /** The white space `parseInt` skips: ECMAScript's WhiteSpace and LineTerminator characters. */
  predicate IsJsSpace(c: char)
  {
    var u := c as int;
    (9 <= u <= 13) || u == 0x20 || u == 0xA0 || u == 0x1680
    || (0x2000 <= u <= 0x200A) || u == 0x2028 || u == 0x2029 || u == 0x202F
    || u == 0x205F || u == 0x3000 || u == 0xFEFF
  }

  function TrimJsSpace(s: string): (r: string)
    ensures |r| <= |s| && r == s[|s| - |r|..]
    ensures r == [] || !IsJsSpace(r[0])
    decreases |s|
  {
    if |s| > 0 && IsJsSpace(s[0]) then TrimJsSpace(s[1..]) else s
  }

  /** The longest prefix of decimal digits. */
  function DigitPrefix(s: string): (r: string)
    ensures |r| <= |s| && Text.AllDigits(r) && r == s[..|r|]
    ensures |r| == |s| || !Text.IsDigit(s[|r|])
    decreases |s|
  {
    if |s| > 0 && Text.IsDigit(s[0]) then [s[0]] + DigitPrefix(s[1..]) else []
  }

  /**
   * `parseInt(s, 10)`: leading white space skipped, an optional sign, then
   * as many decimal digits as follow; `NaN` when there are none.
   */
  function ParseInt(s: string): JsNumber
  {
    var t := TrimJsSpace(s);
    var digits := DigitPrefix(SignFree(t));
    if digits == [] then NaN
    else if |t| > 0 && t[0] == '-' then Num(-(Text.DigitsValue(digits) as int))
    else Num(Text.DigitsValue(digits))
  }

  /** The text after an optional leading sign. */
  function SignFree(t: string): string
  {
    if |t| > 0 && (t[0] == '-' || t[0] == '+') then t[1..] else t
  }

  /** `${x}` of a number: its decimal notation, or "NaN". */
  function NumText(x: JsNumber): (s: string)
    ensures x.NaN? ==> s == "NaN"
    ensures x.Num? ==> s == Text.IntToString(x.n)
  {
    match x
    case Num(i) => Text.IntToString(i)
    case NaN => "NaN"
  }

  lemma {:induction false} DigitPrefixAll(s: string)
    requires Text.AllDigits(s)
    ensures DigitPrefix(s) == s
    decreases |s|
  {
    if |s| > 0 {
      DigitPrefixAll(s[1..]);
    }
  }

  /** `parseInt` reads back the decimal notation of every integer. */
  lemma ParseIntRoundTrip(i: int)
    ensures ParseInt(Text.IntToString(i)) == Num(i)
  {
    var s := Text.IntToString(i);
    var m: nat := if i < 0 then -i else i;
    var digits := Text.NatToString(m);
    assert s == (if i < 0 then "-" else "") + digits;
    assert TrimJsSpace(s) == s by {
      assert !IsJsSpace(s[0]);
    }
    assert SignFree(s) == digits;
    DigitPrefixAll(digits);
    Text.NatToStringRoundTrip(m);
  }

  /** Rendering a number and reading it back with `parseInt` gives the number, `NaN` included. */
  lemma NumTextRoundTrip(x: JsNumber)
    ensures ParseInt(NumText(x)) == x
  {
    if x.Num? {
      ParseIntRoundTrip(x.n);
    } else {
      assert DigitPrefix(SignFree(TrimJsSpace("NaN"))) == [];
    }
  }
}
