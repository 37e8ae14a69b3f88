/** The JavaScript values an auto-generated edit form can hold, and the two
    coercions the views apply to them: `Number(v)` and `String(v)`. Numbers are
    integers here; `NaN` is the absent result of `ToNumber`. */
module JsValues {
  import opened Basics
  import Text

  datatype Value = Str(s: string) | Num(n: int) | Bool(b: bool) | Null

  predicate IsDigit(c: char) {
    '0' <= c <= '9'
  }

  predicate AllDigits(s: string) {
    forall i :: 0 <= i < |s| ==> IsDigit(s[i])
  }

  function DigitChar(d: nat): (c: char)
    requires d < 10
    ensures IsDigit(c)
  {
    ('0' as int + d) as char
  }

  /** The value of a run of decimal digits, most significant first. */
  function DigitsValue(s: string): nat
    requires AllDigits(s)
  {
    if |s| == 0 then 0
    else DigitsValue(s[..|s| - 1]) * 10 + (s[|s| - 1] as int - '0' as int)
  }

  /** The decimal spelling of a natural number, without leading zeros. */
  function NatToString(n: nat): (r: string)
    ensures |r| > 0 && AllDigits(r)
    ensures DigitsValue(r) == n
  {
    if n < 10 then
      [DigitChar(n)]
    else
      var init := NatToString(n / 10);
      var r := init + [DigitChar(n % 10)];
      assert r[..|r| - 1] == init;
      r
  }

  /** `String(n)` for an integer. */
  function IntToString(n: int): (r: string)
    ensures |r| > 0
    ensures forall i :: 0 <= i < |r| ==> !Text.IsSpace(r[i])
  {
    if n < 0 then "-" + NatToString(-n) else NatToString(n)
  }

  /** `Number(s)` for a string: surrounding white space is ignored, a blank string
      is 0, an optionally signed run of decimal digits is its value, and anything
      else is `NaN` (`None`). */
  function ParseNumber(s: string): (r: Option<int>)
    ensures (forall i :: 0 <= i < |s| ==> Text.IsSpace(s[i])) ==> r == Some(0)
  {
    var t := Text.Trim(s);
    if t == "" then Some(0)
    else if t[0] == '-' && |t| > 1 && AllDigits(t[1..]) then Some(0 - DigitsValue(t[1..]) as int)
    else if t[0] == '+' && |t| > 1 && AllDigits(t[1..]) then Some(DigitsValue(t[1..]))
    else if AllDigits(t) then Some(DigitsValue(t))
    else None
  }

  /** Reading back what `String` wrote gives the number again. */
  lemma ParseIntToString(n: int)
    ensures ParseNumber(IntToString(n)) == Some(n)
  {
    var s := IntToString(n);
    assert Text.Trim(s) == s by {
      assert !Text.IsSpace(s[0]);
      assert Text.TrimStart(s) == s;
    }
    if n < 0 {
      assert s[1..] == NatToString(-n);
    }
  }

  /** `Number(v)`. */
  function ToNumber(v: Value): Option<int> {
    match v
    case Str(s) => ParseNumber(s)
    case Num(n) => Some(n)
    case Bool(b) => Some(if b then 1 else 0)
    case Null => Some(0)
  }

  /** `String(v)`. */
  function ToStr(v: Value): (r: string)
    ensures !v.Str? ==> |r| > 0 && !Text.IsSpace(r[0])
  {
    match v
    case Str(s) => s
    case Num(n) => IntToString(n)
    case Bool(b) => if b then "true" else "false"
    case Null => "null"
  }

  /** `Number(String(v))` is `v` for every number: the string form loses nothing. */
  lemma NumberStringRoundTrip(n: int)
    ensures ToNumber(Str(ToStr(Num(n)))) == Some(n)
  {
    ParseIntToString(n);
  }
}
