/** The JavaScript values the modelled code handles: numbers that may be NaN,
    the cells of a row (a number or a string), thrown errors, and the
    `Number(string)` and number-to-string conversions. */
module Js {
  import opened Text

  /** A JavaScript number as the modelled code produces it: an integer or NaN. */
  datatype Num = Int(value: int) | NaN

  /** One cell of a heterogeneous JavaScript array (a row tuple). */
  datatype Value = Number(num: Num) | Str(text: string)

  /** What the modelled code throws. */
  datatype Error =
    | TypeError            // a property read on `undefined` (e.g. `split(...)[1].trim()`)
    | Thrown(message: string)

  /** A value that may be `undefined`. */
  datatype Option<+T> = None | Some(value: T)

  /** The outcome of code that may throw. */
  datatype Result<+T> = Ok(value: T) | Err(error: Error) {
    predicate IsFailure() { Err? }
    function PropagateFailure<U>(): Result<U> requires Err? { Err(error) }
    function Extract(): T requires Ok? { value }
  }

  predicate IsDigit(c: char) { '0' <= c <= '9' }

  predicate AllDigits(s: string) {
    forall k :: 0 <= k < |s| ==> IsDigit(s[k])
  }

  /** The value of a string of decimal digits. */
  function DigitsValue(s: string): nat
    requires AllDigits(s)
    decreases |s|
  {
    if s == [] then 0
    else DigitsValue(s[..|s| - 1]) * 10 + ((s[|s| - 1] as int) - ('0' as int))
  }

  /** The decimal digits of a natural number, without leading zeros. */
  function NatToString(n: nat): (r: string)
    ensures |r| >= 1 && AllDigits(r)
    ensures r[0] != '0' || n == 0
    decreases n
  {
    if n < 10 then [(('0' as int) + n) as char]
    else NatToString(n / 10) + [(('0' as int) + n % 10) as char]
  }

  /** `String(n)` for an integer. */
  function IntToString(n: int): string {
    if n < 0 then "-" + NatToString(-n) else NatToString(n)
  }

  /** The text JavaScript gives a number in a template literal. */
  function NumToString(x: Num): string {
    match x
    case Int(n) => IntToString(n)
    case NaN => "NaN"
  }

  /** `Number(s)` on a string: surrounding white space is ignored, the empty
      string is 0, an optionally signed run of decimal digits is its value, and
      anything else is NaN. */
  function ToNumber(s: string): Num {
    var t := Trim(s);
    if t == "" then Int(0)
    else if AllDigits(t) then Int(DigitsValue(t))
    else if |t| > 1 && t[0] == '-' && AllDigits(t[1..]) then Int(-(DigitsValue(t[1..]) as int))
    else if |t| > 1 && t[0] == '+' && AllDigits(t[1..]) then Int(DigitsValue(t[1..]))
    else NaN
  }

  /** Reading back a printed natural number gives the number. */
  lemma {:induction false} DigitsOfNat(n: nat)
    ensures DigitsValue(NatToString(n)) == n
    decreases n
  {
    var s := NatToString(n);
    if n >= 10 {
      DigitsOfNat(n / 10);
      assert s[..|s| - 1] == NatToString(n / 10);
    }
  }

  /** `Number(String(n)) == n` for every integer. */
  lemma ToNumberOfIntToString(n: int)
    ensures ToNumber(IntToString(n)) == Int(n)
  {
    var s := IntToString(n);
    var d := NatToString(if n < 0 then -n else n);
    DigitsOfNat(if n < 0 then -n else n);
    assert !IsSpace(d[0]) && !IsSpace(d[|d| - 1]);
    TrimNoSpace(s);
    if n < 0 {
      assert s[1..] == d;
      assert !AllDigits(s) by { assert !IsDigit(s[0]); }
    }
  }

  /** A word that starts with neither a digit nor a sign, and neither starts
      nor ends with white space, is not a number. */
  lemma NaNOfWord(s: string)
    requires s != [] && !IsSpace(s[0]) && !IsSpace(s[|s| - 1])
    requires !IsDigit(s[0]) && s[0] != '-' && s[0] != '+'
    ensures ToNumber(s).NaN?
  {
    TrimNoSpace(s);
  }

  /** Reading back the text of a number gives the number, NaN included. */
  lemma ToNumberOfNumToString(x: Num)
    ensures ToNumber(NumToString(x)) == x
  {
    match x
    case Int(n) => ToNumberOfIntToString(n);
    case NaN => NaNOfWord("NaN");
  }

  /** The text of a number holds only digits, the minus sign and the
      letters of `NaN`. */
  lemma NumTextAvoids(x: Num, c: char)
    requires !IsDigit(c) && c != '-' && c != 'N' && c != 'a'
    ensures c !in NumToString(x)
  {
    match x
    case Int(n) =>
      var d := NatToString(if n < 0 then -n else n);
      assert c !in d;
    case NaN =>
  }
}
