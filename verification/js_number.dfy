/**
 The part of JavaScript's loose equality the limit test relies on. The script
 compares the response count, a number, with a limit that may be the text of
 an answer; `==` then converts the text to a number. Only the conversions of
 plain decimal text are modelled here: the empty text is 0, a run of ASCII
 digits is its decimal value, and every other text is treated as a value no
 count equals.
 */
module JsNumber {
  import opened FormModel

  predicate IsDigit(ch: char)
  {
    '0' <= ch <= '9'
  }

  predicate AllDigits(s: string)
  {
    forall i :: 0 <= i < |s| ==> IsDigit(s[i])
  }

  /** The decimal value of a digit string, most significant digit first. */
  function DigitsValue(s: string): nat
    requires AllDigits(s)
    decreases |s|
  {
    if |s| == 0 then 0 else 10 * DigitsValue(s[..|s| - 1]) + (s[|s| - 1] as int - '0' as int)
  }

  /** The number a text converts to, when it is one of the modelled forms. */
  function ToNumber(s: string): Option<nat>
  {
    if AllDigits(s) then Some(DigitsValue(s)) else None
  }

  /** `count == text` with the number on the left and the text on the right. */
  predicate LooseEquals(count: nat, text: string)
  {
    ToNumber(text) == Some(count)
  }

  /** The shortest decimal text of a natural number. */
  function ShowDecimal(n: nat): (s: string)
    ensures |s| > 0 && AllDigits(s)
    ensures s[0] == '0' ==> n == 0
    decreases n
  {
    var d := ['0' + (n % 10) as char];
    if n < 10 then d else ShowDecimal(n / 10) + d
  }

  /** Decimal text converts back to the number it shows. */
  lemma {:induction false} ToNumberShowDecimal(n: nat)
    ensures ToNumber(ShowDecimal(n)) == Some(n)
    decreases n
  {
    var s := ShowDecimal(n);
    assert s[|s| - 1] as int - '0' as int == n % 10;
    assert DigitsValue(s) == 10 * DigitsValue(s[..|s| - 1]) + n % 10;
    if n >= 10 {
      ToNumberShowDecimal(n / 10);
      assert s[..|s| - 1] == ShowDecimal(n / 10);
    } else {
      assert s[..|s| - 1] == [];
    }
  }

  /** Leading zeros do not change the converted number. */
  lemma {:induction false} LeadingZeroIgnored(s: string)
    requires AllDigits(s)
    ensures ToNumber("0" + s) == ToNumber(s)
    decreases |s|
  {
    var z := "0" + s;
    assert AllDigits(z);
    if |s| > 0 {
      assert z[..|z| - 1] == "0" + s[..|s| - 1];
      LeadingZeroIgnored(s[..|s| - 1]);
    }
  }

  /** The empty answer compares equal to a count of zero only. */
  lemma EmptyTextIsZero(count: nat)
    ensures LooseEquals(count, "") <==> count == 0
  {
  }

  /** A count equals the text showing it, and no other count does. */
  lemma LooseEqualsShowDecimal(count: nat, n: nat)
    ensures LooseEquals(count, ShowDecimal(n)) <==> count == n
  {
    ToNumberShowDecimal(n);
  }
}
