/**
 * Approach times and their text form. A close approach time is kept to the
 * minute: the data never carries seconds, and the serialised form
 * `%Y-%m-%d %H:%M` drops them.
 */
module Timestamps {
  import opened Wrappers

  datatype Timestamp = Timestamp(year: nat, month: nat, day: nat, hour: nat, minute: nat)

  /** The field ranges a Python `datetime` enforces (month lengths aside). */
  predicate IsDatetime(t: Timestamp) {
    1 <= t.year <= 9999 && 1 <= t.month <= 12 && 1 <= t.day <= 31 && t.hour <= 23 && t.minute <= 59
  }

  predicate IsDigit(c: char) {
    '0' <= c <= '9'
  }

  predicate AllDigits(s: string) {
    forall i :: 0 <= i < |s| ==> IsDigit(s[i])
  }

  function Pow10(n: nat): (p: nat)
    ensures p >= 1
  {
    if n == 0 then 1 else 10 * Pow10(n - 1)
  }

  /** The last `width` decimal digits of `n`, padded on the left with zeros. */
  function Digits(n: nat, width: nat): (s: string)
    ensures |s| == width && AllDigits(s)
  {
    if width == 0 then [] else Digits(n / 10, width - 1) + [('0' as int + n % 10) as char]
  }

  /** The number a string of decimal digits denotes. */
  function ValueOf(s: string): nat
    requires AllDigits(s)
  {
    if s == [] then 0 else 10 * ValueOf(s[..|s| - 1]) + (s[|s| - 1] as int - '0' as int)
  }

  lemma {:induction false} ValueOfDigits(n: nat, width: nat)
    requires n < Pow10(width)
    ensures ValueOf(Digits(n, width)) == n
  {
    if width > 0 {
      var s := Digits(n, width);
      assert s[..|s| - 1] == Digits(n / 10, width - 1);
      assert n / 10 < Pow10(width - 1);
      ValueOfDigits(n / 10, width - 1);
    }
  }

  lemma {:induction false} DigitsOfValue(s: string)
    requires AllDigits(s)
    ensures Digits(ValueOf(s), |s|) == s
  {
    if s != [] {
      var p := s[..|s| - 1];
      var d := s[|s| - 1] as int - '0' as int;
      var v := ValueOf(s);
      assert v == 10 * ValueOf(p) + d && 0 <= d < 10;
      assert v / 10 == ValueOf(p) && v % 10 == d;
      DigitsOfValue(p);
      assert s == p + [s[|s| - 1]];
    }
  }

  /** `strftime('%Y-%m-%d %H:%M')`: sixteen characters, no seconds. */
  function Format(t: Timestamp): (s: string)
    ensures |s| == 16
  {
    Digits(t.year, 4) + "-" + Digits(t.month, 2) + "-" + Digits(t.day, 2) + " "
      + Digits(t.hour, 2) + ":" + Digits(t.minute, 2)
  }

  /** Reads back the text `Format` writes; anything else is rejected. */
  function Parse(s: string): Option<Timestamp> {
    if |s| == 16 && s[4] == '-' && s[7] == '-' && s[10] == ' ' && s[13] == ':'
       && AllDigits(s[..4]) && AllDigits(s[5..7]) && AllDigits(s[8..10])
       && AllDigits(s[11..13]) && AllDigits(s[14..])
    then Some(Timestamp(ValueOf(s[..4]), ValueOf(s[5..7]), ValueOf(s[8..10]),
                        ValueOf(s[11..13]), ValueOf(s[14..])))
    else None
  }

  /** Every datetime survives formatting and re-reading. */
  lemma ParseFormat(t: Timestamp)
    requires IsDatetime(t)
    ensures Parse(Format(t)) == Some(t)
  {
    var s := Format(t);
    assert s[..4] == Digits(t.year, 4);
    assert s[5..7] == Digits(t.month, 2);
    assert s[8..10] == Digits(t.day, 2);
    assert s[11..13] == Digits(t.hour, 2);
    assert s[14..] == Digits(t.minute, 2);
    ValueOfDigits(t.year, 4);
    ValueOfDigits(t.month, 2);
    ValueOfDigits(t.day, 2);
    ValueOfDigits(t.hour, 2);
    ValueOfDigits(t.minute, 2);
  }

  /** Whatever `Parse` accepts is exactly what `Format` writes for the result. */
  lemma FormatParse(s: string)
    requires Parse(s).Some?
    ensures Format(Parse(s).value) == s
  {
    DigitsOfValue(s[..4]);
    DigitsOfValue(s[5..7]);
    DigitsOfValue(s[8..10]);
    DigitsOfValue(s[11..13]);
    DigitsOfValue(s[14..]);
    assert s == s[..4] + "-" + s[5..7] + "-" + s[8..10] + " " + s[11..13] + ":" + s[14..];
  }
}
