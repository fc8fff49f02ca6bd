/** The Python value semantics the two programs rely on: dictionary lookups with
    and without a default, truthiness of optional integers, `str()` of an integer,
    and `str.upper()` on ASCII text. */
module PyValues {

  datatype Option<+T> = None | Some(value: T)

  /** One key of a Python dict, where it matters whether the key is there at all:
      missing, mapped to None, or mapped to a value. */
  datatype Field<+T> = Absent | Null | Present(value: T)

  /** `d.get(key)`: a missing key and a None value both read as None. */
  function Get<T>(f: Field<T>): Option<T>
  {
    if f.Present? then Some(f.value) else None
  }

  /** `d.get(key, default)`: only a missing key falls back to the default;
      a key mapped to None still gives None. */
  function GetOr<T>(f: Field<T>, default: T): Option<T>
  {
    match f
    case Absent => Some(default)
    case Null => None
    case Present(v) => Some(v)
  }

  /** `key in d` */
  predicate HasKey<T>(f: Field<T>)
  {
    !f.Absent?
  }

  /** Truthiness of a value that is None or an integer: None and 0 are falsy. */
  predicate Truthy(x: Option<int>)
  {
    x.Some? && x.value != 0
  }

  // ---------------------------------------------------------------------------
  // Decimal text of integers, as `str(n)` writes it

  predicate IsDigit(c: char)
  {
    '0' <= c <= '9'
  }

  predicate AllDigits(s: string)
  {
    forall i :: 0 <= i < |s| ==> IsDigit(s[i])
  }

  function Digit(d: nat): (c: char)
    requires d < 10
    ensures IsDigit(c)
  {
    (48 + d) as char
  }

  function DigitValue(c: char): (d: nat)
    requires IsDigit(c)
    ensures d < 10
  {
    c as int - 48
  }

  /** `str(n)` for a non-negative integer: decimal digits, no leading zero. */
  function NatToString(n: nat): (s: string)
    ensures |s| >= 1 && AllDigits(s)
    ensures s[0] == '0' <==> n == 0
    decreases n
  {
    if n < 10 then [Digit(n)] else NatToString(n / 10) + [Digit(n % 10)]
  }

  /** `int(s)` for a string of decimal digits. */
  function ParseNat(s: string): nat
    requires AllDigits(s)
  {
    if s == [] then 0 else ParseNat(s[..|s| - 1]) * 10 + DigitValue(s[|s| - 1])
  }

  /** Reading back the decimal text of a number gives the number. */
  lemma {:induction false} ParseNatToString(n: nat)
    ensures ParseNat(NatToString(n)) == n
    decreases n
  {
    var s := NatToString(n);
    if n >= 10 {
      ParseNatToString(n / 10);
      assert s[..|s| - 1] == NatToString(n / 10);
    }
  }

  /** `str(i)` for any integer: a minus sign, then the digits of the magnitude. */
  function IntToString(i: int): (s: string)
    ensures |s| >= 1
  {
    if i < 0 then "-" + NatToString(-i) else NatToString(i)
  }

  /** `int(s)` restricted to what `str` produces: an optional minus sign, then digits
      with no leading zero (a lone `0` aside), and no `-0`. */
  function ParseInt(s: string): Option<int>
  {
    if |s| >= 2 && s[0] == '-' && AllDigits(s[1..]) && s[1] != '0' then Some(0 - ParseNat(s[1..]) as int)
    else if |s| >= 1 && AllDigits(s) && (s[0] != '0' || |s| == 1) then Some(ParseNat(s))
    else None
  }

  /** Digits with a non-zero lead stand for a positive number. */
  lemma {:induction false} ParseNatPositive(s: string)
    requires |s| >= 1 && AllDigits(s) && s[0] != '0'
    ensures ParseNat(s) >= 1
    decreases |s|
  {
    if |s| > 1 {
      ParseNatPositive(s[..|s| - 1]);
    }
  }

  /** Digits with no leading zero are the text `str` writes for their value. */
  lemma {:induction false} NatToStringOfParse(s: string)
    requires |s| >= 1 && AllDigits(s) && (s[0] != '0' || |s| == 1)
    ensures NatToString(ParseNat(s)) == s
    decreases |s|
  {
    var init, d := s[..|s| - 1], DigitValue(s[|s| - 1]);
    if |s| == 1 {
      assert Digit(d) == s[0];
    } else {
      ParseNatPositive(init);
      NatToStringOfParse(init);
      var n := ParseNat(s);
      assert n == ParseNat(init) * 10 + d && n >= 10;
      assert n / 10 == ParseNat(init) && n % 10 == d;
      assert Digit(d) == s[|s| - 1];
      assert s == init + [s[|s| - 1]];
    }
  }

  /** `str` of an integer reads back as that integer. */
  lemma ParseIntToString(i: int)
    ensures ParseInt(IntToString(i)) == Some(i)
  {
    var s := IntToString(i);
    if i < 0 {
      assert s[1..] == NatToString(-i);
      ParseNatToString(-i);
    } else {
      ParseNatToString(i);
    }
  }

  /** A text reads back as `i` exactly when it is `str(i)`: reading back fixes the
      text, so no other spelling (`0999`, `-0`, `+5`) of the number is accepted. */
  lemma ParseIntExact(s: string, i: int)
    ensures ParseInt(s) == Some(i) <==> s == IntToString(i)
  {
    ParseIntToString(i);
    if |s| >= 2 && s[0] == '-' && AllDigits(s[1..]) && s[1] != '0' {
      ParseNatPositive(s[1..]);
      NatToStringOfParse(s[1..]);
      assert s == "-" + s[1..];
    } else if |s| >= 1 && AllDigits(s) && (s[0] != '0' || |s| == 1) {
      NatToStringOfParse(s);
    }
  }

  // ---------------------------------------------------------------------------
  // `str.upper()` on ASCII letters

  function UpperChar(c: char): char
  {
    if 'a' <= c <= 'z' then (c as int - 32) as char else c
  }

  /** `s.upper()`: every lower-case ASCII letter replaced by its capital, the rest kept. */
  function Upper(s: string): (r: string)
    ensures |r| == |s|
    ensures forall i :: 0 <= i < |s| ==> r[i] == UpperChar(s[i])
  {
    if s == [] then [] else [UpperChar(s[0])] + Upper(s[1..])
  }
}
