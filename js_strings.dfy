/**
 * The JavaScript string and number conversions that the holiday calendar and the
 * time-of-day helpers rely on: `String(n)` of an integer, `padStart(2, '0')`,
 * `split(c)`, `Number(text)` on decimal text, and string `<` and `>`, taken as
 * code-point order (the same as JavaScript's code-unit order on ASCII text).
 */
module JsStrings {
  import opened Wrappers

  predicate IsDigit(c: char) {
    '0' <= c <= '9'
  }

  predicate AllDigits(s: string) {
    forall i :: 0 <= i < |s| ==> IsDigit(s[i])
  }

  function DigitChar(n: int): (c: char)
    requires 0 <= n < 10
    ensures IsDigit(c)
  {
    (48 + n) as char
  }

  function DigitValue(c: char): (n: int)
    requires IsDigit(c)
    ensures 0 <= n < 10
  {
    c as int - 48
  }

  /** The decimal digits of `n`, most significant first, without leading zeros. */
  function NatToString(n: nat): (s: string)
    ensures 1 <= |s| && AllDigits(s)
    ensures s[0] == '0' ==> n == 0
    decreases n
  {
    if n < 10 then [DigitChar(n)] else NatToString(n / 10) + [DigitChar(n % 10)]
  }

  /** `String(n)` for an integer `n`. */
  function Itoa(n: int): (s: string)
    ensures 1 <= |s|
    ensures 0 <= n ==> AllDigits(s)
    ensures n < 0 ==> s[0] == '-' && AllDigits(s[1..])
  {
    if n < 0 then "-" + NatToString(-n) else NatToString(n)
  }

  /** `s.padStart(2, '0')`: zeros in front of `s` until it is two characters long. */
  function PadStart2(s: string): (r: string)
    ensures |r| == if |s| < 2 then 2 else |s|
    ensures r[|r| - |s|..] == s
    ensures forall i :: 0 <= i < |r| - |s| ==> r[i] == '0'
  {
    if |s| == 0 then "00" else if |s| == 1 then "0" + s else s
  }

  /** The value of a string of decimal digits (the empty string has value 0). */
  function DigitsValue(s: string): nat
    requires AllDigits(s)
  {
    if |s| == 0 then 0 else DigitsValue(s[..|s| - 1]) * 10 + DigitValue(s[|s| - 1])
  }

  /**
   * `Number(s)` for the strings this code meets: an empty string is 0, decimal
   * digits with an optional sign are their value, and anything else is NaN (None).
   */
  function Number(s: string): (r: Option<int>)
    ensures AllDigits(s) ==> r == Some(DigitsValue(s))
    ensures |s| == 1 && !IsDigit(s[0]) ==> r == None
  {
    if AllDigits(s) then Some(DigitsValue(s))
    else if 2 <= |s| && (s[0] == '-' || s[0] == '+') && AllDigits(s[1..]) then
      Some(if s[0] == '-' then -(DigitsValue(s[1..]) as int) else DigitsValue(s[1..]))
    else None
  }

  /** `s.split(c)` for a one-character separator. */
  function Split(s: string, c: char): (parts: seq<string>)
    ensures 1 <= |parts|
    ensures c !in s ==> parts == [s]
    decreases |s|
  {
    if |s| == 0 then [""]
    else if s[0] == c then [""] + Split(s[1..], c)
    else
      var rest := Split(s[1..], c);
      assert c !in s ==> [s[0]] + s[1..] == s;
      [[s[0]] + rest[0]] + rest[1..]
  }

  /** `a < b` on JavaScript strings: lexicographic order of code points. */
  predicate StrLess(a: string, b: string)
    decreases |a|
  {
    if |a| == 0 then 0 < |b|
    else if |b| == 0 then false
    else if a[0] == b[0] then StrLess(a[1..], b[1..])
    else a[0] < b[0]
  }

  // ---------------------------------------------------------------------------
  // Number inverts String and padStart

  lemma {:induction false} DigitsValueSnoc(s: string, c: char)
    requires AllDigits(s) && IsDigit(c)
    ensures AllDigits(s + [c])
    ensures DigitsValue(s + [c]) == DigitsValue(s) * 10 + DigitValue(c)
  {
    assert (s + [c])[..|s|] == s;
  }

  lemma {:induction false} DigitsValueOfNatToString(n: nat)
    ensures DigitsValue(NatToString(n)) == n
    decreases n
  {
    if n >= 10 {
      DigitsValueOfNatToString(n / 10);
      DigitsValueSnoc(NatToString(n / 10), DigitChar(n % 10));
    }
  }

  /** Leading zeros do not change the value of a digit string. */
  lemma {:induction false} DigitsValueLeadingZero(s: string)
    requires AllDigits(s)
    ensures AllDigits("0" + s) && DigitsValue("0" + s) == DigitsValue(s)
    decreases |s|
  {
    if |s| > 0 {
      var init := s[..|s| - 1];
      DigitsValueLeadingZero(init);
      assert ("0" + s)[..|s|] == "0" + init;
    }
  }

  /** `Number(String(n)) == n` for every integer. */
  lemma NumberOfItoa(n: int)
    ensures Number(Itoa(n)) == Some(n)
  {
    if n < 0 {
      DigitsValueOfNatToString(-n);
      var s := Itoa(n);
      assert s[1..] == NatToString(-n);
      assert !AllDigits(s) by { assert !IsDigit(s[0]); }
    } else {
      DigitsValueOfNatToString(n);
    }
  }

  /** `Number(String(n).padStart(2, '0')) == n` for every natural number. */
  lemma NumberOfPadded(n: nat)
    ensures AllDigits(PadStart2(Itoa(n)))
    ensures Number(PadStart2(Itoa(n))) == Some(n)
  {
    DigitsValueOfNatToString(n);
    var s := Itoa(n);
    if |s| == 1 {
      DigitsValueLeadingZero(s);
    }
  }

  lemma ItoaInjective(a: int, b: int)
    requires Itoa(a) == Itoa(b)
    ensures a == b
  {
    NumberOfItoa(a);
    NumberOfItoa(b);
  }

  lemma PaddedInjective(a: nat, b: nat)
    requires PadStart2(Itoa(a)) == PadStart2(Itoa(b))
    ensures a == b
  {
    NumberOfPadded(a);
    NumberOfPadded(b);
  }

  /** A number below 100 prints as at most two digits, so padding makes it exactly two. */
  lemma PaddedLength(n: nat)
    requires n < 100
    ensures |PadStart2(Itoa(n))| == 2
  {
    if n >= 10 {
      assert NatToString(n) == NatToString(n / 10) + [DigitChar(n % 10)];
    }
  }

  /** Two concatenations with equally long right parts agree part by part. */
  lemma ConcatCancelRight(a: string, b: string, c: string, d: string)
    requires a + b == c + d && |b| == |d|
    ensures a == c && b == d
  {
    assert a == (a + b)[..|a|];
    assert c == (c + d)[..|c|];
    assert b == (a + b)[|a|..];
    assert d == (c + d)[|c|..];
  }

  // ---------------------------------------------------------------------------
  // split

  /** Splitting text at a separator it joins back gives the pieces back. */
  lemma {:induction false} SplitAtFirstSeparator(a: string, c: char, b: string)
    requires c !in a
    ensures Split(a + [c] + b, c) == [a] + Split(b, c)
    decreases |a|
  {
    var s := a + [c] + b;
    if |a| == 0 {
      assert s[0] == c && s[1..] == b;
    } else {
      assert s[0] == a[0] != c;
      assert s[1..] == a[1..] + [c] + b;
      SplitAtFirstSeparator(a[1..], c, b);
      var rest := Split(s[1..], c);
      assert rest == [a[1..]] + Split(b, c);
      assert rest[0] == a[1..] && rest[1..] == Split(b, c);
      assert [a[0]] + a[1..] == a;
    }
  }

  /** Decimal digits never contain a separator that is not a digit. */
  lemma SeparatorNotInDigits(s: string, c: char)
    requires AllDigits(s) && !IsDigit(c)
    ensures c !in s
  {
    assert forall i | 0 <= i < |s| :: s[i] != c;
  }

  /** Two pieces joined by a separator neither contains split back into those pieces. */
  lemma SplitTwo(a: string, c: char, b: string)
    requires c !in a && c !in b
    ensures Split(a + [c] + b, c) == [a, b]
  {
    SplitAtFirstSeparator(a, c, b);
  }

  /** Three pieces joined by a separator none contains split back into those pieces. */
  lemma SplitThree(a: string, c: char, b: string, d: string)
    requires c !in a && c !in b && c !in d
    ensures Split(a + [c] + b + [c] + d, c) == [a, b, d]
  {
    ConcatAssoc(a + [c] + b, [c], d);
    ConcatAssoc(a + [c], b, [c] + d);
    ConcatAssoc(b, [c], d);
    SplitAtFirstSeparator(a, c, b + [c] + d);
    SplitTwo(b, c, d);
  }

  lemma ConcatAssoc(a: string, b: string, c: string)
    ensures a + b + c == a + (b + c)
  {
  }

  // ---------------------------------------------------------------------------
  // the string order

  lemma {:induction false} StrLessIrreflexive(a: string)
    ensures !StrLess(a, a)
    decreases |a|
  {
    if |a| > 0 {
      StrLessIrreflexive(a[1..]);
    }
  }

  lemma {:induction false} StrLessAsymmetric(a: string, b: string)
    requires StrLess(a, b)
    ensures !StrLess(b, a)
    decreases |a|
  {
    if |a| > 0 && |b| > 0 && a[0] == b[0] {
      StrLessAsymmetric(a[1..], b[1..]);
    }
  }

  lemma {:induction false} StrLessTransitive(a: string, b: string, c: string)
    requires StrLess(a, b) && StrLess(b, c)
    ensures StrLess(a, c)
    decreases |a|
  {
    if |a| > 0 && a[0] == b[0] && b[0] == c[0] {
      StrLessTransitive(a[1..], b[1..], c[1..]);
    }
  }

  lemma {:induction false} StrLessTotal(a: string, b: string)
    requires a != b
    ensures StrLess(a, b) || StrLess(b, a)
    decreases |a|
  {
    if |a| > 0 && |b| > 0 && a[0] == b[0] {
      assert a == [a[0]] + a[1..] && b == [b[0]] + b[1..];
      StrLessTotal(a[1..], b[1..]);
    }
  }
}
