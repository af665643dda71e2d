/**
 * Decimal digits: fixed-width zero-padded numbers (the fields of an ISO date
 * text) and the shortest decimal text of an integer (what ECMAScript's
 * Number-to-String gives for an integral number below 10^21).
 */
module Decimal {
  import opened Outcomes
  import opened TextOrder

  function Pow10(n: nat): (p: nat)
    ensures p >= 1
  {
    if n == 0 then 1 else 10 * Pow10(n - 1)
  }

  predicate IsDigit(c: char) { '0' <= c <= '9' }

  function DigitChar(d: int): (c: char)
    requires 0 <= d <= 9
    ensures IsDigit(c)
  {
    (48 + d) as char
  }

  /** n written with exactly w decimal digits, zero-padded on the left. */
  function Pad(n: nat, w: nat): (s: string)
    ensures |s| == w
    decreases w
  {
    if w == 0 then "" else Pad(n / 10, w - 1) + [DigitChar(n % 10)]
  }

  /** The number a string of decimal digits spells; None if any character is
      not a digit. */
  function ReadDigits(s: string): Option<nat>
    decreases |s|
  {
    if |s| == 0 then Some(0)
    else match ReadDigits(s[..|s| - 1])
      case None => None
      case Some(v) => if IsDigit(s[|s| - 1]) then Some(10 * v + ((s[|s| - 1] as int) - 48)) else None
  }

  /** Reading a digit string with one more digit appended. */
  lemma ReadAppendDigit(s: string, d: int)
    requires 0 <= d <= 9 && ReadDigits(s).Some?
    ensures ReadDigits(s + [DigitChar(d)]) == Some(10 * ReadDigits(s).value + d)
  {
    assert (s + [DigitChar(d)])[..|s|] == s;
  }

  /** Padding loses nothing for a number that fits in the width. */
  lemma {:induction false} ReadPad(n: nat, w: nat)
    requires n < Pow10(w)
    ensures ReadDigits(Pad(n, w)) == Some(n)
    decreases w
  {
    if w > 0 {
      ReadPad(n / 10, w - 1);
      ReadAppendDigit(Pad(n / 10, w - 1), n % 10);
    }
  }

  /** A digit string is the padding of the number it spells. */
  lemma {:induction false} PadOfRead(s: string)
    requires ReadDigits(s).Some?
    ensures ReadDigits(s).value < Pow10(|s|)
    ensures Pad(ReadDigits(s).value, |s|) == s
    decreases |s|
  {
    if |s| > 0 {
      var init := s[..|s| - 1];
      PadOfRead(init);
      var u := ReadDigits(init).value;
      DivTenUnique(ReadDigits(s).value, u);
      assert s == init + [s[|s| - 1]];
    }
  }

  /** Division by ten is determined by its bounds. */
  lemma DivTenUnique(x: int, q: int)
    requires 10 * q <= x < 10 * q + 10
    ensures x / 10 == q && x % 10 == x - 10 * q
  {
  }

  /** Zero-padded numbers of one width sort as text in numeric order. */
  lemma {:induction false} PadOrdered(n1: nat, n2: nat, w: nat)
    requires n1 < n2 < Pow10(w)
    ensures TextLess(Pad(n1, w), Pad(n2, w))
    decreases w
  {
    var p1, p2 := Pad(n1 / 10, w - 1), Pad(n2 / 10, w - 1);
    if n1 / 10 < n2 / 10 {
      PadOrdered(n1 / 10, n2 / 10, w - 1);
    } else {
      TextLessIrreflexive(p1);
      assert TextLess([DigitChar(n1 % 10)], [DigitChar(n2 % 10)]);
    }
    TextLessAppend(p1, [DigitChar(n1 % 10)], p2, [DigitChar(n2 % 10)]);
  }

  /** The decimal text of a natural number, without leading zeros. */
  function NatText(n: nat): (s: string)
    ensures |s| >= 1
    decreases n
  {
    if n < 10 then [DigitChar(n)] else NatText(n / 10) + [DigitChar(n % 10)]
  }

  /** The decimal text of an integer, with a minus sign when negative. */
  function IntText(n: int): string {
    if n < 0 then "-" + NatText(-n) else NatText(n)
  }

  /** The integer a decimal text with an optional leading minus sign spells. */
  function ReadInt(s: string): Option<int> {
    if |s| > 0 && s[0] == '-' then
      match ReadDigits(s[1..])
        case None => None
        case Some(v) => Some(-(v as int))
    else ReadDigits(s)
  }

  /** The decimal text of n reads back as n, and only 0 starts with the digit 0. */
  lemma {:induction false} ReadNatText(n: nat)
    ensures ReadDigits(NatText(n)) == Some(n)
    ensures IsDigit(NatText(n)[0])
    ensures NatText(n)[0] == '0' ==> n == 0
    decreases n
  {
    if n < 10 {
      ReadAppendDigit("", n);
    } else {
      ReadNatText(n / 10);
      ReadAppendDigit(NatText(n / 10), n % 10);
      assert NatText(n)[0] == NatText(n / 10)[0];
    }
  }

  /** The decimal text of an integer reads back as that integer. */
  lemma ReadIntText(n: int)
    ensures ReadInt(IntText(n)) == Some(n)
  {
    if n < 0 {
      ReadNatText(-n);
      assert ("-" + NatText(-n))[1..] == NatText(-n);
    } else {
      ReadNatText(n);
    }
  }

  /** Different integers have different decimal texts. */
  lemma IntTextInjective(a: int, b: int)
    requires IntText(a) == IntText(b)
    ensures a == b
  {
    ReadIntText(a);
    ReadIntText(b);
  }
}
