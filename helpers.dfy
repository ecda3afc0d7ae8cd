/** Decimal rendering of numbers and the account-number generator. The random
    draw `Math.floor(Math.random() * 100000000)` is a parameter. */
module Helpers {

  predicate IsDigit(c: char)
  {
    '0' <= c <= '9'
  }

  predicate AllDigits(s: string)
  {
    forall i :: 0 <= i < |s| ==> IsDigit(s[i])
  }

  function DigitChar(d: nat): (c: char)
    requires d < 10
    ensures IsDigit(c) && c as int - '0' as int == d
  {
    (48 + d) as char
  }

  /** The value of a string of decimal digits, most significant first. */
  function Decode(s: string): nat
    requires AllDigits(s)
  {
    if s == [] then 0 else Decode(s[..|s| - 1]) * 10 + (s[|s| - 1] as int - '0' as int)
  }

  function Pow10(k: nat): nat
  {
    if k == 0 then 1 else 10 * Pow10(k - 1)
  }

  /** `n.toString()` for a non-negative integer: no sign, no leading zeros. */
  function NatToString(n: nat): (s: string)
    ensures 1 <= |s| && AllDigits(s)
    ensures |s| > 1 ==> s[0] != '0'
  {
    if n < 10 then [DigitChar(n)] else NatToString(n / 10) + [DigitChar(n % 10)]
  }

  /** A template-literal rendering of an integer, with a leading '-' when negative. */
  function IntToString(i: int): (s: string)
    ensures |s| >= 1 && (i < 0 <==> s[0] == '-')
  {
    if i < 0 then "-" + NatToString(-i) else NatToString(i)
  }

  /** `s.padStart(width, fill)`: left-pads `s` with `fill` up to `width` characters. */
  function PadStart(s: string, width: nat, fill: char): (r: string)
    ensures |r| == if |s| < width then width else |s|
    ensures r[|r| - |s|..] == s
    ensures forall i :: 0 <= i < |r| - |s| ==> r[i] == fill
  {
    if |s| < width then seq(width - |s|, _ => fill) + s else s
  }

  lemma {:induction false} DecodeNatToString(n: nat)
    ensures Decode(NatToString(n)) == n
  {
    if n >= 10 {
      var init := NatToString(n / 10);
      var s := init + [DigitChar(n % 10)];
      assert s[..|s| - 1] == init;
      DecodeNatToString(n / 10);
    }
  }

  lemma {:induction false} NatToStringLength(n: nat, k: nat)
    requires 1 <= k && n < Pow10(k)
    ensures |NatToString(n)| <= k
  {
    assert Pow10(1) == 10;
    if n >= 10 {
      assert n / 10 < Pow10(k - 1);
      NatToStringLength(n / 10, k - 1);
    }
  }

  /** Leading zeros do not change the decoded value. */
  lemma {:induction false} DecodeLeadingZeros(z: string, s: string)
    requires forall i :: 0 <= i < |z| ==> z[i] == '0'
    requires AllDigits(s)
    ensures AllDigits(z + s) && Decode(z + s) == Decode(s)
    decreases |s|
  {
    if s == [] {
      assert z + s == z;
      DecodeZeros(z);
    } else {
      var init := s[..|s| - 1];
      assert (z + s)[..|z + s| - 1] == z + init;
      DecodeLeadingZeros(z, init);
    }
  }

  lemma {:induction false} DecodeZeros(z: string)
    requires forall i :: 0 <= i < |z| ==> z[i] == '0'
    ensures AllDigits(z) && Decode(z) == 0
  {
    if z != [] {
      DecodeZeros(z[..|z| - 1]);
    }
  }

  const AccountNumberPrefix: string := "10"
  /** The draw is `Math.floor(Math.random() * DrawBound)`, so it lies below this bound. */
  const DrawBound: nat := 100000000

  /** The eight-character, zero-padded rendering of a draw decodes back to it. */
  lemma PaddedDraw(draw: nat)
    requires draw < DrawBound
    ensures var padded := PadStart(NatToString(draw), 8, '0');
      |padded| == 8 && AllDigits(padded) && Decode(padded) == draw
  {
    var digits := NatToString(draw);
    assert Pow10(8) == DrawBound;
    NatToStringLength(draw, 8);
    var padded := PadStart(digits, 8, '0');
    var zeros := padded[..8 - |digits|];
    assert padded == zeros + digits;
    DecodeLeadingZeros(zeros, digits);
    DecodeNatToString(draw);
  }

  /** `'10' + draw.toString().padStart(8, '0')`: a ten-digit number starting with
      "10" whose last eight digits spell the draw. */
  function GenerateAccountNumber(draw: nat): (number: string)
    requires draw < DrawBound
    ensures |number| == 10
    ensures number[..2] == AccountNumberPrefix
    ensures AllDigits(number)
    ensures Decode(number[2..]) == draw
  {
    var padded := PadStart(NatToString(draw), 8, '0');
    PaddedDraw(draw);
    var number := AccountNumberPrefix + padded;
    assert number[..2] == AccountNumberPrefix && number[2..] == padded;
    assert AllDigits(number) by {
      forall i | 0 <= i < |number|
        ensures IsDigit(number[i])
      {
        if 2 <= i {
          assert number[i] == padded[i - 2];
        }
      }
    }
    number
  }

  /** Distinct draws give distinct account numbers. */
  lemma GeneratedNumbersDistinct(a: nat, b: nat)
    requires a < DrawBound && b < DrawBound && a != b
    ensures GenerateAccountNumber(a) != GenerateAccountNumber(b)
  {
  }
}
