/** How the code reads numbers: `usize::from_str_radix`, which `str::parse` uses with radix 10. */
module Numerals {
  import opened RangeSets
  import opened Wire

  const PLUS_SIGN: byte := 0x2B

  /** The greatest `usize` on a 64-bit target. */
  const USIZE_MAX: nat := 0xFFFF_FFFF_FFFF_FFFF

  /** `char::to_digit` for radix 10 and 16. */
  function Digit(b: byte, radix: nat): (d: Option<nat>)
    ensures d.Some? ==> d.value < radix
  {
    var value: nat :=
      if 0x30 <= b <= 0x39 then (b - 0x30) as nat
      else if 0x41 <= b <= 0x46 then (b - 0x41) as nat + 10
      else if 0x61 <= b <= 0x66 then (b - 0x61) as nat + 10
      else radix;
    if value < radix then Some(value) else None
  }

  /** The number a string of digits stands for, however large. */
  function DigitsValue(s: seq<byte>, radix: nat): (n: Option<nat>)
    ensures n.Some? ==> forall k :: 0 <= k < |s| ==> Digit(s[k], radix).Some?
  {
    if s == [] then Some(0)
    else
      match (DigitsValue(s[..|s| - 1], radix), Digit(s[|s| - 1], radix))
      case (Some(high), Some(low)) => Some(high * radix + low)
      case _ => None
  }

  /** An optional plus sign and one digit or more, of a number that fits a `usize`. */
  function FromStrRadix(s: seq<byte>, radix: nat): (n: Option<nat>)
    ensures n.Some? ==> s != [] && n.value <= USIZE_MAX
  {
    var digits := if s != [] && s[0] == PLUS_SIGN then s[1..] else s;
    if digits == [] then None
    else
      match DigitsValue(digits, radix)
      case None => None
      case Some(n) => if n <= USIZE_MAX then Some(n) else None
  }

  /** What parses consists of digits and at most a plus sign. */
  lemma OnlyDigits(s: seq<byte>, radix: nat, k: nat)
    requires FromStrRadix(s, radix).Some? && k < |s|
    ensures Digit(s[k], radix).Some? || s[k] == PLUS_SIGN
  {
    if s[0] == PLUS_SIGN {
      if k > 0 { assert s[1..][k - 1] == s[k]; }
    }
  }

  // ----- Writing numbers

  function HexDigit(d: nat): byte
    requires d < 16
  {
    if d < 10 then 0x30 + d as byte else 0x61 + (d - 10) as byte
  }

  /** Lower-case hexadecimal without leading zeros. */
  function HexDigits(n: nat): (s: seq<byte>)
    ensures s != []
  {
    if n < 16 then [HexDigit(n)] else HexDigits(n / 16) + [HexDigit(n % 16)]
  }

  /** Decimal without leading zeros. */
  function DecimalDigits(n: nat): (s: seq<byte>)
    ensures s != []
  {
    if n < 10 then ['0' as byte + n as byte] else DecimalDigits(n / 10) + ['0' as byte + (n % 10) as byte]
  }

  lemma {:induction false} HexDigitsValue(n: nat)
    ensures DigitsValue(HexDigits(n), 16) == Some(n)
    ensures forall k :: 0 <= k < |HexDigits(n)| ==> HexDigits(n)[k] != PLUS_SIGN
  {
    var s := HexDigits(n);
    if n < 16 {
      assert s[..|s| - 1] == [];
    } else {
      HexDigitsValue(n / 16);
      assert s[..|s| - 1] == HexDigits(n / 16);
    }
  }

  lemma {:induction false} DecimalDigitsValue(n: nat)
    ensures DigitsValue(DecimalDigits(n), 10) == Some(n)
    ensures forall k :: 0 <= k < |DecimalDigits(n)| ==> DecimalDigits(n)[k] != PLUS_SIGN
  {
    var s := DecimalDigits(n);
    if n < 10 {
      assert s[..|s| - 1] == [];
    } else {
      DecimalDigitsValue(n / 10);
      assert s[..|s| - 1] == DecimalDigits(n / 10);
    }
  }

  /** Reading back a size that was written in hexadecimal. */
  lemma HexRoundTrip(n: nat)
    requires n <= USIZE_MAX
    ensures FromStrRadix(HexDigits(n), 16) == Some(n)
  {
    HexDigitsValue(n);
  }

  /** Reading back a length that was written in decimal. */
  lemma DecimalRoundTrip(n: nat)
    requires n <= USIZE_MAX
    ensures FromStrRadix(DecimalDigits(n), 10) == Some(n)
  {
    DecimalDigitsValue(n);
  }

  // ----- Everything that is read as a number

  function Written(n: nat, radix: nat): (s: seq<byte>)
    requires radix == 10 || radix == 16
    ensures s != []
  {
    if radix == 10 then DecimalDigits(n) else HexDigits(n)
  }

  /** Upper-case hexadecimal digits as lower-case ones. */
  function Folded(s: seq<byte>): (folded: seq<byte>)
    ensures |folded| == |s|
    ensures forall k :: 0 <= k < |s| ==>
      folded[k] == if 'A' as byte <= s[k] <= 'F' as byte then s[k] - 'A' as byte + 'a' as byte else s[k]
  {
    seq(|s|, k requires 0 <= k < |s| =>
      if 'A' as byte <= s[k] <= 'F' as byte then s[k] - 'A' as byte + 'a' as byte else s[k])
  }

  function LeadingZeros(n: nat): (zeros: seq<byte>)
    ensures |zeros| == n && forall k :: 0 <= k < n ==> zeros[k] == '0' as byte
  {
    seq(n, _ => '0' as byte)
  }

  /** `s` is `n`, written with or without a plus sign, with any leading zeros, in either case. */
  ghost predicate Spells(s: seq<byte>, n: nat, radix: nat)
    requires radix == 10 || radix == 16
  {
    exists zeros: nat :: SpellsWith(s, n, radix, zeros)
  }

  ghost predicate SpellsWith(s: seq<byte>, n: nat, radix: nat, zeros: nat)
    requires radix == 10 || radix == 16
  {
    || Folded(s) == LeadingZeros(zeros) + Written(n, radix)
    || Folded(s) == ['+' as byte] + (LeadingZeros(zeros) + Written(n, radix))
  }

  /** A digit written after the number before it. */
  lemma WrittenOnceMore(high: nat, low: nat, radix: nat)
    requires (radix == 10 || radix == 16) && low < radix
    ensures Written(low, radix) == [HexDigit(low)]
    ensures high > 0 ==> Written(high * radix + low, radix) == Written(high, radix) + [HexDigit(low)]
  {
    if high > 0 {
      assert (high * radix + low) / radix == high && (high * radix + low) % radix == low;
    }
  }

  lemma DigitIs(b: byte, radix: nat)
    requires (radix == 10 || radix == 16) && Digit(b, radix).Some?
    ensures Folded([b]) == [HexDigit(Digit(b, radix).value)]
  {
  }

  lemma FoldedConcat(a: seq<byte>, b: seq<byte>)
    ensures Folded(a + b) == Folded(a) + Folded(b)
  {
  }

  lemma OneMoreZero(n: nat)
    ensures LeadingZeros(n) + ['0' as byte] == LeadingZeros(n + 1) && LeadingZeros(0) == []
  {
  }

  lemma LastDigit(s: seq<byte>, radix: nat)
    requires s != [] && DigitsValue(s, radix).Some?
    ensures var high, low := DigitsValue(s[..|s| - 1], radix), Digit(s[|s| - 1], radix);
      high.Some? && low.Some? && DigitsValue(s, radix) == Some(high.value * radix + low.value)
    ensures |s| == 1 ==> DigitsValue(s[..|s| - 1], radix) == Some(0)
  {
  }

  /** Digits with a value are leading zeros and then that value. */
  lemma {:induction false} DigitsAreWritten(s: seq<byte>, radix: nat) returns (zeros: nat)
    requires (radix == 10 || radix == 16) && s != [] && DigitsValue(s, radix).Some?
    ensures Folded(s) == LeadingZeros(zeros) + Written(DigitsValue(s, radix).value, radix)
    decreases |s|
  {
    hide Digit, Written, HexDigit, Folded, LeadingZeros, DigitsValue;
    var init, last := s[..|s| - 1], s[|s| - 1];
    LastDigit(s, radix);
    var high, low := DigitsValue(init, radix).value, Digit(last, radix).value;
    DigitIs(last, radix);
    WrittenOnceMore(high, low, radix);
    OneMoreZero(0);
    assert s == init + [last];
    FoldedConcat(init, [last]);
    zeros := 0;
    if init != [] {
      zeros := DigitsAreWritten(init, radix);
      if high == 0 {
        WrittenOnceMore(0, 0, radix);
        ZeroDigit();
        OneMoreZero(zeros);
        zeros := zeros + 1;
      }
    } else {
      FoldedNothing();
    }
  }

  lemma FoldedNothing()
    ensures Folded([]) == []
  {
  }

  lemma ZeroDigit()
    ensures HexDigit(0) == '0' as byte
  {
  }

  /** The case of a digit does not matter, and leading zeros do not either. */
  lemma {:induction false} FoldedValue(s: seq<byte>, radix: nat)
    ensures DigitsValue(Folded(s), radix) == DigitsValue(s, radix)
    decreases |s|
  {
    if s != [] {
      var init := s[..|s| - 1];
      FoldedValue(init, radix);
      assert Folded(s)[..|s| - 1] == Folded(init);
    }
  }

  lemma {:induction false} ZerosValue(zeros: nat, s: seq<byte>, radix: nat)
    requires radix > 0
    ensures DigitsValue(LeadingZeros(zeros) + s, radix) == DigitsValue(s, radix)
    decreases |s|, zeros
  {
    var t := LeadingZeros(zeros) + s;
    if s != [] {
      ZerosValue(zeros, s[..|s| - 1], radix);
      assert t[..|t| - 1] == LeadingZeros(zeros) + s[..|s| - 1];
    } else if zeros > 0 {
      ZerosValue(zeros - 1, s, radix);
      assert t[..|t| - 1] == LeadingZeros(zeros - 1) + s;
    }
  }

  lemma {:induction false} WrittenValue(zeros: nat, n: nat, radix: nat)
    requires radix == 10 || radix == 16
    ensures DigitsValue(LeadingZeros(zeros) + Written(n, radix), radix) == Some(n)
    ensures forall k :: 0 <= k < |Written(n, radix)| ==> Written(n, radix)[k] != PLUS_SIGN
  {
    hide DigitsValue;
    ZerosValue(zeros, Written(n, radix), radix);
    if radix == 10 { DecimalDigitsValue(n); } else { HexDigitsValue(n); }
  }

  /**
   What is read as a number is exactly a number of less than 64 bits as it may be written: an optional plus
   sign, any leading zeros, then its digits without leading zeros, in either case.
   */
  lemma ReadsExactlyNumbers(s: seq<byte>, n: nat, radix: nat)
    requires radix == 10 || radix == 16
    ensures FromStrRadix(s, radix) == Some(n) <==> n < 0x1_0000_0000_0000_0000 && Spells(s, n, radix)
  {
    hide DigitsValue, Written, Folded, LeadingZeros;
    var signed := s != [] && s[0] == PLUS_SIGN;
    var digits := if signed then s[1..] else s;
    if FromStrRadix(s, radix) == Some(n) {
      var zeros := DigitsAreWritten(digits, radix);
      if signed { SignFolds(s); }
      assert SpellsWith(s, n, radix, zeros);
    } else if Spells(s, n, radix) {
      var zeros: nat :| SpellsWith(s, n, radix, zeros);
      var bare := LeadingZeros(zeros) + Written(n, radix);
      WrittenValue(zeros, n, radix);
      FoldedValue(digits, radix);
      SignFolds(s);
      if Folded(s) == bare {
        assert bare[0] == if zeros > 0 then '0' as byte else Written(n, radix)[0];
      } else {
        assert Folded(s)[1..] == bare;
      }
    }
  }

  lemma SignFolds(s: seq<byte>)
    ensures s != [] ==> (s[0] == PLUS_SIGN <==> Folded(s)[0] == PLUS_SIGN) && Folded(s)[1..] == Folded(s[1..])
    ensures s != [] && s[0] == PLUS_SIGN ==> Folded(s) == ['+' as byte] + Folded(s[1..])
  {
  }
}
