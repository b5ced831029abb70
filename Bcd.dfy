/**
 * `getBcdString`: a binary-coded-decimal release number (`bcdUSB`,
 * `bcdHID`, `bcdDevice`) rendered as text, and its inverse for values whose
 * two low nibbles are decimal digits.
 */
module Bcd {
  import opened JsBits
  import opened ByteData
  import opened Wrappers

  predicate IsDigit(c: char) {
    '0' <= c <= '9'
  }

  predicate AllDigits(s: string) {
    forall i :: 0 <= i < |s| ==> IsDigit(s[i])
  }

  function DigitChar(d: nat): (c: char)
    requires d < 10
    ensures IsDigit(c)
  {
    ('0' as int + d) as char
  }

  function DigitValue(c: char): (d: nat)
    requires IsDigit(c)
    ensures d < 10
  {
    c as int - '0' as int
  }

  /** JavaScript's `String(n)` for a natural number: its decimal digits. */
  function Decimal(n: nat): (s: string)
    ensures |s| >= 1 && AllDigits(s)
    ensures n < 10 ==> s == [DigitChar(n)]
  {
    if n < 10 then [DigitChar(n)] else Decimal(n / 10) + [DigitChar(n % 10)]
  }

  /** The number a string of decimal digits denotes. */
  function DigitsValue(s: string): nat
    requires AllDigits(s)
  {
    if s == [] then 0 else DigitsValue(s[..|s| - 1]) * 10 + DigitValue(s[|s| - 1])
  }

  lemma {:induction false} DecimalRoundTrip(n: nat)
    ensures DigitsValue(Decimal(n)) == n
  {
    if n >= 10 {
      DecimalRoundTrip(n / 10);
      var s := Decimal(n);
      assert s[..|s| - 1] == Decimal(n / 10);
    }
  }

  /** The index of the first c in s, or |s| when there is none. */
  function IndexOf(s: string, c: char): (i: nat)
    ensures i <= |s|
    ensures forall j :: 0 <= j < i ==> s[j] != c
    ensures i < |s| ==> s[i] == c
  {
    if s == [] then 0 else if s[0] == c then 0 else 1 + IndexOf(s[1..], c)
  }

  /**
   * `getBcdString(value)`: the high byte in decimal, a dot, then each of the
   * two low nibbles in decimal.
   */
  function BcdString(value: uint16): string {
    Decimal(value / 0x100) + "." + Decimal(value / 16 % 16) + Decimal(value % 16)
  }

  /** The JavaScript shifts and masks of `getBcdString` select the same parts. */
  lemma BcdStringAsWritten(value: uint16)
    ensures Sar(value, 8) == value / 0x100
    ensures BitAnd(Sar(value, 4), 0xF) == value / 16 % 16
    ensures BitAnd(value, 0xF) == value % 16
    ensures Decimal(Sar(value, 8)) + "." + Decimal(BitAnd(Sar(value, 4), 0xF)) + Decimal(BitAnd(value, 0xF)) == BcdString(value)
  {
    HighByteOf(value);
    MiddleNibbleOf(value);
    LowNibbleOf(value);
  }

  lemma HighByteOf(value: uint16)
    ensures Sar(value, 8) == value / 0x100
  {
    Pow2Values();
    SarSmall(value, 8);
  }

  lemma MiddleNibbleOf(value: uint16)
    ensures BitAnd(Sar(value, 4), 0xF) == value / 16 % 16
  {
    var high := Sar(value, 4);
    assert high == value / 16 by {
      Pow2Values();
      SarSmall(value, 4);
    }
    assert BitAnd(high, 0xF) == high % 16 by {
      Pow2Values();
      AndOfLowMask(high, 4);
    }
  }

  lemma LowNibbleOf(value: uint16)
    ensures BitAnd(value, 0xF) == value % 16
  {
    Pow2Values();
    AndOfLowMask(value, 4);
  }

  /** Both low nibbles are decimal digits, as binary-coded decimal requires. */
  predicate IsBcd(value: uint16) {
    value / 16 % 16 < 10 && value % 16 < 10
  }

  /** Reads back a release number written as "<major>.<d><d>". */
  function ParseBcd(s: string): Option<uint16> {
    var i := IndexOf(s, '.');
    if i == 0 || i + 3 != |s| || !AllDigits(s[..i]) || !IsDigit(s[i + 1]) || !IsDigit(s[i + 2]) then None
    else
      var major := DigitsValue(s[..i]);
      if major >= 0x100 then None
      else Some(major * 0x100 + DigitValue(s[i + 1]) * 16 + DigitValue(s[i + 2]))
  }

  /** The first dot after a run of digits is the one right after it. */
  lemma {:induction false} IndexAfterDigits(head: string, tail: string)
    requires AllDigits(head)
    ensures IndexOf(head + ['.'] + tail, '.') == |head|
  {
    var s := head + ['.'] + tail;
    assert s[|head|] == '.';
    assert forall j :: 0 <= j < |head| ==> s[j] == head[j];
  }

  /** The text "<major>.<d1><d0>" reads back as major * 256 + d1 * 16 + d0. */
  lemma ParseBcdOfParts(major: nat, d1: nat, d0: nat)
    requires major < 0x100 && d1 < 10 && d0 < 10
    ensures ParseBcd(Decimal(major) + "." + [DigitChar(d1)] + [DigitChar(d0)]) == Some(major * 0x100 + d1 * 16 + d0)
  {
    var head := Decimal(major);
    var s := head + "." + [DigitChar(d1)] + [DigitChar(d0)];
    assert s == head + ['.'] + [DigitChar(d1), DigitChar(d0)];
    IndexAfterDigits(head, [DigitChar(d1), DigitChar(d0)]);
    assert s[..|head|] == head;
    DecimalRoundTrip(major);
    assert s[|head| + 1] == DigitChar(d1) && s[|head| + 2] == DigitChar(d0);
  }

  /** A 16-bit value is its high byte and its two low nibbles. */
  lemma NibbleSplit(value: uint16)
    ensures value / 0x100 * 0x100 + value / 16 % 16 * 16 + value % 16 == value
  {
    var a := value / 16;
    assert value == a * 16 + value % 16;
    assert a == a / 16 * 16 + a % 16;
    assert value / 0x100 == a / 16;
  }

  /** Every binary-coded-decimal release number is recovered from its text. */
  lemma BcdRoundTrip(value: uint16)
    requires IsBcd(value)
    ensures ParseBcd(BcdString(value)) == Some(value)
  {
    var major, n1, n0 := value / 0x100, value / 16 % 16, value % 16;
    ParseBcdOfParts(major, n1, n0);
    NibbleSplit(value);
  }

  /** Release 2.00 of the USB specification. */
  lemma Usb2String()
    ensures BcdString(0x0200) == "2.00"
  {
    var value: uint16 := 0x0200;
    assert value / 0x100 == 2 && value / 16 % 16 == 0 && value % 16 == 0;
    assert Decimal(2) + "." + Decimal(0) + Decimal(0) == "2.00" by {
      assert Decimal(2) == "2" && Decimal(0) == "0";
    }
  }

  /** Release 1.10 of the HID class specification. */
  lemma Hid11String()
    ensures BcdString(0x0110) == "1.10"
  {
    var value: uint16 := 0x0110;
    assert value / 0x100 == 1 && value / 16 % 16 == 1 && value % 16 == 0;
    assert Decimal(1) + "." + Decimal(1) + Decimal(0) == "1.10" by {
      assert Decimal(1) == "1" && Decimal(0) == "0";
    }
  }

  lemma DecimalTenEleven()
    ensures Decimal(10) == "10" && Decimal(11) == "11"
  {
    assert Decimal(10) == Decimal(1) + [DigitChar(0)];
    assert Decimal(11) == Decimal(1) + [DigitChar(1)];
  }

  lemma NibbleTenString()
    ensures BcdString(0x011A) == "1.110"
  {
    var value: uint16 := 0x011A;
    assert value / 0x100 == 1 && value / 16 % 16 == 1 && value % 16 == 10;
    assert Decimal(1) + "." + Decimal(1) + Decimal(10) == "1.110" by {
      DecimalTenEleven();
    }
  }

  lemma NibbleElevenString()
    ensures BcdString(0x01B0) == "1.110"
  {
    var value: uint16 := 0x01B0;
    assert value / 16 == 27;
    assert value / 0x100 == 1 && value / 16 % 16 == 11 && value % 16 == 0;
    assert Decimal(1) + "." + Decimal(11) + Decimal(0) == "1.110" by {
      DecimalTenEleven();
    }
  }

  /**
   * Outside binary-coded decimal a nibble prints as two digits, so two
   * different values share a text: 0x011A and 0x01B0 both print "1.110".
   */
  lemma BcdStringCollision()
    ensures BcdString(0x011A) == BcdString(0x01B0)
  {
    NibbleTenString();
    NibbleElevenString();
  }
}
