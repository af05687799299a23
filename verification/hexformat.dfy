/** `Number.prototype.hex(length)` (ScriptAPI_Number_hex.cpp): the number,
    coerced to an unsigned 32-bit value, printed by `snprintf` into a 64-byte
    buffer with the format "%0*X", the field width being `length` (8 when the
    argument is absent). */
module HexFormat {
  import opened Common
  import opened Duktape
  import opened CLib

  const DEFAULT_WIDTH: nat := 8
  /** The buffer holds 64 bytes, one of them the terminating NUL. */
  const MAX_OUTPUT: nat := 63

  /** `n` copies of `c`; none for a non-positive count. */
  function Repeat(c: char, n: int): (s: string)
    ensures |s| == if n < 0 then 0 else n
    ensures forall i :: 0 <= i < |s| ==> s[i] == c
    decreases n
  {
    if n <= 0 then [] else [c] + Repeat(c, n - 1)
  }

  /** The field printf produces for the digits. The width is the unsigned
      argument read as a C `int`: below 2^31 it is a minimum width filled with
      leading zeros; from 2^31 on it is negative, which printf takes as the '-'
      flag (left-justify with spaces, overriding '0') and width `2^32 - length`. */
  function Field(digits: string, length: u32): string
  {
    if length < 0x8000_0000 then Repeat('0', length - |digits|) + digits
    else digits + Repeat(' ', TWO_32 - length - |digits|)
  }

  /** The argument's coercion: absent means 8, otherwise `duk_to_uint`. */
  function WidthOf(length: Option<int>): (w: u32)
  {
    match length
    case None => DEFAULT_WIDTH
    case Some(n) => ToUint(n)
  }

  /** What `snprintf` leaves in the buffer: the field cut to 63 characters. */
  function Output(digits: string, width: u32): (s: string)
    ensures |s| <= MAX_OUTPUT
  {
    var field := Field(digits, width);
    if |field| <= MAX_OUTPUT then field else field[..MAX_OUTPUT]
  }

  /** The string the method returns. */
  function Hex(value: int, length: Option<int>): string
  {
    Output(FormatHex(ToUint(value)), WidthOf(length))
  }

  function Max(a: int, b: int): int
  {
    if a < b then b else a
  }

  function Min(a: int, b: int): int
  {
    if a < b then a else b
  }

  /** The coerced value has at most eight significant hex digits. */
  lemma AtMostEightDigits(value: int)
    ensures 1 <= |FormatHex(ToUint(value))| <= 8
  {
    assert Pow16(8) == 0x1_0000_0000 by {
      assert Pow16(4) == 0x1_0000;
    }
    FormatHexLength(ToUint(value), 8);
  }

  /** Upper-case hex digits only. */
  predicate UpperHex(s: string)
  {
    AllHex(s) && forall i :: 0 <= i < |s| ==> !('a' <= s[i] <= 'f')
  }

  /** A zero-padded field is the digits behind enough zeros to reach the width. */
  lemma ZeroField(digits: string, length: u32)
    requires length < 0x8000_0000 && UpperHex(digits)
    ensures var field := Field(digits, length);
            && field == Repeat('0', length - |digits|) + digits
            && |field| == Max(length, |digits|)
            && UpperHex(field)
  {
    var field := Field(digits, length);
    var zeros := Repeat('0', length - |digits|);
    assert field == zeros + digits;
    forall i | 0 <= i < |field|
      ensures IsHexDigit(field[i]) && !('a' <= field[i] <= 'f')
    {
      if i < |zeros| {
        assert field[i] == zeros[i] == '0';
      } else {
        assert field[i] == digits[i - |zeros|];
      }
    }
  }

  /** The zero-padded output, cut or not. */
  lemma ZeroOutput(digits: string, width: u32)
    requires width < 0x8000_0000 && UpperHex(digits)
    ensures var s := Output(digits, width);
            && |s| == Min(Max(width, |digits|), MAX_OUTPUT)
            && UpperHex(s)
            && (|s| == Max(width, |digits|) ==> s == Repeat('0', width - |digits|) + digits)
  {
    var field := Field(digits, width);
    ZeroField(digits, width);
    var s := Output(digits, width);
    assert forall i :: 0 <= i < |s| ==> s[i] == field[i];
  }

  /** For a width below 2^31 the output is as long as the larger of the width
      and the digit count, capped at 63; it holds only '0'-'9' and 'A'-'F'; and
      when not cut it is the value's digits preceded by zeros only. */
  lemma ZeroPaddedField(value: int, length: Option<int>)
    requires WidthOf(length) < 0x8000_0000
    ensures var s := Hex(value, length);
            var digits := FormatHex(ToUint(value));
            && |s| == Min(Max(WidthOf(length), |digits|), MAX_OUTPUT)
            && UpperHex(s)
            && (|s| == Max(WidthOf(length), |digits|) ==>
                  && s[|s| - |digits|..] == digits
                  && forall i :: 0 <= i < |s| - |digits| ==> s[i] == '0')
  {
    ZeroOutput(FormatHex(ToUint(value)), WidthOf(length));
  }

  /** Leading zeros do not change a digit string's value. */
  lemma {:induction false} LeadingZeros(k: int, digits: string)
    requires AllHex(digits)
    ensures AllHex(Repeat('0', k) + digits)
    ensures HexValue(Repeat('0', k) + digits) == HexValue(digits)
    decreases |digits|
  {
    var s := Repeat('0', k) + digits;
    if |digits| == 0 {
      assert s == Repeat('0', k);
      ZerosValue(k);
    } else {
      var init := digits[..|digits| - 1];
      LeadingZeros(k, init);
      assert s[..|s| - 1] == Repeat('0', k) + init;
      assert s[|s| - 1] == digits[|digits| - 1];
    }
  }

  lemma {:induction false} ZerosValue(k: int)
    ensures AllHex(Repeat('0', k))
    ensures HexValue(Repeat('0', k)) == 0
    decreases k
  {
    if k > 0 {
      ZerosValue(k - 1);
      var s := Repeat('0', k);
      assert s[..|s| - 1] == Repeat('0', k - 1) by {
        RepeatSplit(k);
      }
    }
  }

  /** `n` copies are `n - 1` copies and one more at the end. */
  lemma {:induction false} RepeatSplit(n: int)
    requires n > 0
    ensures Repeat('0', n) == Repeat('0', n - 1) + ['0']
  {
  }

  /** Whenever nothing is cut off, reading the output back as hex, by value or
      with strtoull, gives the coerced value: in particular for every width up
      to 63. */
  lemma HexRoundTrip(value: int, length: Option<int>)
    requires WidthOf(length) <= MAX_OUTPUT
    ensures var s := Hex(value, length);
            && UpperHex(s) && HexValue(s) == ToUint(value)
            && StrToULL(s) == ULLParse(ToUint(value), |s|) && ParsesFully(s)
  {
    AtMostEightDigits(value);
    HexValueOfFormatHex(ToUint(value));
    PaddedReadsBack(FormatHex(ToUint(value)), WidthOf(length));
  }

  /** Zero padding up to 63 characters keeps the digits' value, whether read by
      value or with strtoull. */
  lemma PaddedReadsBack(digits: string, width: u32)
    requires width <= MAX_OUTPUT && 1 <= |digits| <= MAX_OUTPUT && UpperHex(digits) && HexValue(digits) <= ULLONG_MAX
    ensures var s := Output(digits, width);
            && UpperHex(s) && HexValue(s) == HexValue(digits)
            && StrToULL(s) == ULLParse(HexValue(digits), |s|) && ParsesFully(s)
  {
    ZeroOutput(digits, width);
    var s := Output(digits, width);
    assert s == Repeat('0', width - |digits|) + digits;
    LeadingZeros(width - |digits|, digits);
    StrToULLOfDigits(s);
  }

  /** Without an argument the width is 8: every 32-bit value prints as exactly
      eight digits, and the same string as an explicit 8. */
  lemma DefaultWidth(value: int)
    ensures Hex(value, None) == Hex(value, Some(8))
    ensures |Hex(value, None)| == 8
    ensures HexValue(Hex(value, None)) == ToUint(value)
  {
    AtMostEightDigits(value);
    ZeroPaddedField(value, None);
    HexRoundTrip(value, None);
  }

  /** The left-justified output: the digits, then spaces up to the width. */
  lemma SpaceOutput(digits: string, width: u32)
    requires width >= 0x8000_0000 && 1 <= |digits| <= 8
    ensures var s := Output(digits, width);
            && |digits| <= |s| && s[..|digits|] == digits
            && |s| == Min(Max(TWO_32 - width, |digits|), MAX_OUTPUT)
            && forall i :: |digits| <= i < |s| ==> s[i] == ' '
  {
    var field := Field(digits, width);
    assert field[..|digits|] == digits;
    var s := Output(digits, width);
    assert forall i :: 0 <= i < |s| ==> s[i] == field[i];
  }

  /** A width of 2^31 or more left-justifies: the digits come first, followed
      by spaces only. */
  lemma LeftJustifiedField(value: int, length: Option<int>)
    requires WidthOf(length) >= 0x8000_0000
    ensures var s := Hex(value, length);
            var digits := FormatHex(ToUint(value));
            && |digits| <= |s| && s[..|digits|] == digits
            && |s| == Min(Max(TWO_32 - WidthOf(length), |digits|), MAX_OUTPUT)
            && forall i :: |digits| <= i < |s| ==> s[i] == ' '
  {
    AtMostEightDigits(value);
    SpaceOutput(FormatHex(ToUint(value)), WidthOf(length));
  }

  /** The width never truncates the digits: the value's digits always appear
      in full at the end of a zero-padded output that is not cut off. */
  lemma WidthIsMinimum(value: int, n: int)
    requires 0 <= n <= MAX_OUTPUT
    ensures |Hex(value, Some(n))| == Max(n, |FormatHex(ToUint(value))|)
    ensures var s := Hex(value, Some(n));
            s[|s| - |FormatHex(ToUint(value))|..] == FormatHex(ToUint(value))
  {
    AtMostEightDigits(value);
    ZeroPaddedField(value, Some(n));
  }

  /** Eight F digits for the largest 32-bit value. */
  lemma FormatHexAllOnes()
    ensures FormatHex(0xFFFF_FFFF) == "FFFFFFFF"
  {
    assert FormatHex(0xF) == "F";
    assert FormatHex(0xFF) == "FF";
    assert FormatHex(0xFFF) == "FFF";
    assert FormatHex(0xFFFF) == "FFFF";
    assert FormatHex(0xF_FFFF) == "FFFFF";
    assert FormatHex(0xFF_FFFF) == "FFFFFF";
    assert FormatHex(0xFFF_FFFF) == "FFFFFFF";
  }

  /** By default 255 prints as "000000FF", and a negative number clamps to 0. */
  lemma DefaultScenarios()
    ensures Hex(255, None) == "000000FF"
    ensures Hex(-1, None) == "00000000"
  {
    assert FormatHex(255) == "FF" by {
      assert FormatHex(15) == "F";
    }
    assert Repeat('0', 6) == "000000";
    assert Repeat('0', 7) == "0000000";
  }

  /** A narrow width never cuts digits: 255 at width 0 is "FF", and a number
      past 32 bits clamps to 0xFFFFFFFF, printed in full at width 2. */
  lemma NarrowScenarios()
    ensures Hex(255, Some(0)) == "FF"
    ensures Hex(0x1_0000_0000, Some(2)) == "FFFFFFFF"
  {
    assert FormatHex(255) == "FF" by {
      assert FormatHex(15) == "F";
    }
    FormatHexAllOnes();
  }
}
