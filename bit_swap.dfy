/** `swapBits(value, width)`: the value whose width-bit binary is that of value read backwards. */
module BitSwap {
  import opened Wrappers
  import opened Numerals

  /**
    Reverses the bit order of value within width bits. None is the
    "input is too big" assertion, raised when `bin(value)[2:]` has more
    than width digits; since zero prints as "0", that includes width 0.
   */
  function SwapBits(value: nat, width: nat): (r: Option<nat>)
    ensures r.Some? <==> width >= 1 && value < Pow(2, width)
    ensures r.Some? ==> r.value < Pow(2, width)
    ensures r.Some? ==> forall i :: 0 <= i < width ==> Bit(r.value, i) == Bit(value, width - 1 - i)
  {
    var digits := ToBase(value, 2);
    ToBaseFits(value, 2, width);
    if |digits| <= width then
      var padded := PadLeft(digits, width);
      PadLeftValue(digits, width, 2);
      ReversedBits(padded);
      Some(ParseBase(Reverse(padded), 2))
    else
      None
  }

  lemma ReverseNumeral(s: string)
    requires IsNumeral(s, 2)
    ensures IsNumeral(Reverse(s), 2)
  {
    var r := Reverse(s);
    forall i | 0 <= i < |r|
      ensures IsDigitChar(r[i]) && DigitValue(r[i]) < 2
    {
      assert r[i] == s[|s| - 1 - i];
    }
  }

  /** Reading a binary numeral backwards reverses the order of its value's bits. */
  lemma ReversedBits(s: string)
    requires IsNumeral(s, 2)
    ensures IsNumeral(Reverse(s), 2)
    ensures forall i :: 0 <= i < |s| ==>
      Bit(ParseBase(Reverse(s), 2), i) == Bit(ParseBase(s, 2), |s| - 1 - i)
  {
    ReverseNumeral(s);
    forall i | 0 <= i < |s|
      ensures Bit(ParseBase(Reverse(s), 2), i) == Bit(ParseBase(s, 2), |s| - 1 - i)
    {
      ReversedBitAt(s, i);
    }
  }

  lemma ReversedBitAt(s: string, i: nat)
    requires IsNumeral(s, 2) && IsNumeral(Reverse(s), 2) && i < |s|
    ensures Bit(ParseBase(Reverse(s), 2), i) == Bit(ParseBase(s, 2), |s| - 1 - i)
  {
    var r := Reverse(s);
    BitOfParse(r, i);
    BitOfParse(s, |s| - 1 - i);
    assert r[|r| - 1 - i] == s[|s| - 1 - (|s| - 1 - i)];
  }

  /** Swapping twice gives the value back. */
  lemma SwapBitsInvolution(value: nat, width: nat)
    requires SwapBits(value, width).Some?
    ensures SwapBits(SwapBits(value, width).value, width) == Some(value)
  {
    var once := SwapBits(value, width).value;
    var twice := SwapBits(once, width).value;
    forall i | 0 <= i < width
      ensures Bit(twice, i) == Bit(value, i)
    {
      assert Bit(twice, i) == Bit(once, width - 1 - i);
    }
    BitsDetermine(twice, value, width);
  }

  /** Read least significant bit first, the swapped word gives the word's binary digits most significant first. */
  lemma SwapBitsLsb(value: nat, width: nat)
    requires width >= 1 && value < Pow(2, width)
    ensures SwapBits(value, width) == Some(LsbValue(Digits(value, width)))
  {
    var digits := Digits(value, width);
    var swapped := SwapBits(value, width).value;
    forall i | 0 <= i < width
      ensures Bit(swapped, i) == Bit(LsbValue(digits), i)
    {
      LsbBit(digits, i);
      DigitsAt(value, width, i);
    }
    BitsDetermine(swapped, LsbValue(digits), width);
  }
}
