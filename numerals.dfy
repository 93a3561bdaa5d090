/**
  Positional numerals as Python writes and reads them: `bin(v)[2:]`,
  `"%x" % v`, `int(s, 2)`, zero padding on the left and `s[::-1]`.
  Digits are the characters '0'..'9' and 'a'..'f', most significant first.
 */
module Numerals {

  function Pow(base: nat, n: nat): (r: nat)
    ensures base >= 1 ==> r >= 1
  {
    if n == 0 then 1 else base * Pow(base, n - 1)
  }

  lemma MulLe(a: nat, b: nat, c: nat)
    requires b <= c
    ensures a * b <= a * c
  {
  }

  /** One more digit below the next power: a * b + d < a * c when b < c and d < a. */
  lemma MulStep(a: nat, b: nat, c: nat, d: nat)
    requires b < c && d < a
    ensures a * b + d < a * c
  {
    assert a * (b + 1) <= a * c;
  }

  lemma DivStep(v: nat, b: nat)
    requires b > 0
    ensures b * (v / b) + v % b == v
  {
  }

  /** Integer division against a bound, without a multiplication of unknowns left to the solver. */
  lemma DivLt(v: nat, b: nat, p: nat)
    requires b > 0
    ensures v / b < p <==> v < b * p
  {
    var q, r := v / b, v % b;
    assert v == b * q + r && r < b;
    if q < p {
      MulLe(b, q + 1, p);
    } else {
      MulLe(b, p, q);
    }
  }

  /** Dividing a positive number by at least two makes it smaller. */
  lemma DivShrinks(v: nat, b: nat)
    requires b >= 2 && v >= 1
    ensures v / b < v
  {
    var q := v / b;
    DivStep(v, b);
    MulLe(q, 2, b);
  }

  /** The quotient and remainder of q * w + t by w, for t < w. */
  lemma DivModOf(q: nat, t: nat, w: nat)
    requires t < w
    ensures (q * w + t) / w == q && (q * w + t) % w == t
  {
    var j := q * w + t;
    var q', t' := j / w, j % w;
    assert j == q' * w + t' && t' < w;
    if q' < q {
      MulLe(w, q' + 1, q);
    } else if q < q' {
      MulLe(w, q + 1, q');
    }
  }

  lemma PowAtLeastBase(base: nat, n: nat)
    requires base >= 1 && n >= 1
    ensures Pow(base, n) >= base
  {
    MulLe(base, 1, Pow(base, n - 1));
  }

  lemma {:induction false} PowMonotone(base: nat, a: nat, b: nat)
    requires base >= 1 && a <= b
    ensures Pow(base, a) <= Pow(base, b)
    decreases b
  {
    if a < b {
      PowMonotone(base, a, b - 1);
      MulLe(base, 1, Pow(base, b - 1));
    }
  }

  /** Sixteen to the n is two to the 4n: one hex digit per four bits. */
  lemma {:induction false} PowSixteen(n: nat)
    ensures Pow(16, n) == Pow(2, 4 * n)
  {
    if n > 0 {
      PowSixteen(n - 1);
      calc {
        Pow(2, 4 * n);
        2 * Pow(2, 4 * n - 1);
        2 * (2 * Pow(2, 4 * n - 2));
        2 * (2 * (2 * Pow(2, 4 * n - 3)));
        2 * (2 * (2 * (2 * Pow(2, 4 * (n - 1)))));
        16 * Pow(16, n - 1);
      }
    }
  }

  /** The digit Python prints for d in bases up to 16 (lowercase). */
  function DigitChar(d: nat): (c: char)
    requires d < 16
    ensures IsDigitChar(c) && DigitValue(c) == d
  {
    if d < 10 then ('0' as int + d) as char else ('a' as int + d - 10) as char
  }

  predicate IsDigitChar(c: char)
  {
    '0' <= c <= '9' || 'a' <= c <= 'f'
  }

  function DigitValue(c: char): (d: nat)
    requires IsDigitChar(c)
    ensures d < 16
  {
    if c <= '9' then c as int - '0' as int else c as int - 'a' as int + 10
  }

  lemma DigitCharOfValue(c: char)
    requires IsDigitChar(c)
    ensures DigitChar(DigitValue(c)) == c
  {
  }

  /** Every character of s is a digit of the given base. */
  predicate IsNumeral(s: string, base: nat)
  {
    forall i :: 0 <= i < |s| ==> IsDigitChar(s[i]) && DigitValue(s[i]) < base
  }

  lemma NumeralSlice(s: string, base: nat, lo: nat, hi: nat)
    requires IsNumeral(s, base) && lo <= hi <= |s|
    ensures IsNumeral(s[lo..hi], base)
  {
    forall i | 0 <= i < hi - lo
      ensures IsDigitChar(s[lo..hi][i]) && DigitValue(s[lo..hi][i]) < base
    {
      assert s[lo..hi][i] == s[lo + i];
    }
  }

  /** `int(s, base)`: the value of the digits of s, most significant first. */
  function ParseBase(s: string, base: nat): (v: nat)
    requires IsNumeral(s, base)
    ensures v < Pow(base, |s|)
  {
    if s == [] then 0
    else
      var n := |s| - 1;
      NumeralSlice(s, base, 0, n);
      var high, d := ParseBase(s[..n], base), DigitValue(s[n]);
      MulStep(base, high, Pow(base, n), d);
      MulLe(base, 0, high);
      assert Pow(base, |s|) == base * Pow(base, n);
      base * high + d
  }

  /** Appending one digit: the numeral's value is shifted up one place and the digit added. */
  lemma NumeralAppend(s: string, c: char, base: nat)
    requires IsNumeral(s, base) && IsDigitChar(c) && DigitValue(c) < base
    ensures IsNumeral(s + [c], base)
    ensures ParseBase(s + [c], base) == base * ParseBase(s, base) + DigitValue(c)
  {
    var t := s + [c];
    forall i | 0 <= i < |t|
      ensures IsDigitChar(t[i]) && DigitValue(t[i]) < base
    {
      if i < |s| { assert t[i] == s[i]; }
    }
    assert t[..|s|] == s;
  }

  /**
    The shortest numeral of v in base: `bin(v)[2:]` for base 2, `"%x" % v`
    for base 16. Zero is "0"; no other value has a leading zero.
   */
  function ToBase(v: nat, base: nat): (s: string)
    requires 2 <= base <= 16
    ensures IsNumeral(s, base) && |s| >= 1
    ensures ParseBase(s, base) == v
    decreases v
  {
    if v < base then [DigitChar(v)]
    else
      DivShrinks(v, base);
      var high, d := ToBase(v / base, base), v % base;
      NumeralAppend(high, DigitChar(d), base);
      DivStep(v, base);
      high + [DigitChar(d)]
  }

  /** The numeral of v fits in n digits exactly when n is positive and v < base^n. */
  lemma {:induction false} ToBaseFits(v: nat, base: nat, n: nat)
    requires 2 <= base <= 16
    ensures |ToBase(v, base)| <= n <==> n >= 1 && v < Pow(base, n)
    decreases v
  {
    if v < base {
      if n >= 1 { PowAtLeastBase(base, n); }
    } else if n >= 1 {
      var q := v / base;
      DivShrinks(v, base);
      assert |ToBase(v, base)| == |ToBase(q, base)| + 1;
      ToBaseFits(q, base, n - 1);
      DivLt(v, base, Pow(base, n - 1));
      assert Pow(base, n) == base * Pow(base, n - 1);
    }
  }

  /** `"0" * k` */
  function Zeros(k: nat): (s: string)
    ensures |s| == k && forall i :: 0 <= i < k ==> s[i] == '0'
  {
    if k == 0 then [] else Zeros(k - 1) + ['0']
  }

  /** `"0" * (n - len(s)) + s`: left-pads s with zeros to n characters. */
  function PadLeft(s: string, n: nat): (r: string)
    ensures |r| == if |s| < n then n else |s|
  {
    if |s| < n then Zeros(n - |s|) + s else s
  }

  lemma {:induction false} ParseZerosPrefix(k: nat, s: string, base: nat)
    requires base >= 1 && IsNumeral(s, base)
    ensures IsNumeral(Zeros(k) + s, base)
    ensures ParseBase(Zeros(k) + s, base) == ParseBase(s, base)
    decreases |s|, k
  {
    if s == [] {
      assert Zeros(k) + s == Zeros(k);
      if k > 0 {
        ParseZerosPrefix(k - 1, s, base);
        assert Zeros(k - 1) + s == Zeros(k - 1);
        NumeralAppend(Zeros(k - 1), '0', base);
      }
    } else {
      var n := |s| - 1;
      var front, c := s[..n], s[n];
      assert s == front + [c];
      assert Zeros(k) + s == (Zeros(k) + front) + [c];
      NumeralSlice(s, base, 0, n);
      ParseZerosPrefix(k, front, base);
      NumeralAppend(front, c, base);
      NumeralAppend(Zeros(k) + front, c, base);
    }
  }

  /** Padding on the left with zeros keeps a numeral's value. */
  lemma PadLeftValue(s: string, n: nat, base: nat)
    requires base >= 1 && IsNumeral(s, base)
    ensures IsNumeral(PadLeft(s, n), base)
    ensures ParseBase(PadLeft(s, n), base) == ParseBase(s, base)
  {
    if |s| < n {
      ParseZerosPrefix(n - |s|, s, base);
    }
  }

  /** `s[::-1]` */
  function Reverse(s: string): (r: string)
    ensures |r| == |s| && forall i :: 0 <= i < |s| ==> r[i] == s[|s| - 1 - i]
  {
    if s == [] then [] else [s[|s| - 1]] + Reverse(s[..|s| - 1])
  }

  /** Bit i of v, that is `(v >> i) & 1`. */
  function Bit(v: nat, i: nat): (b: nat)
    ensures b < 2
  {
    if i == 0 then v % 2 else Bit(v / 2, i - 1)
  }

  /** Bit i of a binary numeral's value is its i-th digit counted from the right. */
  lemma {:induction false} BitOfParse(s: string, i: nat)
    requires IsNumeral(s, 2) && i < |s|
    ensures Bit(ParseBase(s, 2), i) == DigitValue(s[|s| - 1 - i])
  {
    var front := s[..|s| - 1];
    assert ParseBase(s, 2) == 2 * ParseBase(front, 2) + DigitValue(s[|s| - 1]);
    if i > 0 {
      BitOfParse(front, i - 1);
    }
  }

  /** Two values below 2^n with the same n low bits are equal. */
  lemma {:induction false} BitsDetermine(a: nat, b: nat, n: nat)
    requires a < Pow(2, n) && b < Pow(2, n)
    requires forall i :: 0 <= i < n ==> Bit(a, i) == Bit(b, i)
    ensures a == b
  {
    if n > 0 {
      assert Bit(a, 0) == Bit(b, 0);
      forall i | 0 <= i < n - 1
        ensures Bit(a / 2, i) == Bit(b / 2, i)
      {
        assert Bit(a, i + 1) == Bit(b, i + 1);
      }
      BitsDetermine(a / 2, b / 2, n - 1);
    }
  }

  /** The w-bit binary numeral of v, most significant bit first (v taken modulo 2^w). */
  function Digits(v: nat, w: nat): (s: string)
    ensures |s| == w && IsNumeral(s, 2)
  {
    if w == 0 then [] else Digits(v / 2, w - 1) + [DigitChar(v % 2)]
  }

  /** Digit j of the w-bit numeral of v is bit w-1-j of v. */
  lemma {:induction false} DigitsAt(v: nat, w: nat, j: nat)
    requires j < w
    ensures DigitValue(Digits(v, w)[j]) == Bit(v, w - 1 - j)
  {
    if j < w - 1 {
      DigitsAt(v / 2, w - 1, j);
    }
  }

  /** The value of a binary numeral read least significant bit first, the order a right shift takes its bits out. */
  function LsbValue(s: string): (v: nat)
    requires IsNumeral(s, 2)
    ensures v < Pow(2, |s|)
  {
    if s == [] then 0 else DigitValue(s[0]) + 2 * LsbValue(s[1..])
  }

  /** A right shift of LsbValue(s) takes out the first digit of s and leaves the value of the rest. */
  lemma LsbShift(s: string)
    requires IsNumeral(s, 2) && |s| >= 1
    ensures LsbValue(s) % 2 == DigitValue(s[0])
    ensures LsbValue(s) / 2 == LsbValue(s[1..])
  {
    var v, d, rest := LsbValue(s), DigitValue(s[0]), LsbValue(s[1..]);
    var sum := rest * 2 + d;
    assert v == sum;
    DivModOf(rest, d, 2);
    assert sum / 2 == rest && sum % 2 == d;
  }

  /** Bit j of LsbValue(s) is the j-th digit of s. */
  lemma {:induction false} LsbBit(s: string, j: nat)
    requires IsNumeral(s, 2) && j < |s|
    ensures Bit(LsbValue(s), j) == DigitValue(s[j])
  {
    LsbShift(s);
    if j > 0 {
      LsbBit(s[1..], j - 1);
    }
  }
}
