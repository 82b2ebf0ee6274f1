/**
 * Fixed-width binary numerals, most significant digit first, and the
 * arithmetic facts that relate them to natural numbers.
 */
module Binary {

  /** An element of a `Uint8Array`. */
  type Byte = x: int | 0 <= x < 256

  function Pow2(n: nat): (r: nat)
    ensures r >= 1
  {
    if n == 0 then 1 else 2 * Pow2(n - 1)
  }

  predicate IsDigit(c: char) {
    c == '0' || c == '1'
  }

  predicate IsBinary(s: string) {
    forall i :: 0 <= i < |s| ==> IsDigit(s[i])
  }

  function DigitValue(c: char): nat {
    if c == '1' then 1 else 0
  }

  function Digit(b: nat): char
    requires b < 2
  {
    if b == 1 then '1' else '0'
  }

  /** The number a string of binary digits denotes, most significant digit first. */
  function Value(s: string): nat {
    if s == [] then 0 else 2 * Value(s[..|s| - 1]) + DigitValue(s[|s| - 1])
  }

  /** The `width` low-order bits of `n`, most significant first. */
  function Bits(n: nat, width: nat): (s: string)
    ensures |s| == width
  {
    if width == 0 then [] else Bits(n / 2, width - 1) + [Digit(n % 2)]
  }

  lemma {:induction false} BitsBinary(n: nat, w: nat)
    ensures IsBinary(Bits(n, w))
  {
    if w > 0 {
      BitsBinary(n / 2, w - 1);
    }
  }

  /** A string of `n` zero digits. */
  function Zeros(n: nat): (s: string)
    ensures |s| == n && forall i :: 0 <= i < n ==> s[i] == '0'
  {
    if n == 0 then [] else Zeros(n - 1) + ['0']
  }

  // ---------------------------------------------------------------------
  // Arithmetic helpers

  lemma {:induction false} Pow2Monotone(a: nat, b: nat)
    requires a <= b
    ensures Pow2(a) <= Pow2(b)
  {
    if a < b {
      Pow2Monotone(a, b - 1);
    }
  }

  lemma MulAtLeast(c: int, p: nat)
    requires c >= 1
    ensures c * p >= p
  {
  }

  lemma DivModUnique(a: nat, b: nat, p: nat)
    requires b < p
    ensures (a * p + b) / p == a && (a * p + b) % p == b
  {
    var x := a * p + b;
    var q, r := x / p, x % p;
    assert x == q * p + r;
    if q < a {
      assert (a - q) * p == r - b;
      MulAtLeast(a - q, p);
    } else if q > a {
      assert (q - a) * p == b - r;
      MulAtLeast(q - a, p);
    }
  }

  lemma DivHalf(n: nat, p: nat)
    requires p >= 1
    ensures (n / 2) / p == n / (2 * p)
    ensures n % (2 * p) == 2 * ((n / 2) % p) + n % 2
  {
    var q, r := (n / 2) / p, (n / 2) % p;
    assert n / 2 == q * p + r;
    assert n == q * (2 * p) + (2 * r + n % 2);
    DivModUnique(q, 2 * r + n % 2, 2 * p);
  }

  // ---------------------------------------------------------------------
  // Value and Bits

  /** A numeral of `|s|` digits denotes less than 2^|s|. */
  lemma {:induction false} ValueBound(s: string)
    ensures Value(s) < Pow2(|s|)
  {
    if s != [] {
      ValueBound(s[..|s| - 1]);
    }
  }

  /** Concatenating numerals shifts the first by the width of the second. */
  lemma {:induction false} ValueAppend(a: string, b: string)
    ensures Value(a + b) == Value(a) * Pow2(|b|) + Value(b)
  {
    if b == [] {
      assert a + b == a;
    } else {
      var b', d := b[..|b| - 1], DigitValue(b[|b| - 1]);
      assert (a + b)[..|a + b| - 1] == a + b';
      assert Value(a + b) == 2 * Value(a + b') + d;
      ValueAppend(a, b');
      assert Value(b) == 2 * Value(b') + d;
      assert Pow2(|b|) == 2 * Pow2(|b'|);
      DoubleShift(Value(a), Pow2(|b'|), Value(b'), d);
    }
  }

  lemma DoubleShift(x: nat, p: nat, y: nat, d: nat)
    ensures 2 * (x * p + y) + d == x * (2 * p) + (2 * y + d)
  {
  }

  /** Leading zeros do not change the number a numeral denotes. */
  lemma {:induction false} ValueZerosPrefix(n: nat, s: string)
    ensures Value(Zeros(n) + s) == Value(s)
  {
    var z := Zeros(n);
    ZerosValue(n);
    ValueAppend(z, s);
    assert Value(z) * Pow2(|s|) == 0;
  }

  lemma {:induction false} ZerosValue(n: nat)
    ensures Value(Zeros(n)) == 0
  {
    if n > 0 {
      assert Zeros(n)[..n - 1] == Zeros(n - 1);
      ZerosValue(n - 1);
    }
  }

  /** Reading back `Bits(n, w)` gives the low `w` bits of `n`. */
  lemma {:induction false} ValueOfBits(n: nat, w: nat)
    ensures Value(Bits(n, w)) == n % Pow2(w)
  {
    if w > 0 {
      var s := Bits(n, w);
      assert s[..w - 1] == Bits(n / 2, w - 1);
      ValueOfBits(n / 2, w - 1);
      DivHalf(n, Pow2(w - 1));
    }
  }

  /** A `w`-bit numeral of a number below 2^w denotes that number. */
  lemma ValueOfSmallBits(n: nat, w: nat)
    requires n < Pow2(w)
    ensures Value(Bits(n, w)) == n
  {
    ValueOfBits(n, w);
    DivModUnique(0, n, Pow2(w));
  }

  /** The 8-digit numeral of a byte denotes that byte. */
  lemma ByteBitsValue(b: Byte)
    ensures Value(Bits(b, 8)) == b
  {
    Pow2Byte();
    ValueOfSmallBits(b, 8);
  }

  lemma Pow2Byte()
    ensures Pow2(8) == 256
  {
  }

  lemma Pow2Nibble()
    ensures Pow2(4) == 16
  {
  }

  lemma Pow2Eleven()
    ensures Pow2(11) == 2048
  {
  }

  /** Writing out a numeral's value at the numeral's width gives the numeral back. */
  lemma {:induction false} BitsOfValue(s: string)
    requires IsBinary(s)
    ensures Bits(Value(s), |s|) == s
  {
    if s != [] {
      var t := s[..|s| - 1];
      var c := s[|s| - 1];
      BitsOfValue(t);
      assert IsDigit(c);
      assert Value(s) / 2 == Value(t) && Value(s) % 2 == DigitValue(c);
      assert s == t + [c];
    }
  }

  /** The leading `k` of `w` bits of `n` are the `k` low bits of `n / 2^(w-k)`. */
  lemma {:induction false} BitsPrefix(n: nat, w: nat, k: nat)
    requires k <= w
    ensures Bits(n, w)[..k] == Bits(n / Pow2(w - k), k)
  {
    if k < w {
      BitsPrefix(n / 2, w - 1, k);
      DivHalf(n, Pow2(w - 1 - k));
      assert Bits(n, w)[..k] == Bits(n / 2, w - 1)[..k];
    }
  }

  /**
   * The digits `i..j` of a numeral denote the number obtained by shifting the
   * whole value right past digit `j` and keeping `j - i` bits.
   */
  lemma SliceValue(s: string, i: nat, j: nat)
    requires i <= j <= |s|
    ensures Value(s[i..j]) == (Value(s) / Pow2(|s| - j)) % Pow2(j - i)
  {
    var head, tail := s[..j], s[j..];
    assert s == head + tail;
    ValueAppend(head, tail);
    ValueBound(tail);
    DivModUnique(Value(head), Value(tail), Pow2(|tail|));
    var pre, mid := s[..i], s[i..j];
    assert head == pre + mid;
    ValueAppend(pre, mid);
    ValueBound(mid);
    DivModUnique(Value(pre), Value(mid), Pow2(|mid|));
  }
}
