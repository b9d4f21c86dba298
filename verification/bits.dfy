/** Bit arithmetic behind the radix-2 FFT: powers of two, the floor of the
    base-2 logarithm that bit_reverse counts, and reversal of the low bits of
    an index (reverse_bits). */
module Bits {

  /** 2^k. */
  function Pow2(k: nat): (r: nat)
    ensures r >= 1
  {
    if k == 0 then 1 else 2 * Pow2(k - 1)
  }

  /** Every power of two from 2 on is even. */
  lemma Pow2Even(k: nat)
    requires k >= 1
    ensures Pow2(k) >= 2 && Pow2(k) % 2 == 0
  {
    assert Pow2(k) == 2 * Pow2(k - 1);
  }

  /** n is 1, 2, 4, 8, ... */
  predicate IsPowerOfTwo(n: int)
    decreases if n < 0 then 0 else n
  {
    n == 1 || (n >= 2 && n % 2 == 0 && IsPowerOfTwo(n / 2))
  }

  /** The floor of log2(n) for n >= 1, and 0 for n <= 1: the number of times
      n can be halved (by a right shift) before it drops to 1 or below. */
  function Log2(n: int): (r: nat)
    ensures n >= 1 ==> Pow2(r) <= n < 2 * Pow2(r)
    decreases if n < 0 then 0 else n
  {
    if n <= 1 then 0 else 1 + Log2(n / 2)
  }

  lemma {:induction false} Pow2Monotone(a: nat, b: nat)
    requires a <= b
    ensures Pow2(a) <= Pow2(b)
    ensures a < b ==> 2 * Pow2(a) <= Pow2(b)
  {
    if a < b {
      Pow2Monotone(a, b - 1);
    }
  }

  lemma {:induction false} Pow2Add(a: nat, b: nat)
    ensures Pow2(a + b) == Pow2(a) * Pow2(b)
  {
    if b > 0 {
      Pow2Add(a, b - 1);
      MulTwice(Pow2(a), Pow2(b - 1));
    }
  }

  /** The powers of two are exactly the values Pow2(k), and Log2 recovers k. */
  lemma {:induction false} PowerOfTwoIsPow2(n: int)
    requires IsPowerOfTwo(n)
    ensures Pow2(Log2(n)) == n
  {
    if n != 1 {
      PowerOfTwoIsPow2(n / 2);
    }
  }

  lemma {:induction false} Pow2IsPowerOfTwo(k: nat)
    ensures IsPowerOfTwo(Pow2(k)) && Log2(Pow2(k)) == k
  {
    if k > 0 {
      Pow2IsPowerOfTwo(k - 1);
      assert Pow2(k) / 2 == Pow2(k - 1);
    }
  }

  /** A smaller power of two divides a larger one. */
  lemma {:induction false} Pow2Divides(a: nat, b: nat)
    requires a <= b
    ensures Pow2(b) % Pow2(a) == 0
  {
    Pow2Add(a, b - a);
    var q := Pow2(b - a);
    assert Pow2(b) == Pow2(a) * q;
    DivisionUnique(Pow2(b), Pow2(a), q, 0);
  }

  /** Division with remainder is unique. */
  lemma DivisionUnique(x: int, d: int, q: int, r: int)
    requires d > 0 && 0 <= r < d && x == d * q + r
    ensures x / d == q && x % d == r
  {
    var q', r' := x / d, x % d;
    assert x == d * q' + r';
    if q > q' {
      MulMonotone(d, q' + 1, q);
    } else if q < q' {
      MulMonotone(d, q + 1, q');
    }
  }

  lemma MulTwice(p: int, q: int)
    ensures 2 * (p * q) == p * (2 * q)
  {
  }

  lemma MulMonotone(d: int, a: int, b: int)
    requires d >= 0 && a <= b
    ensures d * a <= d * b
  {
    var e := b - a;
    assert d * b == d * a + d * e;
  }

  lemma Distribute(a: int, b: int, h: int)
    requires b == 0 || b == 1
    ensures (2 * a + b) * h == a * (2 * h) + (if b == 1 then h else 0)
  {
  }

  /** The bits b_0 .. b_{k-1} of x, least significant first. */
  function ToBits(x: int, k: nat): (bs: seq<bool>)
    ensures |bs| == k
    decreases k
  {
    if k == 0 then [] else [x % 2 == 1] + ToBits(x / 2, k - 1)
  }

  /** The value of a sequence of bits, least significant first. */
  function FromBits(bs: seq<bool>): nat
  {
    if bs == [] then 0 else (if bs[0] then 1 else 0) + 2 * FromBits(bs[1..])
  }

  function Reverse(s: seq<bool>): (r: seq<bool>)
    ensures |r| == |s|
  {
    if s == [] then [] else Reverse(s[1..]) + [s[0]]
  }

  /** Reversing the low k bits of num, computed the way reverse_bits shifts
      them: the lowest bit of num becomes bit k-1 of the result. */
  function Rev(num: int, k: nat): (r: nat)
    ensures r < Pow2(k)
    decreases k
  {
    if k == 0 then 0 else (if num % 2 == 1 then Pow2(k - 1) else 0) + Rev(num / 2, k - 1)
  }

  lemma {:induction false} FromBitsSnoc(bs: seq<bool>, b: bool)
    ensures FromBits(bs + [b]) == FromBits(bs) + (if b then Pow2(|bs|) else 0)
  {
    if bs != [] {
      assert (bs + [b])[1..] == bs[1..] + [b];
      FromBitsSnoc(bs[1..], b);
    }
  }

  /** Rev agrees with the textbook definition: write the k-bit binary
      representation of num, read it backwards. */
  lemma {:induction false} RevIsReversedBits(num: int, k: nat)
    ensures Rev(num, k) == FromBits(Reverse(ToBits(num, k)))
    decreases k
  {
    if k > 0 {
      var rest := ToBits(num / 2, k - 1);
      assert ToBits(num, k)[1..] == rest;
      assert Reverse(ToBits(num, k)) == Reverse(rest) + [num % 2 == 1];
      FromBitsSnoc(Reverse(rest), num % 2 == 1);
      RevIsReversedBits(num / 2, k - 1);
    }
  }

  lemma {:induction false} RevZero(k: nat)
    ensures Rev(0, k) == 0
  {
    if k > 0 {
      RevZero(k - 1);
    }
  }

  /** Putting a bit on top of a k-bit value b and reversing k+1 bits puts
      that bit at the bottom: Rev(top 2^k + b, k+1) == 2 Rev(b, k) + top. */
  lemma {:induction false} RevTopBit(top: bool, b: int, k: nat)
    requires 0 <= b < Pow2(k)
    ensures Rev((if top then Pow2(k) else 0) + b, k + 1) == 2 * Rev(b, k) + (if top then 1 else 0)
  {
    if k > 0 {
      var t := if top then Pow2(k - 1) else 0;
      var x := (if top then Pow2(k) else 0) + b;
      assert x == 2 * (t + b / 2) + b % 2 by {
        assert Pow2(k) == 2 * Pow2(k - 1);
      }
      DivisionUnique(x, 2, t + b / 2, b % 2);
      RevTopBit(top, b / 2, k - 1);
      assert Rev(t + b / 2, k) == 2 * Rev(b / 2, k - 1) + (if top then 1 else 0);
    }
  }

  /** Reversing the low k bits twice gives back every k-bit value: the reason
      bit_reverse may swap each pair once, from its smaller index. */
  lemma {:induction false} RevInvolution(x: int, k: nat)
    requires 0 <= x < Pow2(k)
    ensures Rev(Rev(x, k), k) == x
  {
    if k > 0 {
      var b := Rev(x / 2, k - 1);
      RevTopBit(x % 2 == 1, b, k - 1);
      RevInvolution(x / 2, k - 1);
    }
  }

  /** reverse_bits: shift the low bit of num into result, log2n times.  num is
      a C int: `num & 1` is num mod 2, which is what % 2 computes here.  For
      num >= 0, `num >>= 1` is num / 2; for negative num C leaves the shift
      implementation-defined, and / 2 here is the arithmetic shift common
      compilers emit.  bit_reverse only passes indices i >= 0. */
  method ReverseBits(num: int, log2n: nat) returns (result: int)
    ensures result == Rev(num, log2n)
    ensures 0 <= result < Pow2(log2n)
  {
    result := 0;
    var rest := num;
    var i := 0;
    while i < log2n
      invariant 0 <= i <= log2n
      invariant result * Pow2(log2n - i) + Rev(rest, log2n - i) == Rev(num, log2n)
    {
      ghost var m := log2n - i;
      ghost var h := Pow2(m - 1);
      assert Pow2(m) == 2 * h;
      assert Rev(rest, m) == (if rest % 2 == 1 then h else 0) + Rev(rest / 2, m - 1);
      Distribute(result, rest % 2, h);
      result := 2 * result + rest % 2;
      rest := rest / 2;
      i := i + 1;
    }
  }

  /** The counting loop at the head of bit_reverse: halve n until it is at
      most 1. */
  method CountLog2(n: int) returns (log2n: nat)
    ensures log2n == Log2(n)
    ensures n >= 1 ==> Pow2(log2n) <= n < 2 * Pow2(log2n)
    ensures n <= 1 ==> log2n == 0
    ensures IsPowerOfTwo(n) ==> Pow2(log2n) == n
  {
    log2n := 0;
    var temp := n;
    while temp > 1
      invariant log2n + Log2(temp) == Log2(n)
      invariant n >= 1 ==> temp >= 1
      invariant IsPowerOfTwo(n) ==> IsPowerOfTwo(temp)
    {
      log2n := log2n + 1;
      temp := temp / 2;
    }
    if IsPowerOfTwo(n) {
      PowerOfTwoIsPow2(n);
    }
  }
}
