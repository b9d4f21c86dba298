/** fft_cooley_tukey: the iterative radix-2 decimation-in-time transform.
    After the bit-reversal permutation, passes with block sizes
    len = 2, 4, ..., n combine the two halves of every block with butterflies. */
module CooleyTukey {
  import opened Bits
  import opened BitReversal
  import opened Arith

  /** A pass of block size len fits an array of length n: len is even and the
      blocks tile [0, n). */
  predicate PassFits(n: nat, len: nat)
  {
    len >= 2 && len % 2 == 0 && n % len == 0
  }

  /** A block that starts on a multiple of len below n ends within n. */
  lemma BlockFits(i: nat, len: nat, n: nat)
    requires len >= 1 && i % len == 0 && n % len == 0 && i < n
    ensures i + len <= n
  {
    var a, b := i / len, n / len;
    DivisionUnique(i, len, a, 0);
    DivisionUnique(n, len, b, 0);
    if a >= b {
      MulMonotone(len, b, a);
    }
    MulMonotone(len, a + 1, b);
  }

  /** Offsets inside a block are the remainders modulo the block size. */
  lemma BlockOffset(i: nat, len: nat, r: nat)
    requires len >= 1 && i % len == 0 && r < len
    ensures (i + r) % len == r
    ensures (i + len) % len == 0
  {
    var a := i / len;
    DivisionUnique(i + r, len, a, r);
    DivisionUnique(i + len, len, a + 1, 0);
  }

  /** The start of the block that holds position p. */
  lemma BlockStart(p: nat, len: nat)
    requires len >= 1
    ensures p - p % len >= 0 && (p - p % len) % len == 0
  {
    DivisionUnique(p - p % len, len, p / len, 0);
  }

  /** The value a pass of block size len leaves at position p, given the
      array s before the pass.  With j the offset of p in its block and
      h = len / 2, a lower position (j < h) receives u + v and an upper one
      receives u - v, where u is the lower element of the pair and v is the
      upper element times the block's running twiddle factor. */
  function Butterfly<T>(ops: Ops<T>, s: seq<T>, len: nat, p: nat): T
    requires PassFits(|s|, len) && p < |s|
  {
    var h := len / 2;
    var j := p % len;
    var wlen := ops.tw(1, len);
    BlockStart(p, len);
    BlockFits(p - j, len, |s|);
    if j < h then ops.add(s[p], ops.mul(s[p + h], RunningTwiddle(ops, wlen, j)))
    else ops.sub(s[p - h], ops.mul(s[p], RunningTwiddle(ops, wlen, j - h)))
  }

  /** One pass of the butterfly network, as a function of the array before it. */
  function Pass<T>(ops: Ops<T>, s: seq<T>, len: nat): (r: seq<T>)
    requires PassFits(|s|, len)
    ensures |r| == |s|
  {
    seq(|s|, p requires 0 <= p < |s| => Butterfly(ops, s, len, p))
  }

  /** The passes of block sizes 2^m, 2^(m+1), ..., n applied in turn: the
      outer loop runs while the block size is at most n. */
  function Stages<T>(ops: Ops<T>, s: seq<T>, m: nat): (r: seq<T>)
    requires m >= 1 && (|s| == 0 || IsPowerOfTwo(|s|))
    ensures |r| == |s|
    decreases Log2(|s|) + 1 - m
  {
    if Pow2(m) > |s| then s
    else
      BlockSizeFits(|s|, m);
      Stages(ops, Pass(ops, s, Pow2(m)), m + 1)
  }

  /** A block size 2^m up to n, for n a power of two, tiles the array and is
      one of the Log2(n) sizes of the outer loop. */
  lemma BlockSizeFits(n: nat, m: nat)
    requires m >= 1 && IsPowerOfTwo(n) && Pow2(m) <= n
    ensures m <= Log2(n) && PassFits(n, Pow2(m))
  {
    PowerOfTwoIsPow2(n);
    Pow2Divides(m, Log2(n));
    Pow2Even(m);
  }

  /** A stage whose block size fits in the array is one more pass. */
  lemma StageStep<T>(ops: Ops<T>, s: seq<T>, m: nat)
    requires m >= 1 && IsPowerOfTwo(|s|) && Pow2(m) <= |s|
    ensures m <= Log2(|s|) && PassFits(|s|, Pow2(m))
    ensures Stages(ops, s, m) == Stages(ops, Pass(ops, s, Pow2(m)), m + 1)
  {
    BlockSizeFits(|s|, m);
  }

  /** The outer loop stops exactly when all Log2(n) passes are done. */
  lemma StagesDone<T>(ops: Ops<T>, s: seq<T>, m: nat)
    requires m >= 1 && (|s| == 0 || IsPowerOfTwo(|s|)) && m <= Log2(|s|) + 1 && Pow2(m) > |s|
    ensures m == Log2(|s|) + 1 && Stages(ops, s, m) == s
  {
    if m <= Log2(|s|) {
      PowerOfTwoIsPow2(|s|);
      Pow2Monotone(m, Log2(|s|));
    }
  }

  /** The result of fft_cooley_tukey: bit reversal, then Log2(n) passes. */
  function Transform<T>(ops: Ops<T>, s: seq<T>): (r: seq<T>)
    requires |s| == 0 || IsPowerOfTwo(|s|)
    ensures |r| == |s|
  {
    Stages(ops, BitReversed(s), 1)
  }

  /** Each pass writes u + v to i + j and u - v to i + j + len/2, where u is
      the element at i + j, v the element at i + j + len/2 times the running
      twiddle factor, i a block start and j < len/2. */
  lemma PassWrites<T>(ops: Ops<T>, s: seq<T>, len: nat, i: nat, j: nat)
    requires PassFits(|s|, len) && i % len == 0 && i < |s| && j < len / 2
    ensures i + j + len / 2 < |s|
    ensures var v := ops.mul(s[i + j + len / 2], RunningTwiddle(ops, ops.tw(1, len), j));
      && Pass(ops, s, len)[i + j] == ops.add(s[i + j], v)
      && Pass(ops, s, len)[i + j + len / 2] == ops.sub(s[i + j], v)
  {
    var h := len / 2;
    BlockFits(i, len, |s|);
    var lo, hi := i + j, i + j + h;
    assert lo % len == j && lo - lo % len == i by {
      BlockOffset(i, len, j);
    }
    assert hi % len == j + h && hi - hi % len == i by {
      BlockOffset(i, len, j + h);
    }
    assert Pass(ops, s, len)[lo] == Butterfly(ops, s, len, lo);
    assert Pass(ops, s, len)[hi] == Butterfly(ops, s, len, hi);
  }

  /** The two positions of a butterfly are distinct and inside the array. */
  lemma ButterflyPairInBounds(n: nat, len: nat, i: nat, j: nat)
    requires PassFits(n, len) && i % len == 0 && i < n && j < len / 2
    ensures i + j < i + j + len / 2 < n
  {
    BlockFits(i, len, n);
  }

  /** No position is written by two butterflies of a pass: a block start i,
      an offset j < len/2 and the choice of lower or upper half determine the
      position, and the position determines all three. */
  lemma ButterflyWritesOnce(len: nat, i1: nat, j1: nat, upper1: bool, i2: nat, j2: nat, upper2: bool)
    requires len >= 2 && len % 2 == 0
    requires i1 % len == 0 && i2 % len == 0 && j1 < len / 2 && j2 < len / 2
    requires i1 + j1 + (if upper1 then len / 2 else 0) == i2 + j2 + (if upper2 then len / 2 else 0)
    ensures i1 == i2 && j1 == j2 && upper1 == upper2
  {
    var r1 := j1 + (if upper1 then len / 2 else 0);
    var r2 := j2 + (if upper2 then len / 2 else 0);
    DivisionUnique(i1, len, i1 / len, 0);
    DivisionUnique(i2, len, i2 / len, 0);
    DivisionUnique(i1 + r1, len, i1 / len, r1);
    DivisionUnique(i2 + r2, len, i2 / len, r2);
  }

  /** Every position of the array is written by some butterfly of the pass. */
  lemma ButterflyCovers(n: nat, len: nat, p: nat) returns (i: nat, j: nat, upper: bool)
    requires PassFits(n, len) && p < n
    ensures i % len == 0 && i < n && j < len / 2
    ensures p == i + j + (if upper then len / 2 else 0)
  {
    BlockStart(p, len);
    i := p - p % len;
    upper := p % len >= len / 2;
    j := if upper then p % len - len / 2 else p % len;
  }

  /** A sequence of at most one element is its own transform. */
  lemma TransformSmall<T>(ops: Ops<T>, s: seq<T>)
    requires |s| <= 1
    ensures Transform(ops, s) == s
  {
    assert BitReversed(s) == s;
  }

  /** One iteration of the outer loop of fft_cooley_tukey: every block of
      size len is combined by len/2 butterflies, w running through the powers
      of wlen. */
  method ButterflyPass<T>(ops: Ops<T>, x: array<T>, len: nat)
    requires PassFits(x.Length, len)
    modifies x
    ensures x[..] == Pass(ops, old(x[..]), len)
  {
    ghost var before := x[..];
    var n := x.Length;
    var wlen := ops.tw(1, len);
    var h := len / 2;
    var i := 0;
    while i < n
      invariant 0 <= i <= n && i % len == 0
      invariant forall p :: 0 <= p < n ==>
        x[p] == if p < i then Butterfly(ops, before, len, p) else before[p]
    {
      BlockFits(i, len, n);
      var w := ops.one;
      var j := 0;
      while j < h
        invariant 0 <= j <= h && w == RunningTwiddle(ops, wlen, j)
        invariant forall p :: 0 <= p < n ==>
          x[p] == if p < i + j || i + h <= p < i + h + j then Butterfly(ops, before, len, p) else before[p]
      {
        BlockOffset(i, len, j);
        BlockOffset(i, len, j + h);
        var u := x[i + j];
        var v := ops.mul(x[i + j + h], w);
        x[i + j] := ops.add(u, v);
        x[i + j + h] := ops.sub(u, v);
        w := ops.mul(w, wlen);
        j := j + 1;
      }
      BlockOffset(i, len, 0);
      i := i + len;
    }
    assert x[..] == Pass(ops, before, len);
  }

  /** fft_cooley_tukey, with n the array length.  The source indexes out of
      bounds when n is not a power of two (n = 6, len = 4, i = 4 reaches
      x[6]), so callers must pass a power of two; n = 0 does nothing.  The
      ghost result counts the passes of the outer loop. */
  method FftCooleyTukey<T>(ops: Ops<T>, x: array<T>) returns (ghost passes: nat)
    requires x.Length == 0 || IsPowerOfTwo(x.Length)
    modifies x
    ensures x[..] == Transform(ops, old(x[..]))
    ensures passes == Log2(x.Length)
  {
    BitReverse(x);
    ghost var reordered := x[..];
    var n := x.Length;
    ghost var k := Log2(n);
    var len := 2;
    passes := 0;
    while len <= n
      invariant len == Pow2(passes + 1) && passes <= k
      invariant Stages(ops, x[..], passes + 1) == Stages(ops, reordered, 1)
    {
      ghost var before := x[..];
      StageStep(ops, before, passes + 1);
      ButterflyPass(ops, x, len);
      assert Stages(ops, x[..], passes + 2) == Stages(ops, before, passes + 1);
      len := len * 2;
      passes := passes + 1;
    }
    StagesDone(ops, x[..], passes + 1);
  }
}
