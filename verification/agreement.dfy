/** The two transforms of fft.c compute the same thing.  fft_recursive exists
    to cross-check fft_cooley_tukey; in floating point the two agree only
    within rounding, but over exact arithmetic they agree exactly, given two
    facts about complex numbers: multiplication commutes, and the running
    factor (e^(-2 pi i / len))^j that the iterative passes build equals the
    twiddle factor e^(-2 pi i j / len) that the recursion computes directly. */
module Agreement {
  import opened Bits
  import opened BitReversal
  import opened Arith
  import opened CooleyTukey
  import opened Recursive

  /** mul commutes, as complex multiplication does. */
  ghost predicate MulCommutes<T(!new)>(ops: Ops<T>)
  {
    forall a: T, b: T :: ops.mul(a, b) == ops.mul(b, a)
  }

  /** j steps of w *= tw(1, len) from w = 1 reach tw(j, len), as they do in
      exact complex arithmetic. */
  ghost predicate TwiddlePowers<T>(ops: Ops<T>)
  {
    forall len: nat, j: nat :: RunningTwiddle(ops, ops.tw(1, len), j) == ops.tw(j, len)
  }

  /** Bit reversal of 2^(k+1) elements lays out the bit reversal of the even
      half followed by that of the odd half. */
  lemma BitReversedSplit<T>(s: seq<T>, k: nat)
    requires |s| == Pow2(k + 1)
    ensures BitReversed(s) == BitReversed(Evens(s)) + BitReversed(Odds(s))
  {
    var h := Pow2(k);
    var r := BitReversed(Evens(s)) + BitReversed(Odds(s));
    forall p | 0 <= p < |s|
      ensures BitReversed(s)[p] == r[p]
    {
      if p < h {
        BitReversedLower(s, k, p);
      } else {
        BitReversedUpper(s, k, p - h);
      }
    }
  }

  /** The lower half of the reordered array is the reordered even half ... */
  lemma BitReversedLower<T>(s: seq<T>, k: nat, p: nat)
    requires |s| == Pow2(k + 1) && p < Pow2(k)
    ensures p < |s| && p < |Evens(s)| && BitReversed(s)[p] == BitReversed(Evens(s))[p]
  {
    var e := Evens(s);
    SourceIndexLower(k, p);
    var q := SourceIndex(p, Pow2(k));
    assert BitReversed(e)[p] == e[q];
    assert e[q] == s[2 * q];
  }

  /** ... and the upper half the reordered odd half. */
  lemma BitReversedUpper<T>(s: seq<T>, k: nat, b: nat)
    requires |s| == Pow2(k + 1) && b < Pow2(k)
    ensures Pow2(k) + b < |s| && b < |Odds(s)|
    ensures BitReversed(s)[Pow2(k) + b] == BitReversed(Odds(s))[b]
  {
    var o := Odds(s);
    SourceIndexUpper(k, b);
    var q := SourceIndex(b, Pow2(k));
    assert BitReversed(o)[b] == o[q];
    assert o[q] == s[2 * q + 1];
  }

  /** The index arithmetic behind BitReversedSplit: a position in the lower
      half of 2^(k+1) takes an even source index, twice its source index
      within 2^k ... */
  lemma SourceIndexLower(k: nat, p: nat)
    requires p < Pow2(k)
    ensures p < Pow2(k + 1) && SourceIndex(p, Pow2(k + 1)) == 2 * SourceIndex(p, Pow2(k))
  {
    var n, h := Pow2(k + 1), Pow2(k);
    assert Log2(n) == k + 1 && Log2(h) == k by {
      Pow2IsPowerOfTwo(k + 1);
      Pow2IsPowerOfTwo(k);
    }
    assert SourceIndex(p, h) == Rev(p, k);
    assert SourceIndex(p, n) == Rev(p, k + 1);
    RevTopBit(false, p, k);
  }

  /** ... and a position in the upper half an odd one. */
  lemma SourceIndexUpper(k: nat, b: nat)
    requires b < Pow2(k)
    ensures Pow2(k) + b < Pow2(k + 1)
    ensures SourceIndex(Pow2(k) + b, Pow2(k + 1)) == 2 * SourceIndex(b, Pow2(k)) + 1
  {
    var n, h := Pow2(k + 1), Pow2(k);
    assert Log2(n) == k + 1 && Log2(h) == k by {
      Pow2IsPowerOfTwo(k + 1);
      Pow2IsPowerOfTwo(k);
    }
    assert SourceIndex(b, h) == Rev(b, k);
    assert SourceIndex(h + b, n) == Rev(h + b, k + 1);
    RevTopBit(true, b, k);
  }

  /** Adding a multiple of len does not change a remainder modulo len. */
  lemma ShiftMod(a: nat, q: nat, len: nat)
    requires len >= 1 && a % len == 0
    ensures (a + q) % len == q % len
  {
    DivisionUnique(a, len, a / len, 0);
    DivisionUnique(a + q, len, a / len + q / len, q % len);
  }

  /** A pass never mixes blocks, so on two arrays laid side by side it is
      the two passes laid side by side. */
  lemma PassSplit<T>(ops: Ops<T>, a: seq<T>, b: seq<T>, len: nat)
    requires PassFits(|a|, len) && PassFits(|b|, len)
    ensures PassFits(|a + b|, len)
    ensures Pass(ops, a + b, len) == Pass(ops, a, len) + Pass(ops, b, len)
  {
    var c := a + b;
    var h := len / 2;
    ShiftMod(|a|, |b|, len);
    forall p | 0 <= p < |c|
      ensures Butterfly(ops, c, len, p) == (Pass(ops, a, len) + Pass(ops, b, len))[p]
    {
      var j := p % len;
      if p < |a| {
        BlockStart(p, len);
        BlockFits(p - j, len, |a|);
        assert Butterfly(ops, c, len, p) == Butterfly(ops, a, len, p);
      } else {
        var q := p - |a|;
        ShiftMod(|a|, q, len);
        BlockStart(q, len);
        BlockFits(q - j, len, |b|);
        assert Butterfly(ops, c, len, p) == Butterfly(ops, b, len, q);
      }
    }
  }

  /** The passes of block sizes 2^m .. 2^k over two arrays of 2^k elements
      side by side, then the last pass, of size 2^(k+1), are the passes of
      sizes 2^m .. 2^(k+1) over the joined array. */
  lemma {:induction false} StagesSplit<T>(ops: Ops<T>, a: seq<T>, b: seq<T>, k: nat, m: nat)
    requires |a| == Pow2(k) && |b| == Pow2(k) && 1 <= m <= k + 1
    ensures IsPowerOfTwo(|a|) && IsPowerOfTwo(|b|) && IsPowerOfTwo(|a + b|)
    ensures PassFits(|a + b|, Pow2(k + 1))
    ensures Stages(ops, a + b, m) == Pass(ops, Stages(ops, a, m) + Stages(ops, b, m), Pow2(k + 1))
    decreases k + 1 - m
  {
    SplitSizes(k);
    if m <= k {
      SplitPassFits(k, m);
      StagesSplit(ops, Pass(ops, a, Pow2(m)), Pass(ops, b, Pow2(m)), k, m + 1);
      StagesSplitStep(ops, a, b, k, m);
    } else {
      StagesSplitDone(ops, a, b, k);
    }
  }

  /** The sizes in StagesSplit: both halves and the whole are powers of two,
      and the last pass spans the whole. */
  lemma SplitSizes(k: nat)
    ensures IsPowerOfTwo(Pow2(k)) && IsPowerOfTwo(Pow2(k + 1))
    ensures Pow2(k + 1) == Pow2(k) + Pow2(k)
    ensures PassFits(Pow2(k + 1), Pow2(k + 1))
  {
    Pow2IsPowerOfTwo(k);
    Pow2IsPowerOfTwo(k + 1);
    Pow2Even(k + 1);
    DivisionUnique(Pow2(k + 1), Pow2(k + 1), 1, 0);
  }

  /** Every block size 2^m with 1 <= m <= k tiles an array of 2^k elements. */
  lemma SplitPassFits(k: nat, m: nat)
    requires 1 <= m <= k
    ensures PassFits(Pow2(k), Pow2(m))
  {
    Pow2Divides(m, k);
    Pow2Even(m);
  }

  /** The base case of StagesSplit: no pass is left for the halves, and the
      joined array has just its last pass left. */
  lemma StagesSplitDone<T>(ops: Ops<T>, a: seq<T>, b: seq<T>, k: nat)
    requires |a| == Pow2(k) && |b| == Pow2(k) && |a + b| == Pow2(k + 1)
    requires IsPowerOfTwo(|a|) && IsPowerOfTwo(|a + b|)
    requires PassFits(|a + b|, Pow2(k + 1))
    ensures Stages(ops, a, k + 1) == a && Stages(ops, b, k + 1) == b
    ensures Stages(ops, a + b, k + 1) == Pass(ops, a + b, Pow2(k + 1))
  {
    Pow2IsPowerOfTwo(k);
    Pow2IsPowerOfTwo(k + 1);
    assert Pow2(k + 1) > Pow2(k);
    StagesDone(ops, a, k + 1);
    StagesDone(ops, b, k + 1);
    StageStep(ops, a + b, k + 1);
    assert Pow2(k + 2) > Pow2(k + 1);
    StagesDone(ops, Pass(ops, a + b, Pow2(k + 1)), k + 2);
  }

  /** The inductive step of StagesSplit: one pass of size 2^m on both sides. */
  lemma StagesSplitStep<T>(ops: Ops<T>, a: seq<T>, b: seq<T>, k: nat, m: nat)
    requires |a| == Pow2(k) && |b| == Pow2(k) && 1 <= m <= k
    requires IsPowerOfTwo(|a|) && IsPowerOfTwo(|a + b|) && |a + b| == Pow2(k + 1)
    requires PassFits(|a|, Pow2(m)) && PassFits(|a + b|, Pow2(k + 1))
    requires var a', b' := Pass(ops, a, Pow2(m)), Pass(ops, b, Pow2(m));
      Stages(ops, a' + b', m + 1) == Pass(ops, Stages(ops, a', m + 1) + Stages(ops, b', m + 1), Pow2(k + 1))
    ensures Stages(ops, a + b, m) == Pass(ops, Stages(ops, a, m) + Stages(ops, b, m), Pow2(k + 1))
  {
    var len := Pow2(m);
    Pow2Monotone(m, k);
    StageStep(ops, a, m);
    StageStep(ops, b, m);
    StageStep(ops, a + b, m);
    PassSplit(ops, a, b, len);
  }

  /** The pass of size n over the transformed halves is the combine step of
      the recursion. */
  lemma LastPassCombines<T(!new)>(ops: Ops<T>, a: seq<T>, b: seq<T>, k: nat)
    requires |a| == Pow2(k) && |b| == Pow2(k)
    requires MulCommutes(ops) && TwiddlePowers(ops)
    ensures PassFits(|a + b|, Pow2(k + 1))
    ensures Pass(ops, a + b, Pow2(k + 1)) == Combine(ops, a, b, Pow2(k + 1))
  {
    var n, h := Pow2(k + 1), Pow2(k);
    var c := a + b;
    DivisionUnique(n, n, 1, 0);
    Pow2Even(k + 1);
    forall p | 0 <= p < n
      ensures Pass(ops, c, n)[p] == Combine(ops, a, b, n)[p]
    {
      DivisionUnique(p, n, 0, p);
      CombineWrites(ops, a, b, n, p);
      if p < h {
        assert ops.mul(b[p], ops.tw(p, n)) == ops.mul(ops.tw(p, n), b[p]);
      } else {
        assert ops.mul(b[p - h], ops.tw(p - h, n)) == ops.mul(ops.tw(p - h, n), b[p - h]);
      }
    }
  }

  /** fft_cooley_tukey and fft_recursive agree on every power-of-two length,
      when the arithmetic satisfies the two identities above. */
  lemma {:induction false} IterativeMatchesRecursive<T(!new)>(ops: Ops<T>, s: seq<T>, k: nat)
    requires |s| == Pow2(k)
    requires MulCommutes(ops) && TwiddlePowers(ops)
    ensures IsPowerOfTwo(|s|) && Transform(ops, s) == RecursiveFft(ops, s)
    decreases k
  {
    Pow2IsPowerOfTwo(k);
    if k == 0 {
      TransformSmall(ops, s);
    } else {
      var k' := k - 1;
      var n := |s|;
      var e, o := Evens(s), Odds(s);
      assert |e| == Pow2(k') && |o| == Pow2(k');
      BitReversedSplit(s, k');
      StagesSplit(ops, BitReversed(e), BitReversed(o), k', 1);
      IterativeMatchesRecursive(ops, e, k');
      IterativeMatchesRecursive(ops, o, k');
      var re, ro := RecursiveFft(ops, e), RecursiveFft(ops, o);
      assert Transform(ops, s) == Pass(ops, re + ro, n);
      LastPassCombines(ops, re, ro, k');
      RecursiveFftPowerOfTwo(ops, s);
    }
  }
}
