/** The bit-reversal permutation of bit_reverse: with L = floor(log2 n), every
    index i below 2^L trades places with Rev(i, L); when n is a power of two
    that is every index. */
module BitReversal {
  import opened Bits

  /** Where position p of the reordered array takes its element from. */
  function SourceIndex(p: nat, n: nat): (q: nat)
    requires p < n
    ensures q < n
  {
    var L := Log2(n);
    if p < Pow2(L) then Rev(p, L) else p
  }

  /** SourceIndex pairs positions up: following it twice leads back, so it
      is a bijection of [0, n). */
  lemma SourceIndexInvolution(p: nat, n: nat)
    requires p < n
    ensures SourceIndex(SourceIndex(p, n), n) == p
  {
    var L := Log2(n);
    if p < Pow2(L) {
      RevInvolution(p, L);
    }
  }

  /** The array bit_reverse leaves behind, as a function of the one it was
      given. */
  function BitReversed<T>(s: seq<T>): (r: seq<T>)
    ensures |r| == |s|
  {
    seq(|s|, p requires 0 <= p < |s| => s[SourceIndex(p, |s|)])
  }

  /** Applying the permutation twice restores the sequence. */
  lemma BitReversedTwice<T>(s: seq<T>)
    ensures BitReversed(BitReversed(s)) == s
  {
    var r := BitReversed(s);
    forall p | 0 <= p < |s|
      ensures BitReversed(r)[p] == s[p]
    {
      SourceIndexInvolution(p, |s|);
    }
  }

  /** For n == 2^k the element at i lands at Rev(i, k). */
  lemma BitReversedPowerOfTwo<T>(s: seq<T>, k: nat, i: nat)
    requires |s| == Pow2(k) && i < |s|
    ensures Rev(i, k) < |s| && BitReversed(s)[Rev(i, k)] == s[i]
  {
    Pow2IsPowerOfTwo(k);
    RevInvolution(i, k);
  }

  /** Above 2^floor(log2 n) nothing moves: for n that is not a power of two
      only the prefix [0, 2^L) is reordered. */
  lemma BitReversedTailFixed<T>(s: seq<T>, p: nat)
    requires Pow2(Log2(|s|)) <= p < |s|
    ensures BitReversed(s)[p] == s[p]
  {
  }

  /** The array after bit_reverse's loop has handled indices [0, i): a pair
      {p, SourceIndex(p)} has been exchanged once its smaller index is below i. */
  function SwappedBelow<T>(s: seq<T>, i: nat): (r: seq<T>)
    ensures |r| == |s|
  {
    seq(|s|, p requires 0 <= p < |s| =>
      if p < i || SourceIndex(p, |s|) < i then s[SourceIndex(p, |s|)] else s[p])
  }

  /** One step of the loop: index i either swaps with its partner j above it,
      or its pair was handled already (or it is its own partner). */
  lemma SwappedBelowStep<T>(s: seq<T>, i: nat, j: nat)
    requires i < |s| && j < |s| && j == Rev(i, Log2(|s|))
    ensures i < j ==> SwappedBelow(s, i + 1) == SwappedBelow(s, i)[i := SwappedBelow(s, i)[j]][j := SwappedBelow(s, i)[i]]
    ensures j <= i ==> SwappedBelow(s, i + 1) == SwappedBelow(s, i)
  {
    var n := |s|;
    var L := Log2(n);
    if i < Pow2(L) {
      SourceIndexInvolution(i, n);
      assert SourceIndex(i, n) == j;
    } else {
      assert SourceIndex(i, n) == i;
    }
    var a, b := SwappedBelow(s, i), SwappedBelow(s, i + 1);
    forall p | 0 <= p < n && p != i && p != j
      ensures b[p] == a[p]
    {
      var q := SourceIndex(p, n);
      assert q != i by {
        SourceIndexInvolution(p, n);
      }
      assert (p < i + 1 || q < i + 1) == (p < i || q < i);
    }
    if i < j {
      assert b == a[i := a[j]][j := a[i]];
    } else {
      assert b == a;
    }
  }

  lemma {:induction false} SwappedBelowPermutes<T>(s: seq<T>, i: nat)
    requires i <= |s|
    ensures multiset(SwappedBelow(s, i)) == multiset(s)
  {
    if i == 0 {
      SwappedBelowEnds(s);
    } else {
      SwappedBelowPermutes(s, i - 1);
      var n := |s|;
      var j := Rev(i - 1, Log2(n));
      SwappedBelowStep(s, i - 1, j);
      if i - 1 < j {
        var a := SwappedBelow(s, i - 1);
        SwapPermutes(a, i - 1, j);
      }
    }
  }

  lemma SwapPermutes<T>(a: seq<T>, i: nat, j: nat)
    requires i < j < |a|
    ensures multiset(a[i := a[j]][j := a[i]]) == multiset(a)
  {
    var b := a[i := a[j]][j := a[i]];
    assert a == a[..i] + [a[i]] + a[i + 1..j] + [a[j]] + a[j + 1..];
    assert b == a[..i] + [a[j]] + a[i + 1..j] + [a[i]] + a[j + 1..];
  }

  /** The reordering is a permutation of the input. */
  lemma BitReversedPermutes<T>(s: seq<T>)
    ensures multiset(BitReversed(s)) == multiset(s)
  {
    SwappedBelowPermutes(s, |s|);
    SwappedBelowEnds(s);
  }

  lemma SwappedBelowEnds<T>(s: seq<T>)
    ensures SwappedBelow(s, 0) == s
    ensures SwappedBelow(s, |s|) == BitReversed(s)
  {
  }

  /** bit_reverse: count L = floor(log2 n), then for every i swap x[i] and
      x[Rev(i, L)] when i < Rev(i, L). */
  method BitReverse<T>(x: array<T>)
    modifies x
    ensures x[..] == BitReversed(old(x[..]))
  {
    ghost var s := x[..];
    var n := x.Length;
    var log2n := CountLog2(n);
    var i := 0;
    SwappedBelowEnds(s);
    while i < n
      invariant 0 <= i <= n
      invariant x[..] == SwappedBelow(s, i)
    {
      var j := ReverseBits(i, log2n);
      SwappedBelowStep(s, i, j);
      if i < j {
        x[i], x[j] := x[j], x[i];
      }
      i := i + 1;
    }
  }
}
