/** fft_recursive: the divide-and-conquer transform.  The even- and
    odd-indexed halves are transformed recursively and recombined, position k
    and position k + n/2 from the same pair of half-results. */
module Recursive {
  import opened Bits
  import opened Arith

  /** The elements at positions 0, 2, 4, ..., as many as n/2 of them. */
  function Evens<T>(s: seq<T>): (e: seq<T>)
    ensures |e| == |s| / 2
    ensures forall i :: 0 <= i < |e| ==> e[i] == s[2 * i]
  {
    if |s| < 2 then [] else [s[0]] + Evens(s[2..])
  }

  /** The elements at positions 1, 3, 5, ..., as many as n/2 of them. */
  function Odds<T>(s: seq<T>): (o: seq<T>)
    ensures |o| == |s| / 2
    ensures forall i :: 0 <= i < |o| ==> o[i] == s[2 * i + 1]
  {
    if |s| < 2 then [] else [s[1]] + Odds(s[2..])
  }

  /** The combine loop of fft_recursive for an array of length n, from the
      transformed halves e and o: the first half of the result holds
      e[k] + t, the second half e[k] - t. */
  function Combine<T>(ops: Ops<T>, e: seq<T>, o: seq<T>, n: nat): (r: seq<T>)
    requires |e| == |o|
    ensures |r| == 2 * |e|
  {
    Sums(ops, e, o, n) + Differences(ops, e, o, n)
  }

  /** The lower half of the combination: e[k] + t with t = tw(k, n) * o[k]. */
  function Sums<T>(ops: Ops<T>, e: seq<T>, o: seq<T>, n: nat): (r: seq<T>)
    requires |e| == |o|
    ensures |r| == |e|
  {
    seq(|e|, k requires 0 <= k < |e| => ops.add(e[k], ops.mul(ops.tw(k, n), o[k])))
  }

  /** The upper half of the combination: e[k] - t. */
  function Differences<T>(ops: Ops<T>, e: seq<T>, o: seq<T>, n: nat): (r: seq<T>)
    requires |e| == |o|
    ensures |r| == |e|
  {
    seq(|e|, k requires 0 <= k < |e| => ops.sub(e[k], ops.mul(ops.tw(k, n), o[k])))
  }

  /** The combine step writes every index of [0, 2 |e|) exactly once: index k
      and index k + |e| both come from the k-th pair of half-results. */
  lemma CombineWrites<T>(ops: Ops<T>, e: seq<T>, o: seq<T>, n: nat, p: nat)
    requires |e| == |o| && p < 2 * |e|
    ensures var k := if p < |e| then p else p - |e|;
      Combine(ops, e, o, n)[p] ==
        if p < |e| then ops.add(e[k], ops.mul(ops.tw(k, n), o[k]))
        else ops.sub(e[k], ops.mul(ops.tw(k, n), o[k]))
  {
    var lower, upper := Sums(ops, e, o, n), Differences(ops, e, o, n);
    assert Combine(ops, e, o, n) == lower + upper;
    if p < |e| {
      assert (lower + upper)[p] == lower[p];
    } else {
      var k := p - |e|;
      assert (lower + upper)[p] == upper[k];
    }
  }

  /** The result of fft_recursive.  When n is odd the combine step covers
      only [0, n - 1), so the last element stays where it was. */
  function RecursiveFft<T>(ops: Ops<T>, s: seq<T>): (r: seq<T>)
    ensures |r| == |s|
    decreases |s|
  {
    if |s| <= 1 then s
    else
      var n := |s|;
      Combine(ops, RecursiveFft(ops, Evens(s)), RecursiveFft(ops, Odds(s)), n) + s[2 * (n / 2)..]
  }

  /** n <= 1: the transform leaves its input unchanged. */
  lemma RecursiveFftSmall<T>(ops: Ops<T>, s: seq<T>)
    requires |s| <= 1
    ensures RecursiveFft(ops, s) == s
  {
  }

  /** For a power of two n >= 2 the halves are powers of two and the result is
      exactly the combination of their transforms. */
  lemma RecursiveFftPowerOfTwo<T>(ops: Ops<T>, s: seq<T>)
    requires IsPowerOfTwo(|s|) && |s| >= 2
    ensures IsPowerOfTwo(|Evens(s)|) && IsPowerOfTwo(|Odds(s)|)
    ensures RecursiveFft(ops, s) ==
      Combine(ops, RecursiveFft(ops, Evens(s)), RecursiveFft(ops, Odds(s)), |s|)
  {
    assert s[2 * (|s| / 2)..] == [];
  }

  /** For odd n the last element is never written. */
  lemma RecursiveFftOddLast<T>(ops: Ops<T>, s: seq<T>)
    requires |s| % 2 == 1
    ensures RecursiveFft(ops, s)[|s| - 1] == s[|s| - 1]
  {
    if |s| > 1 {
      var n := |s|;
      var c := Combine(ops, RecursiveFft(ops, Evens(s)), RecursiveFft(ops, Odds(s)), n);
      assert |c| == n - 1;
      assert RecursiveFft(ops, s) == c + s[n - 1..];
    }
  }

  /** The combine loop of fft_recursive: x[k] := even[k] + t and
      x[k + n/2] := even[k] - t with t = w * odd[k], for k < n/2. */
  method CombineStep<T>(ops: Ops<T>, x: array<T>, even: array<T>, odd: array<T>)
    requires even.Length == odd.Length == x.Length / 2
    requires x != even && x != odd
    modifies x
    ensures x[..] == Combine(ops, even[..], odd[..], x.Length) + old(x[..])[2 * (x.Length / 2)..]
  {
    ghost var s := x[..];
    ghost var combined := Combine(ops, even[..], odd[..], x.Length);
    var n := x.Length;
    var half := n / 2;
    var k := 0;
    while k < half
      invariant 0 <= k <= half
      invariant forall p :: 0 <= p < k || half <= p < half + k ==> x[p] == combined[p]
      invariant forall p :: k <= p < half || half + k <= p < n ==> x[p] == s[p]
    {
      CombineWrites(ops, even[..], odd[..], n, k);
      CombineWrites(ops, even[..], odd[..], n, k + half);
      var w := ops.tw(k, n);
      var t := ops.mul(w, odd[k]);
      x[k] := ops.add(even[k], t);
      x[k + half] := ops.sub(even[k], t);
      k := k + 1;
    }
    assert x[..] == combined + s[2 * half..];
  }

  /** The split loop of fft_recursive: even[i] := x[2i] and odd[i] := x[2i+1]
      into two fresh buffers of n/2 elements each. */
  method Split<T(0)>(x: array<T>) returns (even: array<T>, odd: array<T>)
    ensures fresh(even) && fresh(odd) && even != odd
    ensures even[..] == Evens(x[..]) && odd[..] == Odds(x[..])
  {
    var half := x.Length / 2;
    even := new T[half];
    odd := new T[half];
    var i := 0;
    while i < half
      invariant 0 <= i <= half
      invariant forall m :: 0 <= m < i ==> even[m] == x[2 * m] && odd[m] == x[2 * m + 1]
    {
      even[i] := x[2 * i];
      odd[i] := x[2 * i + 1];
      i := i + 1;
    }
  }

  /** fft_recursive.  The even and odd buffers are fresh arrays; the source
      allocates and frees them around the recursive calls. */
  method FftRecursive<T(0)>(ops: Ops<T>, x: array<T>)
    modifies x
    ensures x[..] == RecursiveFft(ops, old(x[..]))
    decreases x.Length
  {
    if x.Length <= 1 {
      return;
    }
    var even, odd := Split(x);
    FftRecursive(ops, even);
    FftRecursive(ops, odd);
    CombineStep(ops, x, even, odd);
  }
}
