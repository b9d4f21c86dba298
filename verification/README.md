# Radix-2 FFT index structure, in Dafny

A model of the transform core of `fft.c`: `reverse_bits`, the in-place
bit-reversal permutation `bit_reverse`, the iterative Cooley-Tukey transform
`fft_cooley_tukey` (bit reversal followed by butterfly passes of block size
`len = 2, 4, ..., n`), and the divide-and-conquer transform `fft_recursive`
(split into even and odd halves, transform each, recombine position `k` and
`k + n/2` from the same pair).

The source works on `double complex` values with `cos`/`sin` twiddle
factors. Here the element type is a type parameter `T`, and the arithmetic
is a value `Ops<T>` of arbitrary functions: `add`, `sub`, `mul`, the unit
`one` and the twiddle factor `tw(k, n)`. Every result below therefore holds
whatever the arithmetic is, and it is about which elements are read,
combined and written where.

Modules, one per part of the program:

- `Bits` (`bits.dfy`): powers of two, `Log2` (the floor of log2 that
  `bit_reverse` counts), `Rev` (reversal of the low `k` bits), the loop
  methods `ReverseBits` and `CountLog2`.
- `BitReversal` (`bit_reverse.dfy`): the permutation as a function
  `BitReversed` of the array before, and the in-place method `BitReverse`.
- `Arith` (`arith.dfy`): the abstract arithmetic and the running factor
  `w` of a butterfly block (`w = 1`, then `w *= wlen`).
- `CooleyTukey` (`cooley_tukey.dfy`): one pass as a function `Pass`, the
  passes from block size `2^m` on as `Stages`, the whole transform as
  `Transform`, and the methods `ButterflyPass` (one iteration of the outer
  loop) and `FftCooleyTukey`.
- `Recursive` (`recursive.dfy`): `Evens`, `Odds`, `Combine`, the result
  `RecursiveFft`, and the methods `Split`, `CombineStep`, `FftRecursive`.
- `Agreement` (`agreement.dfy`): the two transforms compute the same
  sequence for every power-of-two length, when multiplication commutes and
  `j` steps of `w *= tw(1, len)` reach `tw(j, len)`, the two identities
  that hold in exact complex arithmetic.

Every method is proved against its specification function
(`x[..] == Transform(old(x[..]))`, `x[..] == RecursiveFft(old(x[..]))`,
`x[..] == BitReversed(old(x[..]))`, `result == Rev(num, log2n)`), and the
properties are proved as lemmas about those functions.

What the code does for lengths that are not powers of two:

- Neither transform checks that `n` is a power of two. `bit_reverse` stays
  in bounds for every `n`: it reverses `L = floor(log2 n)` bits, so every
  partner index is below `2^L <= n`. It permutes the prefix `[0, 2^L)` and
  leaves the rest in place; `BitReversed` and `BitReverse` model every `n`.
- `fft_cooley_tukey` reads and writes outside the array when `n` is not a
  power of two (`n = 6`: the pass with `len = 4` starts a block at `i = 4`
  and touches `x[6]`). `FftCooleyTukey` therefore requires `n` to be a
  power of two (or 0, when nothing happens), as the source's callers must.
- `fft_recursive` stays in bounds for every `n`. For odd `n` the combine
  loop writes only `[0, n - 1)`, and the last element keeps its old value;
  `RecursiveFft` models every `n`, that case included.

## Model

| member | source | states |
|---|---|---|
| Bits.Rev | fft.c:25-32 | reversing the low k bits gives a value in [0, 2^k) |
| Bits.RevIsReversedBits | fft.c:25-32 | Rev(num, k) is the k-bit binary representation of num, least significant bit first, read backwards |
| Bits.RevZero | fft.c:25-32 | reversing the bits of 0 gives 0 |
| Bits.RevTopBit | fft.c:27-30 | a bit placed on top of a k-bit value lands at the bottom after reversing k + 1 bits: Rev(top 2^k + b, k + 1) == 2 Rev(b, k) + top |
| Bits.RevInvolution | fft.c:25-32 | reversing k bits twice gives back every value in [0, 2^k) |
| Bits.ReverseBits | fft.c:25-32 | the shifting loop returns Rev(num, log2n), which lies in [0, 2^log2n) |
| Bits.Log2 | fft.c:35-40 | the number of halvings that bring n down to 1 or below brackets n: 2^Log2(n) <= n < 2^(Log2(n) + 1) for n >= 1 |
| Bits.PowerOfTwoIsPow2 | fft.c:35-40 | for n a power of two, 2^Log2(n) == n |
| Bits.Pow2IsPowerOfTwo | fft.c:35-40 | 2^k is a power of two and Log2(2^k) == k |
| Bits.CountLog2 | fft.c:35-40 | the halving loop returns Log2(n): 2^log2n <= n < 2^(log2n + 1) for n >= 1, 0 for n <= 1 (so n == 1 gives no swaps), and 2^log2n == n when n is a power of two |
| BitReversal.SourceIndex | fft.c:42-47 | every index the swap loop pairs with a position of [0, n) is itself in [0, n) |
| BitReversal.SourceIndexInvolution | fft.c:43-44 | the pairing of positions is an involution, which is why swapping only when i < j exchanges each pair exactly once |
| BitReversal.BitReversed | fft.c:42-49 | the reordered array has the length of the input |
| BitReversal.BitReversedTwice | fft.c:34-50 | applying the bit-reversal permutation twice returns the original array |
| BitReversal.BitReversedPowerOfTwo | fft.c:42-49 | for n == 2^k the element at i ends at Rev(i, k), an index inside the array |
| BitReversal.BitReversedTailFixed | fft.c:42-49 | positions from 2^floor(log2 n) up are left in place (only for n not a power of two are there any) |
| BitReversal.BitReversedPermutes | fft.c:42-49 | the reordered array holds the same elements with the same multiplicities as the input |
| BitReversal.SwappedBelow | fft.c:42-49 | the array after the first i iterations of the swap loop has the input's length |
| BitReversal.SwappedBelowStep | fft.c:43-48 | iteration i swaps x[i] with x[j], j = Rev(i, L), when i < j, and changes nothing otherwise |
| BitReversal.SwapPermutes | fft.c:45-47 | exchanging two elements keeps the multiset of elements |
| BitReversal.SwappedBelowPermutes | fft.c:42-49 | after any number of iterations the array is a permutation of the input |
| BitReversal.SwappedBelowEnds | fft.c:42-49 | before the loop the array is the input; after all n iterations it is the bit-reversed input |
| BitReversal.BitReverse | fft.c:34-50 | bit_reverse leaves exactly BitReversed(old array) in place, for every n |
| CooleyTukey.BlockFits | fft.c:62 | a block starting at a multiple of len below n ends within n |
| CooleyTukey.BlockOffset | fft.c:64-68 | inside a block starting at i, position i + r has offset r, and the next block starts at i + len |
| CooleyTukey.BlockStart | fft.c:62 | p - p mod len is a block start |
| Arith.RunningTwiddle | fft.c:63-69 | the factor w after j butterflies of a block: 1 at the start of every block (`w = 1`), then multiplied on the right by wlen after each butterfly (`w *= wlen`) |
| CooleyTukey.Butterfly | fft.c:64-68 | the value a pass leaves at p, with j = p mod len and h = len/2: u + v at a lower position (j < h) and u - v at the upper position of the same pair, where u is x[i + j] and v is x[i + j + h] times the running factor after j steps; PassWrites states this in the loop's (i, j) indexing |
| CooleyTukey.Pass | fft.c:62-71 | a pass keeps the array length |
| CooleyTukey.Stages | fft.c:58-72 | the passes from block size 2^m up to n keep the array length |
| CooleyTukey.BlockSizeFits | fft.c:58 | every block size 2^m <= n of the outer loop is even, tiles n exactly, and m <= Log2(n) |
| CooleyTukey.StageStep | fft.c:58-72 | while len <= n the outer loop performs one more pass of size len |
| CooleyTukey.StagesDone | fft.c:58 | the outer loop stops exactly when Log2(n) passes are done, leaving the array as it is |
| CooleyTukey.Transform | fft.c:53-73 | the transform keeps the array length |
| CooleyTukey.PassWrites | fft.c:64-70 | each pass writes u + v to i + j and u - v to i + j + len/2, with u = x[i + j] and v = x[i + j + len/2] times the running factor w |
| CooleyTukey.ButterflyPairInBounds | fft.c:65-68 | the two positions of a butterfly are distinct and inside the array |
| CooleyTukey.ButterflyWritesOnce | fft.c:62-68 | no position is written by two butterflies of a pass: (i, j, lower or upper) is determined by the position |
| CooleyTukey.ButterflyCovers | fft.c:62-68 | every position of the array is written by some butterfly of the pass |
| CooleyTukey.TransformSmall | fft.c:53-73 | for n <= 1 the iterative transform leaves the array unchanged |
| CooleyTukey.ButterflyPass | fft.c:62-71 | one iteration of the outer loop turns the array into Pass(old array, len) |
| CooleyTukey.FftCooleyTukey | fft.c:53-73 | fft_cooley_tukey leaves Transform(old array) in place after exactly Log2(n) passes of the outer loop |
| Recursive.Evens | fft.c:83-86 | the even half has n/2 elements and its element i is x[2i] |
| Recursive.Odds | fft.c:83-86 | the odd half has n/2 elements and its element i is x[2i + 1] |
| Recursive.Combine | fft.c:93-99 | the combine step produces twice as many elements as each half |
| Recursive.Sums | fft.c:94-97 | the lower half of the combination has one element per pair |
| Recursive.Differences | fft.c:94-98 | the upper half of the combination has one element per pair |
| Recursive.CombineWrites | fft.c:93-99 | position k < n/2 receives even[k] + t and position k + n/2 receives even[k] - t, with t = tw(k, n) * odd[k]; every position of [0, 2 (n/2)) is one of the two |
| Recursive.RecursiveFft | fft.c:76-103 | the recursive transform keeps the length of its input; RecursiveFftOddLast states that for odd n the last element is kept too |
| Recursive.RecursiveFftSmall | fft.c:77 | n <= 1 leaves the array unchanged |
| Recursive.RecursiveFftPowerOfTwo | fft.c:83-99 | for a power of two n >= 2 both halves are powers of two and the result is exactly the combination of their transforms |
| Recursive.RecursiveFftOddLast | fft.c:93-99 | for odd n the last element is never written |
| Recursive.Split | fft.c:80-86 | the split loop fills two fresh buffers with the even- and odd-indexed elements |
| Recursive.CombineStep | fft.c:93-99 | the combine loop writes Combine(even, odd) over [0, 2 (n/2)) and leaves the rest of x as it was |
| Recursive.FftRecursive | fft.c:76-103 | fft_recursive leaves RecursiveFft(old array) in place, for every n |
| Agreement.SourceIndexLower | fft.c:43 | a position p < 2^k of an array of 2^(k+1) takes its element from the even index 2 SourceIndex(p, 2^k) |
| Agreement.SourceIndexUpper | fft.c:43 | a position 2^k + b takes its element from the odd index 2 SourceIndex(b, 2^k) + 1 |
| Agreement.BitReversedLower | fft.c:42-49 | the lower half of the reordered array is the reordered even half |
| Agreement.BitReversedUpper | fft.c:42-49 | the upper half of the reordered array is the reordered odd half |
| Agreement.BitReversedSplit | fft.c:34-50 | bit reversal of 2^(k+1) elements is the bit reversal of the even half followed by that of the odd half |
| Agreement.ShiftMod | fft.c:62 | adding a multiple of len does not change a block offset |
| Agreement.PassSplit | fft.c:62-71 | a pass never mixes blocks: on two arrays side by side it is the two passes side by side |
| Agreement.SplitSizes | fft.c:58 | the halves and the whole are powers of two and the last pass spans the whole array |
| Agreement.SplitPassFits | fft.c:58 | every block size 2^m with 1 <= m <= k tiles 2^k elements |
| Agreement.StagesSplitDone | fft.c:58-72 | with no pass left for the halves, the joined array has exactly its last pass left |
| Agreement.StagesSplitStep | fft.c:58-72 | one pass of size 2^m on the joined array is that pass on each half |
| Agreement.StagesSplit | fft.c:58-72 | all passes but the last over 2^(k+1) elements are the passes over each half of 2^k elements |
| Agreement.LastPassCombines | fft.c:62-71 | the last pass (len == n) over the two transformed halves is the combine step of fft_recursive, given commuting mul and running factors equal to tw(j, len) |
| Agreement.IterativeMatchesRecursive | fft.c:53-103 | for every n == 2^k, fft_cooley_tukey and fft_recursive compute the same array, given those two identities of exact complex arithmetic |

## Left out

- Floating point: elements are an abstract type and `add`, `sub`, `mul`, `tw` arbitrary functions, so `cos`/`sin` (fft.c:59-60, fft.c:94-95) and rounding are not modelled, and no numeric DFT result (impulse response, sine peak) is stated.
- The running factor `w *= wlen` (fft.c:63, fft.c:69) is kept as the product `RunningTwiddle`; it equals `tw(j, len)` only in exact arithmetic, and only `Agreement` assumes that, as the hypothesis `TwiddlePowers`.
- Agreement.IterativeMatchesRecursive: in floating point the two transforms agree only within a tolerance; the lemma states exact agreement under the hypotheses `MulCommutes` and `TwiddlePowers`, not the tolerance.
- Bits.ReverseBits: before the last shift `result` has `log2n - 1` bits, so `result << 1` on a 32-bit C `int` first overflows when `log2n` exceeds 31; integers here are unbounded, so that overflow is not modelled. `bit_reverse` never reaches it, since `log2n <= 30` for every `int` n.
- CooleyTukey.FftCooleyTukey: for n = 2^30, the largest power of two an `int` holds, `len <<= 1` (fft.c:58) overflows after the last pass, which is undefined behaviour in C (with wrap-around `len` turns negative, `len <= n` stays true and the loop does not end). Integers here are unbounded, so the model stops after exactly `Log2(n)` passes for every power of two; the overflow is not modelled.
- BitReversal.BitReverse, CooleyTukey.FftCooleyTukey and Recursive.FftRecursive take `n` as the array length; a C caller passing an `n` that differs from the buffer size, or a negative `n`, is not modelled. Bits.CountLog2 takes any `int` n and returns 0 for n <= 1, as the C loop does.
- `malloc`/`free` of the halves (fft.c:80-81, fft.c:101-102): `Split` returns fresh arrays; an allocation failure (the source does not check for `NULL`) and the release are not modelled.
- `butterfly` is declared at fft.c:19 but has no definition in fft.c, so there is nothing to model.
- `generate_test_signal`, `print_complex_array`, `verify_fft` and `main` (fft.c:106-235): signal generation with `rand`, console output, `clock()` timing and magnitude diagnostics.
- test_fft.c is not part of this model: it calls an external assembly routine `fft_vector` and otherwise generates, prints and times signals.
