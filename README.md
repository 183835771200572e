# Multi-exponentiation in libbilinear, modelled in Dafny

This project models the three multi-exponentiation routines of
`libbilinear/src/FastMultExp.cpp`. Each one is meant to compute a sum of
scalar multiples of group elements, Σ Times(a[i], e[i]). The two
double-and-add routines do. The de Rooij routine, as written, does not (see
"Findings").

- `fastMultExp(S, a, e, maxBits)` is simultaneous double-and-add over an index
  list `S`. For each bit `j` from `maxBits - 1` down to 0 it doubles the
  accumulator. It then adds `a[idx]` for every `idx` in `S` whose exponent has
  bit `j` set. Every exponent must fit in `maxBits` bits.
- `fastMultExp(a, e, maxBits)` is the same loop with `S` implicitly equal to
  `0 .. |a| - 1`.
- `fastMultExp_de_Rooij(bases, exps, maxBits)` is the heap-driven exponent
  reduction named after de Rooij. It copies the bases and exponents into
  working vectors `b` and `t`. It builds a max-heap of indices keyed by `t`.
  It then repeatedly reduces the largest exponent modulo the next largest.

The group is modelled as the integers under addition: Identity is 0,
Double(g) is g + g, Add is + and Times(g, k) is g·k. Every identity the
algorithms rely on is linear, so what is proved for (int, +) holds in any
abelian group. An arbitrary-precision scalar (`BNT`) is a `nat`. Its bit
length is `BitLength`, and bit `j` is the parity of the scalar halved `j` times.

Modules:

- `Group` holds the group and scalar operations and their arithmetic lemmas.
- `IndexHeap` models `std::make_heap`, `std::push_heap` and `std::pop_heap`
  over a vector of indices, ordered by a side vector of keys. They are
  written as sift-up and sift-down loops. The contract is the max-heap order
  plus the multiset of indices. Which of several equal keys ends up on top is
  left open, as the standard library leaves it.
- `MultiExpSpec` holds the specification functions and the lemmas about them:
  - the reference sum `MultiExpSum`;
  - the sum over an index list, `SubsetSum`;
  - the bit-serial partial sums `ShiftedSum` and `BitSum`;
  - the operation counts `BitCount` and `AddsFrom`;
  - the index range `Range`;
  - the exponent total `Total`, which is the termination measure.
- `FastMultExp` holds the three routines as imperative methods. The
  collections the source mutates (`b`, `t`, `heap`) are sequence-valued
  locals that each step reassigns. Each inner bit loop is its own method
  (`AddColumnSubset`, `AddColumn`), and so is each pass of de Rooij's loop
  (`DeRooijPass`). The errors the source raises, and the failures it would
  hit, are values of the `Error` datatype.

De Rooij's routine does not compute the multi-exponentiation as written (see
"Findings"). Its model therefore follows the code, and its contract says
exactly what the code returns:
- one term: Times(bases[0], exps[0]);
- three or more terms: always a division by zero;
- two terms: the outcome is characterised by `PairOutcome`.

De Rooij's reduction computes the same sum only when it follows three rules:
- the quotient and the remainder both come from the unreduced `t[e_max]`;
- an index is re-inserted while its exponent is non-zero;
- the loop stops when the exponent on top of the heap is 0.

Lines 94-109 break all three, and the model of the routine as written follows
those lines. `DeRooijCorrected` is a separate routine that follows the three
rules and so deviates from lines 99-109. It is proved equal to the reference
sum for every non-empty input.

## Model

| member | source | states |
|---|---|---|
| FastMultExp.AddColumnSubset | libbilinear/src/FastMultExp.cpp:31-36 | One inner pass over S at bit j succeeds exactly when every exponent selected by S fits in maxBits bits. It then adds BitSum (a[idx] for every position whose bit j is set) to the accumulator and counts one Add per set bit. |
| FastMultExp.FastMultExpSubset | libbilinear/src/FastMultExp.cpp:20-40 | With maxBits ≤ 0 the result is Identity, with no Double and no Add. Otherwise the result is the sum over S of Times(a[S[k]], e[S[k]]) when every selected exponent fits in maxBits bits, and the width failure when one does not. There are exactly max(maxBits, 0) doublings, and the Add count is AddsFrom, at most maxBits·\|S\|. |
| FastMultExp.AddColumn | libbilinear/src/FastMultExp.cpp:53-58 | One inner pass over 0 .. \|a\|-1 succeeds exactly when every e[i] with i < \|a\| fits in maxBits bits. It then adds the bit-j contributions and counts them. |
| FastMultExp.FastMultExp | libbilinear/src/FastMultExp.cpp:42-62 | The full-range overload returns what the subset overload returns for S = 0 .. \|a\|-1. That is the reference sum of Times(a[i], e[i]) over i < \|a\|, or the width failure. The Identity cases and the Double and Add counts are the same as for the subset overload. |
| FastMultExp.PopMax | libbilinear/src/FastMultExp.cpp:91-93 | pop_heap followed by back() and pop_back() removes one index whose key is at least that of every index in the heap. The rest is still a heap over the same indices minus that one. |
| FastMultExp.InitialHeap | libbilinear/src/FastMultExp.cpp:82-93 | After iota, make_heap and the first pop, the heap and e_max together hold each index 0 .. n-1 exactly once. e_max has the largest exponent, and the heap is ordered by t. |
| FastMultExp.ReduceAsWritten | libbilinear/src/FastMultExp.cpp:95-114 | One pass as written fails exactly when t[e_next] is 0. Otherwise only t[e_max] changes, to t[e_max] mod t[e_next], and the bases are unchanged because the quotient is 0. The total of the exponents strictly falls. e_max is re-inserted exactly when the index is not 0, and the next e_max has the largest key. |
| FastMultExp.LiveStep | libbilinear/src/FastMultExp.cpp:106-114 | Across a pass as written, the heap and e_max stay distinct indices from lo .. n-1, where lo becomes 1 once index 0 is the maximum and is dropped. So only index 0 can ever leave. |
| FastMultExp.PairStart | libbilinear/src/FastMultExp.cpp:89-117 | For two terms, the outcome PairFinish predicts from the first maximum is one that PairOutcome allows, whichever of two equal exponents the heap puts on top. |
| FastMultExp.PairFinishStep | libbilinear/src/FastMultExp.cpp:99-114 | For two terms, a pass from e_max = 0 ends the loop with Times(b[1], t[1]), and a pass from e_max = 1 keeps the predicted outcome. |
| FastMultExp.PairErr | libbilinear/src/FastMultExp.cpp:99 | For two terms, a division by zero reached in the loop is an outcome that PairOutcome allows. |
| FastMultExp.PairOk | libbilinear/src/FastMultExp.cpp:117 | For two terms, leaving the loop normally gives an outcome that PairOutcome allows. |
| FastMultExp.DeRooijPass | libbilinear/src/FastMultExp.cpp:94-115 | One pass keeps the loop invariant: the bases unchanged; the heap plus e_max equal to the live range; heap order; e_max at least every key in the heap; and, for two terms, the eventual outcome. A failure is an allowed two-term outcome, and the exponent total falls. |
| FastMultExp.DeRooij | libbilinear/src/FastMultExp.cpp:64-118 | Mismatched sizes give the size error, checked first. Empty input gives the "give me some exponents" error. One term gives Times(bases[0], exps[0]). Three or more terms always end in a division by zero. Two terms give an outcome that PairOutcome allows, and maxBits is ignored. |
| FastMultExp.RetiredStep | libbilinear/src/FastMultExp.cpp:106-109 | If an index is re-inserted unless its reduced exponent is 0, every index that has left for good has exponent 0. |
| FastMultExp.ReduceCorrected | libbilinear/src/FastMultExp.cpp:99-109 | One pass with the quotient taken before the remainder: t[e_max] becomes t[e_max] mod t[e_next], and b[e_next] becomes Times(b[e_max], t[e_max] div t[e_next]) + b[e_next], with the quotient taken from the unreduced exponent. e_max goes back into the heap exactly when its reduced exponent is not 0. The pass keeps the multi-exponentiation of (b, t), strictly lowers the exponent total, keeps heap order and keeps every retired index at exponent 0. |
| FastMultExp.DeRooijCorrected | libbilinear/src/FastMultExp.cpp:64-118 | With the order of lines 99-101 fixed, re-insertion tested on the exponent, and the loop stopped at a zero exponent, the routine returns the reference sum Σ Times(bases[i], exps[i]) for every non-empty input. It has the same two input errors. |
| FastMultExp.EmptyInputRejected | libbilinear/test/TestFastMultExpDeRooij.cpp:36 | The test's call with empty vectors and maxBits 0 gets the "give me some exponents" error. |
| FastMultExp.QuotientAfterRemainder | libbilinear/src/FastMultExp.cpp:99-103 | For bases [1, 1] and exponents [3, 5] the code returns 2, while the corrected routine returns the reference sum 8. |
| FastMultExp.ReinsertTestsIndex | libbilinear/src/FastMultExp.cpp:106-109 | For bases [1, 1, 1] and exponents [1, 2, 3] the code ends in a division by zero, while the corrected routine returns 6. |
| FastMultExp.ZeroExponentDivides | libbilinear/src/FastMultExp.cpp:99 | For bases [1, 1] and exponents [0, 5] the code ends in a division by zero, while the corrected routine returns 5. |
| IndexHeap.PushHeap | libbilinear/src/FastMultExp.cpp:107-108 | push_heap turns a heap with one index appended into a heap over the same indices. |
| IndexHeap.PopHeap | libbilinear/src/FastMultExp.cpp:112 | pop_heap moves an index of largest key to the back. The positions before it are a heap over the other indices. |
| IndexHeap.MakeHeap | libbilinear/src/FastMultExp.cpp:87 | make_heap arranges the same indices into a max-heap by key. |
| IndexHeap.RootIsMax | libbilinear/src/FastMultExp.cpp:95 | heap[0] has a key at least as large as every index in the heap. |
| IndexHeap.KeyChangeOutside | libbilinear/src/FastMultExp.cpp:99 | Changing the exponent of an index that is not in the heap (e_max) keeps the heap order. |
| MultiExpSpec.ShiftedSumStep | libbilinear/src/FastMultExp.cpp:28-37 | One outer iteration (double, then add the bit-j column) takes the partial sum for bits above j to the partial sum for bits j and above. This is binary Horner evaluation. |
| MultiExpSpec.ShiftedSumPastWidth | libbilinear/src/FastMultExp.cpp:25-28 | When every exponent fits in maxBits bits, the partial sum before the first bit is Identity, where the accumulator starts. |
| MultiExpSpec.ShiftedSumUnshifted | libbilinear/src/FastMultExp.cpp:39 | After bit 0 the partial sum is the full sum over S. |
| MultiExpSpec.AddsFromBound | libbilinear/src/FastMultExp.cpp:28-37 | There is at most one Add per (bit, position) pair. |
| MultiExpSpec.SubsetSumAppend | libbilinear/src/FastMultExp.cpp:31 | The sum over an index list splits over concatenation, so an index listed twice contributes twice. |
| MultiExpSpec.RangeSubsetIsReference | libbilinear/src/FastMultExp.cpp:42-62 | Over S = 0 .. n-1 the subset sum is the reference sum. |
| MultiExpSpec.NarrowRange | libbilinear/src/FastMultExp.cpp:54 | The width check over S = 0 .. n-1 is the check on every e[i] with i < n. |
| MultiExpSpec.RangeCount | libbilinear/src/FastMultExp.cpp:86 | iota puts each index 0 .. n-1 in the vector exactly once. |
| MultiExpSpec.LiveWithin | libbilinear/src/FastMultExp.cpp:94-115 | Live indices drawn from a range are distinct members of it, and e_max is not in the heap. |
| MultiExpSpec.ReductionKeepsSum | libbilinear/src/FastMultExp.cpp:99-103 | One Euclidean step with the quotient taken from the unreduced exponent leaves Σ Times(b[i], t[i]) unchanged. |
| MultiExpSpec.MultiExpSumSingle | libbilinear/src/FastMultExp.cpp:117 | When every exponent except the one at e_max is 0, the sum is Times(b[e_max], t[e_max]). |
| MultiExpSpec.TotalUpdate | libbilinear/src/FastMultExp.cpp:99 | Replacing one exponent changes the total by exactly the difference. |
| Group.RemainderQuotient | libbilinear/src/FastMultExp.cpp:99-101 | A remainder divided by its own divisor is 0, which is why q is always 0 as written. |
| Group.TimesShift | libbilinear/src/FastMultExp.cpp:29-34 | Times distributes over the Horner step: doubling Times(g, x >> (j+1)) and adding g when bit j is set gives Times(g, x >> j). |
| Group.ShiftPastWidth | libbilinear/src/FastMultExp.cpp:32 | A scalar of at most m bits shifted right by m bits is 0. |
| Group.FoldQuotient | libbilinear/src/FastMultExp.cpp:103 | Folding Times(g, x div d) into the other base and keeping x mod d preserves g·x + h·d. |

## Left out

- RELIC's curve arithmetic and `BNT` internals are foreign library calls. They are replaced by (int, +) and `nat`, so the cost of a group operation is not modelled.
- The explicit template instantiations (lines 120-142) have no behaviour.
- The logging and assertion headers are left out. `assertEqual(r, Identity())` holds by construction. A failing `assertLessThanOrEqual` is the result `Err(WidthExceeded)`, not an abort. `throw std::runtime_error` is the matching `Err` value.
- Line 99 divides by `t[e_next]` with no guard. What `BNT` does with a zero divisor is outside the modelled code; the model returns `Err(DivisionByZero)`.
- `std::make_heap`, `push_heap` and `pop_heap` are modelled as sift loops on a sequence. Their layout after each call may differ from libstdc++'s; only max-heap order and the set of indices are specified. For the same reason the tie-breaking among equal exponents is left open. With two equal exponents, `PairOutcome` allows both results the code can give.
- `b`, `t` and `heap` are local vectors in the source, updated in place. The model holds them as sequence values that each step reassigns. Because they are copies, the caller's vectors are never modified, and there is no aliasing to model.
- Index and size arithmetic use unbounded integers. `size_t` overflow and `int` `maxBits` wrap-around are not modelled.
- Out-of-range reads are undefined behaviour in the source. The model requires valid indices only where the code reads `e[idx]` (maxBits > 0 for `fastMultExp`), and `|a| ≤ |e|` for the full-range overload.
- DeRooij: for two terms the contract characterises the result (`PairOutcome`) but does not pin it down when the exponents are equal. There it depends on the heap's tie-breaking, which is left open.

## Findings

| source | as written | input that shows it | evidently intended | confidence | as-written member | corrected member |
|---|---|---|---|---|---|---|
| libbilinear/src/FastMultExp.cpp:99-103 | `t[e_max]` is replaced by the remainder before `q` is computed from it, so `q` is always 0 and `b[e_next]` never changes | bases [1, 1], exponents [3, 5]: returns 2 | q = t[e_max] div t[e_next] from the unreduced exponent; the result is the reference sum 8 | not executed | FastMultExp.QuotientAfterRemainder | FastMultExp.DeRooijCorrected |
| libbilinear/src/FastMultExp.cpp:106-109 | `e_max != 0` tests the index, so only index 0 ever leaves the heap and three or more terms always reach a division by zero | bases [1, 1, 1], exponents [1, 2, 3]: division by zero | re-insert e_max when t[e_max] != 0; the result is 6 | not executed | FastMultExp.ReinsertTestsIndex | FastMultExp.DeRooijCorrected |
| libbilinear/src/FastMultExp.cpp:94-99 | nothing stops the loop when the next exponent is 0, so a zero exponent becomes a divisor | bases [1, 1], exponents [0, 5]: division by zero | stop once t[heap[0]] is 0; the result is 5 | not executed | FastMultExp.ZeroExponentDivides | FastMultExp.DeRooijCorrected |
