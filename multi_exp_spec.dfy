/** What the multi-exponentiation algorithms compute, stated without loops:
    the reference sum of Times(base, exponent) terms, the bit-serial partial
    sums that the simultaneous double-and-add loop passes through, and the
    counting functions that describe its cost. */
module MultiExpSpec {
  import opened Group

  /** `std::iota`: the indices lo, lo + 1, ..., hi - 1 in order. */
  function Range(lo: nat, hi: nat): (r: seq<nat>)
    requires lo <= hi
    ensures |r| == hi - lo
    ensures forall k :: 0 <= k < |r| ==> r[k] == lo + k
    decreases hi - lo
  {
    if lo == hi then [] else [lo] + Range(lo + 1, hi)
  }

  lemma RangeSnoc(lo: nat, hi: nat)
    requires lo <= hi
    ensures Range(lo, hi + 1) == Range(lo, hi) + [hi]
  {
    assert forall k :: 0 <= k < hi + 1 - lo ==> Range(lo, hi + 1)[k] == (Range(lo, hi) + [hi])[k];
  }

  /** Adding one occurrence of y raises the count of y alone. */
  lemma AddOneCount(A: multiset<nat>, y: nat, x: nat)
    ensures (multiset{y} + A)[x] == A[x] + if x == y then 1 else 0
  {
  }

  /** Each index of the range occurs exactly once, and nothing else occurs. */
  lemma {:induction false} RangeCount(lo: nat, hi: nat, x: nat)
    requires lo <= hi
    ensures multiset(Range(lo, hi))[x] == if lo <= x < hi then 1 else 0
    decreases hi - lo
  {
    if lo < hi {
      RangeCount(lo + 1, hi, x);
      RangeFirst(lo, hi);
      AddOneCount(multiset(Range(lo + 1, hi)), lo, x);
    } else {
      assert Range(lo, hi) == [];
    }
  }

  /** The indices still alive in de Rooij's loop (the heap and the current
      maximum) are distinct members of lo .. hi - 1. */
  lemma LiveWithin(live: seq<nat>, x: nat, lo: nat, hi: nat)
    requires lo <= hi && multiset(live) + multiset{x} <= multiset(Range(lo, hi))
    ensures lo <= x < hi && x !in live
    ensures forall y :: y in live ==> lo <= y < hi
  {
    RangeCount(lo, hi, x);
    forall y | y in live
      ensures lo <= y < hi
    {
      RangeCount(lo, hi, y);
    }
  }

  /** Taking the lowest index off the range. */
  lemma RangeFirst(lo: nat, hi: nat)
    requires lo < hi
    ensures multiset(Range(lo, hi)) == multiset{lo} + multiset(Range(lo + 1, hi))
  {
    assert Range(lo, hi) == [lo] + Range(lo + 1, hi);
  }

  lemma MultisetCancel(A: multiset<nat>, B: multiset<nat>, x: nat)
    requires A + multiset{x} == multiset{x} + B
    ensures A == B
  {
    forall y
      ensures A[y] == B[y]
    {
      assert (A + multiset{x})[y] == (multiset{x} + B)[y];
    }
  }

  /** The reference ("naive") multi-exponentiation: the sum over i of
      Times(a[i], e[i]), accumulated from index 0 upwards. */
  function MultiExpSum(a: seq<Elem>, e: seq<nat>): Elem
    requires |a| == |e|
  {
    if |a| == 0 then Identity
    else Add(MultiExpSum(a[..|a| - 1], e[..|e| - 1]), Times(a[|a| - 1], e[|e| - 1]))
  }

  /** Every position of S indexes both the bases and the exponents. */
  ghost predicate ValidIndices(S: seq<nat>, na: nat, ne: nat)
  {
    forall k :: 0 <= k < |S| ==> S[k] < na && S[k] < ne
  }

  /** The multi-exponentiation over the positions of S: an index that occurs
      twice contributes twice. */
  function SubsetSum(S: seq<nat>, a: seq<Elem>, e: seq<nat>): Elem
    requires ValidIndices(S, |a|, |e|)
  {
    if |S| == 0 then Identity
    else Add(SubsetSum(S[..|S| - 1], a, e), Times(a[S[|S| - 1]], e[S[|S| - 1]]))
  }

  /** The multi-exponentiation over S with every exponent shifted right by j
      bits: the value of the accumulator once bits maxBits - 1 down to j have
      been processed. */
  function ShiftedSum(S: seq<nat>, a: seq<Elem>, e: seq<nat>, j: nat): Elem
    requires ValidIndices(S, |a|, |e|)
  {
    if |S| == 0 then Identity
    else Add(ShiftedSum(S[..|S| - 1], a, e, j), Times(a[S[|S| - 1]], Shift(e[S[|S| - 1]], j)))
  }

  /** What one pass of the inner loop adds at bit j: a[S[k]] for every
      position k whose exponent has bit j set. */
  function BitSum(S: seq<nat>, a: seq<Elem>, e: seq<nat>, j: nat): Elem
    requires ValidIndices(S, |a|, |e|)
  {
    if |S| == 0 then Identity
    else Add(BitSum(S[..|S| - 1], a, e, j), if Bit(e[S[|S| - 1]], j) then a[S[|S| - 1]] else Identity)
  }

  /** The number of positions of S whose exponent has bit j set. */
  function BitCount(S: seq<nat>, e: seq<nat>, j: nat): (c: nat)
    requires forall k :: 0 <= k < |S| ==> S[k] < |e|
    ensures c <= |S|
  {
    if |S| == 0 then 0
    else BitCount(S[..|S| - 1], e, j) + (if Bit(e[S[|S| - 1]], j) then 1 else 0)
  }

  /** The number of Add operations made for bits j .. m - 1. */
  function AddsFrom(S: seq<nat>, e: seq<nat>, j: nat, m: int): nat
    requires j < m ==> forall k :: 0 <= k < |S| ==> S[k] < |e|
    decreases m - j
  {
    if j >= m then 0 else BitCount(S, e, j) + AddsFrom(S, e, j + 1, m)
  }

  /** Every exponent selected by S has at most m bits. */
  ghost predicate Narrow(S: seq<nat>, e: seq<nat>, m: int)
    requires forall k :: 0 <= k < |S| ==> S[k] < |e|
  {
    forall k :: 0 <= k < |S| ==> BitLength(e[S[k]]) <= m
  }

  /** Over the full range, narrowness speaks of every exponent below n. */
  lemma NarrowRange(e: seq<nat>, n: nat, m: int)
    requires n <= |e|
    ensures Narrow(Range(0, n), e, m) <==> forall i :: 0 <= i < n ==> BitLength(e[i]) <= m
  {
    var S := Range(0, n);
    forall i | 0 <= i < n
      ensures Narrow(S, e, m) ==> BitLength(e[i]) <= m
    {
      assert S[i] == i;
    }
    if forall i :: 0 <= i < n ==> BitLength(e[i]) <= m {
      assert forall k :: 0 <= k < |S| ==> BitLength(e[S[k]]) <= m;
    }
  }

  /** Binary Horner step: the sum shifted by j bits is the doubled sum
      shifted by j + 1 bits plus the bit-j contributions. */
  lemma {:induction false} ShiftedSumStep(S: seq<nat>, a: seq<Elem>, e: seq<nat>, j: nat)
    requires ValidIndices(S, |a|, |e|)
    ensures ShiftedSum(S, a, e, j) == Add(Double(ShiftedSum(S, a, e, j + 1)), BitSum(S, a, e, j))
  {
    if |S| > 0 {
      var x := S[|S| - 1];
      ShiftedSumStep(S[..|S| - 1], a, e, j);
      TimesShift(a[x], e[x], j);
    }
  }

  /** Exponents of at most m bits shifted by m bits are all 0, so nothing
      has been accumulated before the first bit is processed. */
  lemma {:induction false} ShiftedSumPastWidth(S: seq<nat>, a: seq<Elem>, e: seq<nat>, m: nat)
    requires ValidIndices(S, |a|, |e|) && Narrow(S, e, m)
    ensures ShiftedSum(S, a, e, m) == Identity
  {
    if |S| > 0 {
      ShiftedSumPastWidth(S[..|S| - 1], a, e, m);
      ShiftPastWidth(e[S[|S| - 1]], m);
    }
  }

  /** With no shift the partial sum is the multi-exponentiation itself. */
  lemma {:induction false} ShiftedSumUnshifted(S: seq<nat>, a: seq<Elem>, e: seq<nat>)
    requires ValidIndices(S, |a|, |e|)
    ensures ShiftedSum(S, a, e, 0) == SubsetSum(S, a, e)
  {
    if |S| > 0 {
      ShiftedSumUnshifted(S[..|S| - 1], a, e);
    }
  }

  /** At most one Add per (bit, position) pair. */
  lemma {:induction false} AddsFromBound(S: seq<nat>, e: seq<nat>, j: nat, m: int)
    requires j < m ==> forall k :: 0 <= k < |S| ==> S[k] < |e|
    ensures AddsFrom(S, e, j, m) <= (if j < m then m - j else 0) * |S|
    decreases m - j
  {
    if j < m {
      AddsFromBound(S, e, j + 1, m);
      assert (m - j) * |S| == |S| + (if j + 1 < m then m - (j + 1) else 0) * |S|;
    }
  }

  /** The subset sum is additive in S: splitting the index list splits the
      sum, and a repeated index is counted once per occurrence. */
  lemma {:induction false} SubsetSumAppend(S: seq<nat>, T: seq<nat>, a: seq<Elem>, e: seq<nat>)
    requires ValidIndices(S, |a|, |e|) && ValidIndices(T, |a|, |e|)
    ensures ValidIndices(S + T, |a|, |e|)
    ensures SubsetSum(S + T, a, e) == Add(SubsetSum(S, a, e), SubsetSum(T, a, e))
    decreases |T|
  {
    if |T| > 0 {
      var T' := T[..|T| - 1];
      assert (S + T)[..|S + T| - 1] == S + T';
      SubsetSumAppend(S, T', a, e);
    } else {
      assert S + T == S;
    }
  }

  /** Over the full range 0 .. n - 1 the subset sum is the reference sum. */
  lemma {:induction false} RangeSubsetIsReference(a: seq<Elem>, e: seq<nat>, n: nat)
    requires n <= |a| && n <= |e|
    ensures ValidIndices(Range(0, n), |a|, |e|)
    ensures SubsetSum(Range(0, n), a, e) == MultiExpSum(a[..n], e[..n])
  {
    if n > 0 {
      RangeSubsetIsReference(a, e, n - 1);
      RangeSnoc(0, n - 1);
      assert Range(0, n)[..n - 1] == Range(0, n - 1);
      assert a[..n][..n - 1] == a[..n - 1] && e[..n][..n - 1] == e[..n - 1];
    }
  }

  /** Replacing one base and one exponent replaces exactly that term. */
  lemma {:induction false} MultiExpSumUpdate(a: seq<Elem>, e: seq<nat>, i: nat, x: Elem, y: nat)
    requires |a| == |e| && i < |a|
    ensures MultiExpSum(a[i := x], e[i := y]) == MultiExpSum(a, e) - Times(a[i], e[i]) + Times(x, y)
  {
    var n := |a| - 1;
    if i == n {
      assert a[i := x][..n] == a[..n] && e[i := y][..n] == e[..n];
    } else {
      assert a[i := x][..n] == a[..n][i := x] && e[i := y][..n] == e[..n][i := y];
      MultiExpSumUpdate(a[..n], e[..n], i, x, y);
    }
  }

  /** One reduction step of de Rooij's algorithm keeps the multi-exponentiation:
      with q = t[m] div t[k], replacing t[m] by t[m] mod t[k] and b[k] by
      Times(b[m], q) + b[k] removes q·t[k] from one term and adds it to the
      other. */
  lemma ReductionKeepsSum(b: seq<Elem>, t: seq<nat>, m: nat, k: nat)
    requires |b| == |t| && m < |b| && k < |b| && m != k && t[k] > 0
    ensures MultiExpSum(b[k := Add(Times(b[m], t[m] / t[k]), b[k])], t[m := t[m] % t[k]])
         == MultiExpSum(b, t)
  {
    var x, d := t[m], t[k];
    var t1 := t[m := x % d];
    var nb := Add(Times(b[m], x / d), b[k]);
    MultiExpSumUpdate(b, t, m, b[m], x % d);
    assert b[m := b[m]] == b;
    MultiExpSumUpdate(b, t1, k, nb, d);
    assert t1[k := d] == t1;
    FoldQuotient(b[m], b[k], x, d);
  }

  /** When every exponent but the one at k is 0, the sum is that one term. */
  lemma {:induction false} MultiExpSumSingle(a: seq<Elem>, e: seq<nat>, k: nat)
    requires |a| == |e| && k < |a|
    requires forall i :: 0 <= i < |e| && i != k ==> e[i] == 0
    ensures MultiExpSum(a, e) == Times(a[k], e[k])
  {
    var n := |a| - 1;
    if k == n {
      MultiExpSumZero(a[..n], e[..n]);
    } else {
      MultiExpSumSingle(a[..n], e[..n], k);
    }
  }

  lemma {:induction false} MultiExpSumZero(a: seq<Elem>, e: seq<nat>)
    requires |a| == |e| && forall i :: 0 <= i < |e| ==> e[i] == 0
    ensures MultiExpSum(a, e) == Identity
  {
    if |a| > 0 {
      MultiExpSumZero(a[..|a| - 1], e[..|e| - 1]);
    }
  }

  /** The sum of all exponents: the measure that every reduction step of de
      Rooij's algorithm decreases. */
  function Total(t: seq<nat>): nat
  {
    if |t| == 0 then 0 else Total(t[..|t| - 1]) + t[|t| - 1]
  }

  lemma {:induction false} TotalUpdate(t: seq<nat>, i: nat, v: nat)
    requires i < |t|
    ensures Total(t[i := v]) == Total(t) - t[i] + v
  {
    var n := |t| - 1;
    if i == n {
      assert t[i := v][..n] == t[..n];
    } else {
      assert t[i := v][..n] == t[..n][i := v];
      TotalUpdate(t[..n], i, v);
    }
  }
}
