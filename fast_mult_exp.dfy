/** The multi-exponentiation algorithms of FastMultExp.cpp: simultaneous
    double-and-add over an index subset or over all indices, and the
    heap-driven exponent reduction named after de Rooij, both as the code is
    written and in a corrected form. */
module FastMultExp {
  import opened Group
  import opened MultiExpSpec
  import opened IndexHeap

  /** The ways a call can fail instead of returning a group element. */
  datatype Error =
    | SizeMismatch    // "the sizes of the bases and exponents must match"
    | NoExponents     // "give me some exponents and bases man"
    | WidthExceeded   // assertLessThanOrEqual(e[idx].getBits(), maxBits) fails
    | DivisionByZero  // a scalar reduced modulo an exponent that is 0

  datatype Result<T> = Ok(value: T) | Err(error: Error)

  /** One pass of the inner loop of `fastMultExp(S, a, e, maxBits)` at bit j:
      add a[idx] for every idx in S whose exponent has bit j set, stopping at
      the first exponent wider than maxBits. */
  method AddColumnSubset(S: seq<nat>, a: seq<Elem>, e: seq<nat>, j: nat, maxBits: int, r0: Elem)
    returns (ok: bool, r: Elem, added: nat)
    requires ValidIndices(S, |a|, |e|)
    ensures ok <==> Narrow(S, e, maxBits)
    ensures ok ==> r == Add(r0, BitSum(S, a, e, j)) && added == BitCount(S, e, j)
  {
    r, added := r0, 0;
    var k := 0;
    while k < |S|
      invariant 0 <= k <= |S|
      invariant forall i :: 0 <= i < k ==> BitLength(e[S[i]]) <= maxBits
      invariant r == Add(r0, BitSum(S[..k], a, e, j))
      invariant added == BitCount(S[..k], e, j)
    {
      var idx := S[k];
      if BitLength(e[idx]) > maxBits {
        return false, r, added;
      }
      if Bit(e[idx], j) {
        r := Add(r, a[idx]);
        added := added + 1;
      }
      assert S[..k + 1][..k] == S[..k];
      k := k + 1;
    }
    assert S[..|S|] == S;
    ok := true;
  }

  /** `fastMultExp(S, a, e, maxBits)`: for each bit j from maxBits - 1 down
      to 0, double the accumulator, then add a[idx] for every idx in S whose
      exponent has bit j set. Also returns how many Double and Add operations
      were made. */
  method FastMultExpSubset(S: seq<nat>, a: seq<Elem>, e: seq<nat>, maxBits: int)
    returns (res: Result<Elem>, doublings: nat, additions: nat)
    requires maxBits > 0 ==> ValidIndices(S, |a|, |e|)
    ensures maxBits <= 0 ==> res == Ok(Identity) && doublings == 0 && additions == 0
    ensures maxBits > 0 ==>
      res == if Narrow(S, e, maxBits) then Ok(SubsetSum(S, a, e)) else Err(WidthExceeded)
    ensures res.Ok? ==> doublings == (if maxBits > 0 then maxBits else 0)
    ensures res.Ok? ==> additions == AddsFrom(S, e, 0, maxBits) && additions <= doublings * |S|
  {
    var r := Identity;
    doublings, additions := 0, 0;
    var j := maxBits - 1;
    if maxBits > 0 && Narrow(S, e, maxBits) {
      ShiftedSumPastWidth(S, a, e, maxBits);
    }
    while j >= 0
      invariant maxBits > 0 ==> -1 <= j < maxBits
      invariant maxBits <= 0 ==> j == maxBits - 1 && r == Identity && doublings == 0 && additions == 0
      invariant j < maxBits - 1 ==> Narrow(S, e, maxBits)
      invariant maxBits > 0 && Narrow(S, e, maxBits) ==> r == ShiftedSum(S, a, e, j + 1)
      invariant doublings == maxBits - 1 - j
      invariant maxBits > 0 ==> additions == AddsFrom(S, e, j + 1, maxBits)
    {
      r := Double(r);
      doublings := doublings + 1;
      var ok, added;
      ok, r, added := AddColumnSubset(S, a, e, j, maxBits, r);
      if !ok {
        return Err(WidthExceeded), doublings, additions;
      }
      additions := additions + added;
      ShiftedSumStep(S, a, e, j);
      j := j - 1;
    }
    res := Ok(r);
    if maxBits > 0 {
      ShiftedSumUnshifted(S, a, e);
    }
    AddsFromBound(S, e, 0, maxBits);
  }

  /** One pass of the inner loop of `fastMultExp(a, e, maxBits)` at bit j:
      add a[idx] for every idx < |a| whose exponent has bit j set, stopping at
      the first exponent wider than maxBits. */
  method AddColumn(a: seq<Elem>, e: seq<nat>, j: nat, maxBits: int, r0: Elem)
    returns (ok: bool, r: Elem, added: nat)
    requires |a| <= |e|
    ensures ok <==> forall i :: 0 <= i < |a| ==> BitLength(e[i]) <= maxBits
    ensures ok ==> r == Add(r0, BitSum(Range(0, |a|), a, e, j)) && added == BitCount(Range(0, |a|), e, j)
  {
    ghost var S := Range(0, |a|);
    r, added := r0, 0;
    var idx := 0;
    while idx < |a|
      invariant 0 <= idx <= |a|
      invariant forall i :: 0 <= i < idx ==> BitLength(e[i]) <= maxBits
      invariant r == Add(r0, BitSum(S[..idx], a, e, j))
      invariant added == BitCount(S[..idx], e, j)
    {
      if BitLength(e[idx]) > maxBits {
        return false, r, added;
      }
      if Bit(e[idx], j) {
        r := Add(r, a[idx]);
        added := added + 1;
      }
      assert S[idx] == idx;
      assert S[..idx + 1][..idx] == S[..idx];
      idx := idx + 1;
    }
    assert S[..|a|] == S;
    ok := true;
  }

  /** `fastMultExp(a, e, maxBits)`: the same loop with S implicitly
      0, 1, ..., |a| - 1; e is indexed by a's indices. */
  method FastMultExp(a: seq<Elem>, e: seq<nat>, maxBits: int)
    returns (res: Result<Elem>, doublings: nat, additions: nat)
    requires maxBits > 0 ==> |a| <= |e|
    ensures maxBits <= 0 ==> res == Ok(Identity) && doublings == 0 && additions == 0
    ensures maxBits > 0 ==>
      && ValidIndices(Range(0, |a|), |a|, |e|)
      && res == if Narrow(Range(0, |a|), e, maxBits) then Ok(SubsetSum(Range(0, |a|), a, e)) else Err(WidthExceeded)
    ensures maxBits > 0 ==>
      res == if forall i :: 0 <= i < |a| ==> BitLength(e[i]) <= maxBits
             then Ok(MultiExpSum(a, e[..|a|])) else Err(WidthExceeded)
    ensures res.Ok? ==> doublings == (if maxBits > 0 then maxBits else 0)
    ensures res.Ok? ==> additions == AddsFrom(Range(0, |a|), e, 0, maxBits) && additions <= doublings * |a|
  {
    ghost var S := Range(0, |a|);
    var r := Identity;
    doublings, additions := 0, 0;
    var j := maxBits - 1;
    if maxBits > 0 {
      NarrowRange(e, |a|, maxBits);
      if Narrow(S, e, maxBits) {
        ShiftedSumPastWidth(S, a, e, maxBits);
      }
    }
    while j >= 0
      invariant maxBits > 0 ==> -1 <= j < maxBits
      invariant maxBits <= 0 ==> j == maxBits - 1 && r == Identity && doublings == 0 && additions == 0
      invariant j < maxBits - 1 ==> Narrow(S, e, maxBits)
      invariant maxBits > 0 && Narrow(S, e, maxBits) ==> r == ShiftedSum(S, a, e, j + 1)
      invariant doublings == maxBits - 1 - j
      invariant maxBits > 0 ==> additions == AddsFrom(S, e, j + 1, maxBits)
    {
      r := Double(r);
      doublings := doublings + 1;
      var ok, added;
      ok, r, added := AddColumn(a, e, j, maxBits, r);
      if !ok {
        return Err(WidthExceeded), doublings, additions;
      }
      additions := additions + added;
      ShiftedSumStep(S, a, e, j);
      j := j - 1;
    }
    res := Ok(r);
    if maxBits > 0 {
      ShiftedSumUnshifted(S, a, e);
      RangeSubsetIsReference(a, e, |a|);
      assert a[..|a|] == a;
    }
    AddsFromBound(S, e, 0, maxBits);
  }

  /** `std::pop_heap` followed by `heap.back()` and `heap.pop_back()`: removes
      an index of largest key from the heap and returns it. */
  method PopMax(h: seq<nat>, keys: seq<nat>) returns (rest: seq<nat>, top: nat)
    requires |h| > 0 && IsMaxHeap(h, keys)
    ensures multiset(rest) + multiset{top} == multiset(h) && |rest| == |h| - 1
    ensures top in h && forall x :: x in h ==> keys[x] <= keys[top]
    ensures forall x :: x in rest ==> x in h
    ensures IsMaxHeap(rest, keys)
  {
    var r := PopHeap(h, keys);
    top := r[|r| - 1];
    rest := r[..|r| - 1];
    assert r == rest + [top];
    assert multiset(rest) + multiset{top} == multiset(h);
    assert top in multiset(h);
    forall x | x in rest
      ensures x in h
    {
      assert x in multiset(rest);
      assert x in multiset(h);
    }
  }

  /** One pass of the loop of `fastMultExp_de_Rooij` as written: with eNext
      the index on top of the heap, reduce t[eMax] modulo t[eNext], compute the
      quotient from the reduced value, fold it into b[eNext], re-insert eMax
      unless it is index 0, and take the next largest index off the heap. It
      fails when t[eNext] is 0. Because the quotient of a remainder by its own
      divisor is 0, the bases come back unchanged. */
  method ReduceAsWritten(b: seq<Elem>, t: seq<nat>, heap: seq<nat>, eMax: nat)
    returns (ok: bool, b': seq<Elem>, t': seq<nat>, heap': seq<nat>, eMax': nat)
    requires |b| == |t| && eMax < |t| && |heap| > 0 && eMax !in heap
    requires IsMaxHeap(heap, t) && forall x :: x in heap ==> t[x] <= t[eMax]
    ensures !ok <==> t[heap[0]] == 0
    ensures ok ==>
      && b' == b
      && t' == t[eMax := t[eMax] % t[heap[0]]]
      && Total(t') < Total(t)
      && multiset(heap') + multiset{eMax'} == multiset(heap) + (if eMax != 0 then multiset{eMax} else multiset{})
      && |heap'| + 1 == |heap| + (if eMax != 0 then 1 else 0)
      && eMax' < |t'| && IsMaxHeap(heap', t')
      && (forall x :: x in heap' ==> t'[x] <= t'[eMax'])
      && (forall x :: x in heap ==> t'[x] <= t'[eMax'])
      && (eMax != 0 ==> t'[eMax] <= t'[eMax'])
  {
    var eNext := heap[0];
    if t[eNext] == 0 {
      return false, b, t, heap, eMax;
    }
    ok := true;
    var d := t[eNext];
    t' := t[eMax := t[eMax] % d];
    var q := t'[eMax] / d;
    assert q == 0 by {
      RemainderQuotient(t[eMax], d);
    }
    b' := b[eNext := Add(Times(b[eMax], q), b[eNext])];
    assert b' == b;
    TotalUpdate(t, eMax, t'[eMax]);
    KeyChangeOutside(heap, t, eMax, t'[eMax]);
    var h := heap;
    if eMax != 0 {
      assert (heap + [eMax])[..|heap|] == heap;
      h := PushHeap(heap + [eMax], t');
      assert multiset(h) == multiset(heap) + multiset{eMax};
      forall x | x in heap
        ensures x in h
      {
        assert x in multiset(heap);
        assert x in multiset(h);
      }
      assert eMax in multiset(h);
    }
    heap', eMax' := PopMax(h, t');
  }

  /** One pass of the loop as written keeps the live indices (the heap and
      eMax) equal to lo .. n - 1, where lo moves from 0 to 1 when index 0 is
      the maximum and is not re-inserted. */
  lemma LiveStep(h0: seq<nat>, e0: nat, heap: seq<nat>, eMax: nat, lo: nat, n: nat)
    requires lo <= 1 && lo <= n && multiset(h0) + multiset{e0} == multiset(Range(lo, n)) && |h0| + 1 + lo == n
    requires multiset(heap) + multiset{eMax} == multiset(h0) + (if e0 != 0 then multiset{e0} else multiset{})
    requires |heap| + 1 == |h0| + (if e0 != 0 then 1 else 0)
    ensures var lo' := if e0 == 0 then 1 else lo;
      && multiset(heap) + multiset{eMax} == multiset(Range(lo', n))
      && |heap| + 1 + lo' == n && lo' <= eMax < n
  {
    LiveWithin(h0, e0, lo, n);
    if e0 == 0 {
      RangeFirst(0, n);
      MultisetCancel(multiset(h0), multiset(Range(1, n)), 0);
      LiveWithin(heap, eMax, 1, n);
    } else {
      LiveWithin(heap, eMax, lo, n);
    }
  }

  /** The results `fastMultExp_de_Rooij` as written can give for two terms:
      an exponent 0 always ends in a division by zero; otherwise the result is
      Times(bases[1], r) for the remainder r that t[1] holds when index 0
      leaves the heap, or a division by zero when that remainder is 0. With
      equal exponents the outcome depends on which index the heap puts on
      top. */
  predicate PairOutcome(bases: seq<Elem>, exps: seq<nat>, res: Result<Elem>)
    requires |bases| == |exps| == 2
  {
    && (exps[0] == 0 || exps[1] == 0 ==> res == Err(DivisionByZero))
    && (0 < exps[1] < exps[0] ==> res == Ok(Times(bases[1], exps[1])))
    && (0 < exps[0] < exps[1] ==>
          res == if exps[1] % exps[0] == 0 then Err(DivisionByZero) else Ok(Times(bases[1], exps[1] % exps[0])))
    && (0 < exps[0] == exps[1] ==> res == Err(DivisionByZero) || res == Ok(Times(bases[1], exps[1])))
  }

  /** Over two terms, what the loop as written still returns from a state
      where index eMax holds the larger exponent and the other index is on the
      heap. With eMax = 0, t[0] is reduced, index 0 is dropped and the result is
      Times(b1, t[1]); with eMax = 1, t[1] is reduced modulo t[0], index 0
      becomes the maximum and the case eMax = 0 follows. */
  function PairFinish(b1: Elem, t: seq<nat>, eMax: nat): Result<Elem>
    requires |t| == 2
  {
    if eMax == 0 then
      if t[1] == 0 then Err(DivisionByZero) else Ok(Times(b1, t[1]))
    else if t[0] == 0 then Err(DivisionByZero)
    else if t[1] % t[0] == 0 then Err(DivisionByZero)
    else Ok(Times(b1, t[1] % t[0]))
  }

  /** Whichever index the heap first puts on top, PairFinish from the
      initial exponents is an outcome PairOutcome allows. */
  lemma PairStart(bases: seq<Elem>, exps: seq<nat>, eMax: nat)
    requires |bases| == |exps| == 2 && eMax < 2 && exps[1 - eMax] <= exps[eMax]
    ensures PairOutcome(bases, exps, PairFinish(bases[1], exps, eMax))
  {
  }

  /** One pass of the loop over two terms: from eMax = 0 the loop ends with
      Times(b1, t[1]); from eMax = 1 the reduced state has the same outcome. */
  lemma PairFinishStep(b1: Elem, t: seq<nat>, eMax: nat, eNext: nat, t': seq<nat>, eMax': nat)
    requires |t| == 2 && eMax < 2 && eNext < 2 && eMax != eNext && 0 < t[eNext] && eMax' < 2
    requires t' == t[eMax := t[eMax] % t[eNext]]
    requires eMax != 0 ==> t'[eNext] <= t'[eMax']
    ensures eMax == 0 ==> PairFinish(b1, t, eMax) == Ok(Times(b1, t'[1]))
    ensures eMax != 0 ==> PairFinish(b1, t, eMax) == PairFinish(b1, t', eMax')
  {
  }

  /** A division by zero in the loop over two terms is an outcome
      PairOutcome allows. */
  lemma PairErr(bases: seq<Elem>, exps: seq<nat>, eMax0: nat, t: seq<nat>, eMax: nat, eNext: nat)
    requires |bases| == |exps| == 2 && eMax0 < 2 && exps[1 - eMax0] <= exps[eMax0]
    requires |t| == 2 && eMax < 2 && eNext < 2 && eMax != eNext && t[eNext] == 0
    requires PairFinish(bases[1], exps, eMax0) == PairFinish(bases[1], t, eMax)
    ensures PairOutcome(bases, exps, Err(DivisionByZero))
  {
    PairStart(bases, exps, eMax0);
  }

  /** The loop over two terms ending normally returns an outcome PairOutcome
      allows. */
  lemma PairOk(bases: seq<Elem>, exps: seq<nat>, eMax0: nat, r: nat)
    requires |bases| == |exps| == 2 && eMax0 < 2 && exps[1 - eMax0] <= exps[eMax0]
    requires PairFinish(bases[1], exps, eMax0) == Ok(Times(bases[1], r))
    ensures PairOutcome(bases, exps, Ok(Times(bases[1], r)))
  {
    PairStart(bases, exps, eMax0);
  }

  /** Lines 82-93 of `fastMultExp_de_Rooij`: every index goes into a max-heap
      keyed by its exponent and the largest is popped off as `eMax`; what
      remains is a heap over all the other indices. */
  method InitialHeap(exps: seq<nat>) returns (heap: seq<nat>, eMax: nat)
    requires |exps| > 0
    ensures |heap| + 1 == |exps|
    ensures multiset(heap) + multiset{eMax} == multiset(Range(0, |exps|))
    ensures eMax < |exps| && IsMaxHeap(heap, exps)
    ensures forall x :: x in heap ==> exps[x] <= exps[eMax]
    ensures forall i :: 0 <= i < |exps| ==> exps[i] <= exps[eMax] && (i in heap || i == eMax)
  {
    heap := MakeHeap(Range(0, |exps|), exps);
    heap, eMax := PopMax(heap, exps);
    LiveWithin(heap, eMax, 0, |exps|);
    forall i | 0 <= i < |exps|
      ensures exps[i] <= exps[eMax] && (i in heap || i == eMax)
    {
      RangeCount(0, |exps|, i);
      if i != eMax {
        assert i in multiset(heap);
      }
    }
  }

  /** One pass of the reduction loop of `fastMultExp_de_Rooij`, with the
      loop's invariant as contract: the live indices stay a max-heap plus its
      top over the indices not yet dropped, the bases never change, and for
      two terms the eventual outcome stays the one fixed by the first top. */
  method DeRooijPass(ghost bases: seq<Elem>, ghost exps: seq<nat>, b: seq<Elem>, t: seq<nat>,
                     heap: seq<nat>, eMax: nat, ghost dropped: bool, ghost eMax0: nat)
    returns (ok: bool, b': seq<Elem>, t': seq<nat>, heap': seq<nat>, eMax': nat, ghost dropped': bool)
    requires |bases| == |exps| && |heap| > 0
    requires b == bases && |t| == |exps|
    requires |heap| + 1 + (if dropped then 1 else 0) == |exps|
    requires multiset(heap) + multiset{eMax} == multiset(Range(if dropped then 1 else 0, |exps|))
    requires eMax < |exps| && IsMaxHeap(heap, t)
    requires forall x :: x in heap ==> t[x] <= t[eMax]
    requires |exps| == 2 ==> eMax0 < 2 && exps[1 - eMax0] <= exps[eMax0]
    requires |exps| == 2 ==> PairFinish(bases[1], exps, eMax0) == PairFinish(bases[1], t, eMax)
    ensures !ok ==> |exps| == 2 ==> PairOutcome(bases, exps, Err(DivisionByZero))
    ensures ok ==> b' == bases && |t'| == |exps| && Total(t') < Total(t)
    ensures ok ==> multiset(heap') + multiset{eMax'} == multiset(Range(if dropped' then 1 else 0, |exps|))
    ensures ok ==> |heap'| + 1 + (if dropped' then 1 else 0) == |exps|
    ensures ok ==> eMax' < |exps| && IsMaxHeap(heap', t')
    ensures ok ==> forall x :: x in heap' ==> t'[x] <= t'[eMax']
    ensures ok && |exps| == 2 ==>
      PairFinish(bases[1], exps, eMax0) == if dropped' then Ok(Times(bases[1], t'[1])) else PairFinish(bases[1], t', eMax')
  {
    var n := |exps|;
    ghost var lo := if dropped then 1 else 0;
    LiveWithin(heap, eMax, lo, n);
    assert heap[0] in heap;
    ok, b', t', heap', eMax' := ReduceAsWritten(b, t, heap, eMax);
    dropped' := dropped || eMax == 0;
    if !ok {
      if n == 2 {
        PairErr(bases, exps, eMax0, t, eMax, heap[0]);
      }
      return;
    }
    LiveStep(heap, eMax, heap', eMax', lo, n);
    if n == 2 {
      PairFinishStep(bases[1], t, eMax, heap[0], t', eMax');
    }
  }

  /** `fastMultExp_de_Rooij(bases, exps, maxBits)` as written. Each step
      reduces the largest exponent t[eMax] modulo the next largest t[eNext],
      but computes the quotient q from the already reduced value, so q is 0
      and no base ever changes; and it re-inserts eMax unless the index (not
      the exponent) is 0. Index 0 is therefore the only one that ever leaves
      the heap: with three or more terms the heap never empties and the loop
      ends by dividing by an exponent that has become 0. A call with one term
      returns Times(bases[0], exps[0]); with two terms the result depends on
      the two exponents as stated below. */
  method DeRooij(bases: seq<Elem>, exps: seq<nat>, maxBits: int) returns (res: Result<Elem>)
    ensures |bases| != |exps| ==> res == Err(SizeMismatch)
    ensures |bases| == |exps| == 0 ==> res == Err(NoExponents)
    ensures |bases| == |exps| == 1 ==> res == Ok(Times(bases[0], exps[0]))
    ensures |bases| == |exps| >= 3 ==> res == Err(DivisionByZero)
    ensures |bases| == |exps| == 2 ==> PairOutcome(bases, exps, res)
  {
    if |exps| != |bases| {
      return Err(SizeMismatch);
    }
    if |exps| == 0 {
      return Err(NoExponents);
    }
    var n := |exps|;
    var b, t := bases, exps;

    var heap: seq<nat>, eMax: nat := InitialHeap(t);
    ghost var eMax0 := eMax;
    ghost var dropped := false;
    while |heap| > 0
      invariant b == bases && |t| == n
      invariant multiset(heap) + multiset{eMax} == multiset(Range(if dropped then 1 else 0, n))
      invariant |heap| + 1 + (if dropped then 1 else 0) == n
      invariant eMax < n && IsMaxHeap(heap, t)
      invariant forall x :: x in heap ==> t[x] <= t[eMax]
      invariant n == 1 ==> t == exps
      invariant n == 2 ==> eMax0 < 2 && exps[1 - eMax0] <= exps[eMax0]
      invariant n == 2 ==>
        PairFinish(bases[1], exps, eMax0) == if dropped then Ok(Times(bases[1], t[1])) else PairFinish(bases[1], t, eMax)
      decreases Total(t)
    {
      var ok;
      ok, b, t, heap, eMax, dropped := DeRooijPass(bases, exps, b, t, heap, eMax, dropped, eMax0);
      if !ok {
        return Err(DivisionByZero);
      }
    }
    LiveWithin(heap, eMax, if dropped then 1 else 0, n);
    if n == 2 {
      PairOk(bases, exps, eMax0, t[1]);
    }
    return Ok(Times(b[eMax], t[eMax]));
  }

  /** Every index that has left the heap for good (neither in the heap nor
      the current maximum) has exponent 0, so it adds nothing to the sum. */
  ghost predicate Retired(t: seq<nat>, heap: seq<nat>, eMax: nat)
  {
    forall i :: 0 <= i < |t| && i !in heap && i != eMax ==> t[i] == 0
  }

  /** An index leaves for good only once its exponent is 0: if eMax is
      re-inserted unless its new exponent is 0 and no other exponent changes,
      every retired index still has exponent 0. */
  lemma RetiredStep(t: seq<nat>, heap: seq<nat>, eMax: nat, t': seq<nat>, h: seq<nat>, heap': seq<nat>, eMax': nat)
    requires Retired(t, heap, eMax) && eMax < |t| == |t'| && t' == t[eMax := t'[eMax]]
    requires multiset(h) == multiset(heap) + (if t'[eMax] != 0 then multiset{eMax} else multiset{})
    requires multiset(heap') + multiset{eMax'} == multiset(h)
    ensures Retired(t', heap', eMax')
  {
    forall i | 0 <= i < |t'| && i !in heap' && i != eMax'
      ensures t'[i] == 0
    {
      assert (multiset(heap') + multiset{eMax'})[i] == 0;
      if i != eMax {
        assert i !in multiset(heap);
      }
    }
  }

  /** One pass of de Rooij's loop as evidently intended: the quotient
      t[eMax] div t[eNext] is taken before t[eMax] is reduced, and eMax goes
      back into the heap exactly when its reduced exponent is not 0. The
      pass keeps the multi-exponentiation of (b, t) and strictly lowers the
      sum of the exponents. */
  method ReduceCorrected(b: seq<Elem>, t: seq<nat>, heap: seq<nat>, eMax: nat)
    returns (b': seq<Elem>, t': seq<nat>, heap': seq<nat>, eMax': nat)
    requires |b| == |t| && eMax < |t| && |heap| > 0 && eMax !in heap
    requires IsMaxHeap(heap, t) && forall x :: x in heap ==> t[x] <= t[eMax]
    requires t[heap[0]] > 0 && Retired(t, heap, eMax)
    ensures |b'| == |t'| == |t| && MultiExpSum(b', t') == MultiExpSum(b, t)
    ensures Total(t') < Total(t)
    ensures t' == t[eMax := t[eMax] % t[heap[0]]]
    ensures b' == b[heap[0] := Add(Times(b[eMax], t[eMax] / t[heap[0]]), b[heap[0]])]
    ensures multiset(heap') + multiset{eMax'}
         == multiset(heap) + (if t'[eMax] != 0 then multiset{eMax} else multiset{})
    ensures multiset(heap') + multiset{eMax'} <= multiset(heap) + multiset{eMax}
    ensures eMax' < |t'| && IsMaxHeap(heap', t') && Retired(t', heap', eMax')
    ensures forall x :: x in heap' ==> t'[x] <= t'[eMax']
  {
    var eNext := heap[0];
    var d := t[eNext];
    var q := t[eMax] / d;
    t' := t[eMax := t[eMax] % d];
    b' := b[eNext := Add(Times(b[eMax], q), b[eNext])];
    ReductionKeepsSum(b, t, eMax, eNext);
    TotalUpdate(t, eMax, t'[eMax]);
    KeyChangeOutside(heap, t, eMax, t'[eMax]);
    var h := heap;
    if t'[eMax] != 0 {
      assert (heap + [eMax])[..|heap|] == heap;
      h := PushHeap(heap + [eMax], t');
      assert multiset(h) == multiset(heap) + multiset{eMax};
    }
    heap', eMax' := PopMax(h, t');
    RetiredStep(t, heap, eMax, t', h, heap', eMax');
  }

  /** `fastMultExp_de_Rooij` as evidently intended: the same heap-driven
      reduction with the quotient taken before the remainder, a reduced
      exponent re-inserted when it is not 0, and the loop ending once every
      exponent left in the heap is 0. It returns the reference
      multi-exponentiation for every non-empty input. */
  method DeRooijCorrected(bases: seq<Elem>, exps: seq<nat>, maxBits: int) returns (res: Result<Elem>)
    ensures |bases| != |exps| ==> res == Err(SizeMismatch)
    ensures |bases| == |exps| == 0 ==> res == Err(NoExponents)
    ensures |bases| == |exps| > 0 ==> res == Ok(MultiExpSum(bases, exps))
  {
    if |exps| != |bases| {
      return Err(SizeMismatch);
    }
    if |exps| == 0 {
      return Err(NoExponents);
    }
    var n := |exps|;
    var b, t := bases, exps;
    var heap: seq<nat>, eMax: nat := InitialHeap(t);
    while |heap| > 0 && t[heap[0]] != 0
      invariant |b| == |t| == n && MultiExpSum(b, t) == MultiExpSum(bases, exps)
      invariant multiset(heap) + multiset{eMax} <= multiset(Range(0, n))
      invariant eMax < n && IsMaxHeap(heap, t) && Retired(t, heap, eMax)
      invariant forall x :: x in heap ==> t[x] <= t[eMax]
      decreases Total(t)
    {
      LiveWithin(heap, eMax, 0, n);
      b, t, heap, eMax := ReduceCorrected(b, t, heap, eMax);
    }
    if |heap| > 0 {
      RootIsMax(heap, t);
    }
    MultiExpSumSingle(b, t, eMax);
    return Ok(Times(b[eMax], t[eMax]));
  }

  /** The one call in TestFastMultExpDeRooij.cpp: empty vectors and maxBits 0
      end in the "give me some exponents" error. */
  method EmptyInputRejected() returns (res: Result<Elem>)
    ensures res == Err(NoExponents)
  {
    res := DeRooij([], [], 0);
  }

  /** Lines 99-103: the quotient is taken from the already reduced exponent,
      so it is 0 and the bases never change. For bases [1, 1] and exponents
      [3, 5] the code returns 2 where the multi-exponentiation is 8. */
  method QuotientAfterRemainder() returns (asWritten: Result<Elem>, intended: Result<Elem>)
    ensures asWritten == Ok(2) && intended == Ok(8)
  {
    asWritten := DeRooij([1, 1], [3, 5], 0);
    intended := DeRooijCorrected([1, 1], [3, 5], 0);
    assert [1, 1][..1] == [1] && [3, 5][..1] == [3];
  }

  /** Line 106: the re-insertion test looks at the index e_max rather than its
      exponent, so an index other than 0 never leaves the heap and three or
      more terms always reach a division by zero. For bases [1, 1, 1] and
      exponents [1, 2, 3] the code fails where the multi-exponentiation is 6. */
  method ReinsertTestsIndex() returns (asWritten: Result<Elem>, intended: Result<Elem>)
    ensures asWritten == Err(DivisionByZero) && intended == Ok(6)
  {
    asWritten := DeRooij([1, 1, 1], [1, 2, 3], 0);
    intended := DeRooijCorrected([1, 1, 1], [1, 2, 3], 0);
    assert [1, 1, 1][..2] == [1, 1] && [1, 2, 3][..2] == [1, 2];
    assert [1, 1][..1] == [1] && [1, 2][..1] == [1];
  }

  /** Line 99: nothing stops the loop when the next exponent is 0, so a zero
      exponent is a divisor. For bases [1, 1] and exponents [0, 5] the code
      fails where the multi-exponentiation is 5. */
  method ZeroExponentDivides() returns (asWritten: Result<Elem>, intended: Result<Elem>)
    ensures asWritten == Err(DivisionByZero) && intended == Ok(5)
  {
    asWritten := DeRooij([1, 1], [0, 5], 0);
    intended := DeRooijCorrected([1, 1], [0, 5], 0);
    assert [1, 1][..1] == [1] && [0, 5][..1] == [0];
  }
}
