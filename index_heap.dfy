/** The binary max-heap that `std::make_heap`, `std::push_heap` and
    `std::pop_heap` maintain over a vector of indices, ordered by the
    comparator `keys[lhs] < keys[rhs]`: position 0 is the root, the parent of
    position i > 0 is (i - 1) / 2, and no index has a larger key than its
    parent. The keys live in a side vector; the heap holds only indices into it.

    The three operations are written as the usual sift-up and sift-down loops
    over a sequence; which of several indices with equal keys ends up on top is
    left unspecified, as it is for the standard library. */
module IndexHeap {

  /** Every position holds an index into the keys. */
  ghost predicate InRange(h: seq<nat>, keys: seq<nat>)
  {
    forall i :: 0 <= i < |h| ==> h[i] < |keys|
  }

  /** The position of the parent of position i > 0. */
  function Parent(i: nat): (p: nat)
    ensures 0 < i ==> p < i
  {
    if i == 0 then 0 else (i - 1) / 2
  }

  /** No position has a larger key than its parent. */
  ghost predicate IsMaxHeap(h: seq<nat>, keys: seq<nat>)
  {
    InRange(h, keys) &&
    forall i {:trigger Parent(i)} :: 0 < i < |h| ==> keys[h[i]] <= keys[h[Parent(i)]]
  }

  /** Heap order everywhere except between position k and its parent, and
      k's children are no larger than k's parent (the state while an index
      climbs from a leaf). */
  ghost predicate HeapExceptUp(h: seq<nat>, keys: seq<nat>, k: nat)
    requires InRange(h, keys)
  {
    (forall i {:trigger Parent(i)} :: 0 < i < |h| && i != k ==> keys[h[i]] <= keys[h[Parent(i)]]) &&
    (0 < k && 2 * k + 1 < |h| ==> keys[h[2 * k + 1]] <= keys[h[Parent(k)]]) &&
    (0 < k && 2 * k + 2 < |h| ==> keys[h[2 * k + 2]] <= keys[h[Parent(k)]])
  }

  /** Heap order everywhere except between position k and its children, and
      k's children are no larger than k's parent (the state while an index
      sinks from the root). */
  ghost predicate HeapExceptDown(h: seq<nat>, keys: seq<nat>, k: nat)
    requires InRange(h, keys)
  {
    (forall i {:trigger Parent(i)} :: 0 < i < |h| && Parent(i) != k ==> keys[h[i]] <= keys[h[Parent(i)]]) &&
    (0 < k && 2 * k + 1 < |h| ==> keys[h[2 * k + 1]] <= keys[h[Parent(k)]]) &&
    (0 < k && 2 * k + 2 < |h| ==> keys[h[2 * k + 2]] <= keys[h[Parent(k)]])
  }

  lemma {:induction false} BelowRoot(h: seq<nat>, keys: seq<nat>, i: nat)
    requires IsMaxHeap(h, keys) && i < |h|
    ensures keys[h[i]] <= keys[h[0]]
  {
    if i > 0 {
      BelowRoot(h, keys, Parent(i));
    }
  }

  /** The root of a max-heap has a key at least as large as every index in it. */
  lemma RootIsMax(h: seq<nat>, keys: seq<nat>)
    requires IsMaxHeap(h, keys) && |h| > 0
    ensures forall x :: x in h ==> keys[x] <= keys[h[0]]
  {
    forall x | x in h
      ensures keys[x] <= keys[h[0]]
    {
      var i :| 0 <= i < |h| && h[i] == x;
      BelowRoot(h, keys, i);
    }
  }

  /** Changing the key of an index that is not in the heap keeps heap order. */
  lemma KeyChangeOutside(h: seq<nat>, keys: seq<nat>, x: nat, v: nat)
    requires IsMaxHeap(h, keys) && x < |keys| && x !in h
    ensures IsMaxHeap(h, keys[x := v])
  {
    forall i | 0 < i < |h|
      ensures keys[x := v][h[i]] <= keys[x := v][h[Parent(i)]]
    {
      assert h[i] != x && h[Parent(i)] != x;
    }
  }

  /** After sift-up swaps k with its parent p, every parent-child pair not
      ending at p is in order. */
  lemma SiftUpPairs(r: seq<nat>, keys: seq<nat>, k: nat)
    requires InRange(r, keys) && 0 < k < |r| && HeapExceptUp(r, keys, k)
    requires keys[r[Parent(k)]] < keys[r[k]]
    ensures var s := r[k := r[Parent(k)]][Parent(k) := r[k]];
      forall i {:trigger Parent(i)} :: 0 < i < |s| && i != Parent(k) ==> keys[s[i]] <= keys[s[Parent(i)]]
  {
    var p := Parent(k);
    var s := r[k := r[p]][p := r[k]];
    forall i | 0 < i < |s| && i != p
      ensures keys[s[i]] <= keys[s[Parent(i)]]
    {
      var j := Parent(i);
      if i == k {
        assert s[i] == r[p] && s[j] == r[k];
      } else if j == k {
        assert i == 2 * k + 1 || i == 2 * k + 2;
        assert s[i] == r[i] && s[j] == r[p];
      } else if j == p {
        assert keys[r[i]] <= keys[r[Parent(i)]];
        assert s[i] == r[i] && s[j] == r[k];
      } else {
        assert keys[r[i]] <= keys[r[Parent(i)]];
        assert s[i] == r[i] && s[j] == r[j];
      }
    }
  }

  /** After sift-up swaps k with its parent p, p's children are no larger
      than p's parent. */
  lemma SiftUpChildren(r: seq<nat>, keys: seq<nat>, k: nat, c: nat)
    requires InRange(r, keys) && 0 < k < |r| && HeapExceptUp(r, keys, k)
    requires 0 < Parent(k) && (c == 2 * Parent(k) + 1 || c == 2 * Parent(k) + 2)
    ensures var s := r[k := r[Parent(k)]][Parent(k) := r[k]];
      c < |s| ==> keys[s[c]] <= keys[s[Parent(Parent(k))]]
  {
    var p := Parent(k);
    var pp := Parent(p);
    var s := r[k := r[p]][p := r[k]];
    assert keys[r[p]] <= keys[r[pp]];
    if c < |s| {
      if c == k {
        assert s[c] == r[p] && s[pp] == r[pp];
      } else {
        assert Parent(c) == p;
        assert keys[r[c]] <= keys[r[p]];
        assert s[c] == r[c] && s[pp] == r[pp];
      }
    }
  }

  /** One step of sift-up: swapping position k with its larger-keyed parent
      moves the exception up to the parent. */
  lemma SiftUpStep(r: seq<nat>, keys: seq<nat>, k: nat)
    requires InRange(r, keys) && 0 < k < |r| && HeapExceptUp(r, keys, k)
    requires keys[r[Parent(k)]] < keys[r[k]]
    ensures InRange(r[k := r[Parent(k)]][Parent(k) := r[k]], keys) &&
            HeapExceptUp(r[k := r[Parent(k)]][Parent(k) := r[k]], keys, Parent(k))
  {
    var p := Parent(k);
    SwapInRange(r, keys, k, p);
    SiftUpPairs(r, keys, k);
    if 0 < p {
      SiftUpChildren(r, keys, k, 2 * p + 1);
      SiftUpChildren(r, keys, k, 2 * p + 2);
    }
  }

  /** When position k is no larger than its parent, the exception is gone. */
  lemma SiftUpDone(r: seq<nat>, keys: seq<nat>, k: nat)
    requires InRange(r, keys) && k < |r| && HeapExceptUp(r, keys, k)
    requires 0 < k ==> keys[r[k]] <= keys[r[Parent(k)]]
    ensures IsMaxHeap(r, keys)
  {
    forall i | 0 < i < |r|
      ensures keys[r[i]] <= keys[r[Parent(i)]]
    {
    }
  }

  /** A heap with one index appended is a heap except at the new last
      position. */
  lemma PushStart(h: seq<nat>, keys: seq<nat>)
    requires |h| > 0 && IsMaxHeap(h[..|h| - 1], keys) && h[|h| - 1] < |keys|
    ensures InRange(h, keys) && HeapExceptUp(h, keys, |h| - 1)
  {
    var k := |h| - 1;
    forall i | 0 <= i < |h|
      ensures h[i] < |keys|
    {
      if i < k {
        assert h[i] == h[..k][i];
      }
    }
    forall i | 0 < i < |h| && i != k
      ensures keys[h[i]] <= keys[h[Parent(i)]]
    {
      assert h[i] == h[..k][i] && h[Parent(i)] == h[..k][Parent(i)];
    }
  }

  /** `std::push_heap`: the last position of h is sifted up into the heap
      formed by the positions before it. */
  method PushHeap(h: seq<nat>, keys: seq<nat>) returns (r: seq<nat>)
    requires |h| > 0 && IsMaxHeap(h[..|h| - 1], keys) && h[|h| - 1] < |keys|
    ensures |r| == |h| && multiset(r) == multiset(h)
    ensures IsMaxHeap(r, keys)
  {
    PushStart(h, keys);
    r := h;
    var k := |h| - 1;
    while k > 0 && keys[r[Parent(k)]] < keys[r[k]]
      invariant 0 <= k < |r| == |h| && multiset(r) == multiset(h)
      invariant InRange(r, keys) && HeapExceptUp(r, keys, k)
    {
      SiftUpStep(r, keys, k);
      var p := Parent(k);
      r := r[k := r[p]][p := r[k]];
      k := p;
    }
    SiftUpDone(r, keys, k);
  }

  /** The pair (i, Parent(i)) is in order after sift-down swaps k with c. */
  lemma SiftDownPair(r: seq<nat>, keys: seq<nat>, k: nat, c: nat, i: nat)
    requires InRange(r, keys) && HeapExceptDown(r, keys, k)
    requires (c == 2 * k + 1 || c == 2 * k + 2) && c < |r|
    requires 2 * k + 1 < |r| ==> keys[r[2 * k + 1]] <= keys[r[c]]
    requires 2 * k + 2 < |r| ==> keys[r[2 * k + 2]] <= keys[r[c]]
    requires keys[r[k]] < keys[r[c]]
    requires 0 < i < |r| && Parent(i) != c
    ensures keys[r[k := r[c]][c := r[k]][i]] <= keys[r[k := r[c]][c := r[k]][Parent(i)]]
  {
    var s := r[k := r[c]][c := r[k]];
    var j := Parent(i);
    assert Parent(c) == k;
    if i == c {
      assert s[i] == r[k] && s[j] == r[c];
    } else if j == k {
      assert i == 2 * k + 1 || i == 2 * k + 2;
      assert s[i] == r[i] && s[j] == r[c];
    } else if i == k {
      assert s[i] == r[c] && s[j] == r[j];
      if c == 2 * k + 1 {
        assert keys[r[2 * k + 1]] <= keys[r[Parent(k)]];
      } else {
        assert keys[r[2 * k + 2]] <= keys[r[Parent(k)]];
      }
    } else {
      assert s[i] == r[i] && s[j] == r[j];
      assert keys[r[i]] <= keys[r[Parent(i)]];
    }
  }

  /** After sift-down swaps k with c, every parent-child pair not starting
      at c is in order. */
  lemma SiftDownPairs(r: seq<nat>, keys: seq<nat>, k: nat, c: nat)
    requires InRange(r, keys) && HeapExceptDown(r, keys, k)
    requires (c == 2 * k + 1 || c == 2 * k + 2) && c < |r|
    requires 2 * k + 1 < |r| ==> keys[r[2 * k + 1]] <= keys[r[c]]
    requires 2 * k + 2 < |r| ==> keys[r[2 * k + 2]] <= keys[r[c]]
    requires keys[r[k]] < keys[r[c]]
    ensures var s := r[k := r[c]][c := r[k]];
      forall i {:trigger Parent(i)} :: 0 < i < |s| && Parent(i) != c ==> keys[s[i]] <= keys[s[Parent(i)]]
  {
    forall i | 0 < i < |r| && Parent(i) != c
      ensures keys[r[k := r[c]][c := r[k]][i]] <= keys[r[k := r[c]][c := r[k]][Parent(i)]]
    {
      SiftDownPair(r, keys, k, c, i);
    }
  }

  /** After sift-down swaps k with c, c's children are no larger than k. */
  lemma SiftDownChildren(r: seq<nat>, keys: seq<nat>, k: nat, c: nat, cc: nat)
    requires InRange(r, keys) && HeapExceptDown(r, keys, k)
    requires (c == 2 * k + 1 || c == 2 * k + 2) && c < |r|
    requires cc == 2 * c + 1 || cc == 2 * c + 2
    ensures cc < |r| ==> keys[r[k := r[c]][c := r[k]][cc]] <= keys[r[k := r[c]][c := r[k]][Parent(c)]]
  {
    if cc < |r| {
      assert Parent(cc) == c && Parent(c) == k;
      assert keys[r[cc]] <= keys[r[c]];
    }
  }

  /** One step of sift-down: swapping position k with its larger child c,
      whose key exceeds k's, moves the exception down to c. */
  lemma SiftDownStep(r: seq<nat>, keys: seq<nat>, k: nat, c: nat)
    requires InRange(r, keys) && HeapExceptDown(r, keys, k)
    requires (c == 2 * k + 1 || c == 2 * k + 2) && c < |r|
    requires 2 * k + 1 < |r| ==> keys[r[2 * k + 1]] <= keys[r[c]]
    requires 2 * k + 2 < |r| ==> keys[r[2 * k + 2]] <= keys[r[c]]
    requires keys[r[k]] < keys[r[c]]
    ensures InRange(r[k := r[c]][c := r[k]], keys) &&
            HeapExceptDown(r[k := r[c]][c := r[k]], keys, c)
  {
    SwapInRange(r, keys, k, c);
    SiftDownPairs(r, keys, k, c);
    SiftDownChildren(r, keys, k, c, 2 * c + 1);
    SiftDownChildren(r, keys, k, c, 2 * c + 2);
  }

  /** Exchanging two positions keeps every position an index into the keys. */
  lemma SwapInRange(r: seq<nat>, keys: seq<nat>, i: nat, j: nat)
    requires InRange(r, keys) && i < |r| && j < |r|
    ensures InRange(r[i := r[j]][j := r[i]], keys)
  {
    var s := r[i := r[j]][j := r[i]];
    forall p | 0 <= p < |s|
      ensures s[p] < |keys|
    {
      assert s[p] == r[p] || s[p] == r[i] || s[p] == r[j];
    }
  }

  /** Exchanging two positions keeps the same indices. */
  lemma SwapKeepsIndices(r: seq<nat>, i: nat, j: nat)
    requires i < |r| && j < |r|
    ensures multiset(r[i := r[j]][j := r[i]]) == multiset(r)
  {
  }

  /** When neither child of k has a larger key, the exception is gone. */
  lemma SiftDownDone(r: seq<nat>, keys: seq<nat>, k: nat)
    requires InRange(r, keys) && HeapExceptDown(r, keys, k)
    requires 2 * k + 1 < |r| ==> keys[r[2 * k + 1]] <= keys[r[k]]
    requires 2 * k + 2 < |r| ==> keys[r[2 * k + 2]] <= keys[r[k]]
    ensures IsMaxHeap(r, keys)
  {
    forall i | 0 < i < |r|
      ensures keys[r[i]] <= keys[r[Parent(i)]]
    {
      if Parent(i) == k {
        assert i == 2 * k + 1 || i == 2 * k + 2;
      }
    }
  }

  /** One round of sift-down at position k, which has at least one child:
      either k is already no smaller than its children, or it is swapped with
      the larger child. */
  method SiftDownOnce(r: seq<nat>, keys: seq<nat>, k: nat) returns (s: seq<nat>, next: nat, done: bool)
    requires InRange(r, keys) && HeapExceptDown(r, keys, k) && 2 * k + 1 < |r|
    ensures |s| == |r| && multiset(s) == multiset(r) && InRange(s, keys)
    ensures HeapExceptDown(s, keys, next)
    ensures done ==> next == k && IsMaxHeap(s, keys)
    ensures !done ==> k < next < |s|
  {
    var c := 2 * k + 1;
    if c + 1 < |r| && keys[r[c]] < keys[r[c + 1]] {
      c := c + 1;
    }
    if keys[r[c]] <= keys[r[k]] {
      SiftDownDone(r, keys, k);
      s, next, done := r, k, true;
    } else {
      SiftDownStep(r, keys, k, c);
      SwapKeepsIndices(r, k, c);
      s, next, done := r[k := r[c]][c := r[k]], c, false;
    }
  }

  /** Sifts the index at the root down until its children are no larger. */
  method SiftDown(h: seq<nat>, keys: seq<nat>) returns (r: seq<nat>)
    requires InRange(h, keys) && HeapExceptDown(h, keys, 0)
    ensures |r| == |h| && multiset(r) == multiset(h)
    ensures IsMaxHeap(r, keys)
  {
    r := h;
    var k := 0;
    var done := false;
    while !done && 2 * k + 1 < |r|
      invariant |r| == |h| && multiset(r) == multiset(h)
      invariant InRange(r, keys) && HeapExceptDown(r, keys, k)
      invariant done ==> IsMaxHeap(r, keys)
      decreases |r| - k, !done
    {
      r, k, done := SiftDownOnce(r, keys, k);
    }
    if !done {
      SiftDownDone(r, keys, k);
    }
  }

  /** `std::pop_heap`: the root (an index of largest key) is moved to the last
      position and the remaining positions are made a heap again. */
  method PopHeap(h: seq<nat>, keys: seq<nat>) returns (r: seq<nat>)
    requires |h| > 0 && IsMaxHeap(h, keys)
    ensures |r| == |h| && multiset(r) == multiset(h)
    ensures r[|r| - 1] == h[0] && forall x :: x in h ==> keys[x] <= keys[r[|r| - 1]]
    ensures IsMaxHeap(r[..|r| - 1], keys)
  {
    RootIsMax(h, keys);
    var last := |h| - 1;
    var swapped := h[0 := h[last]][last := h[0]];
    assert multiset(swapped) == multiset(h);
    assert swapped == swapped[..last] + [h[0]];
    var rest := SiftDown(swapped[..last], keys);
    r := rest + [h[0]];
    assert r[..|r| - 1] == rest;
  }

  /** `std::make_heap`: arranges the indices of h into a heap. */
  method MakeHeap(h: seq<nat>, keys: seq<nat>) returns (r: seq<nat>)
    requires InRange(h, keys)
    ensures |r| == |h| && multiset(r) == multiset(h)
    ensures IsMaxHeap(r, keys)
  {
    r := [];
    var i := 0;
    while i < |h|
      invariant 0 <= i <= |h| && |r| == i && multiset(r) == multiset(h[..i])
      invariant IsMaxHeap(r, keys)
    {
      assert (r + [h[i]])[..i] == r;
      r := PushHeap(r + [h[i]], keys);
      assert h[..i + 1] == h[..i] + [h[i]];
      i := i + 1;
    }
    assert h[..|h|] == h;
  }
}
