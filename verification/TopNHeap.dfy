/** A bounded heap that keeps the best candidates of a stream, the worst of them at the root. */
module TopNHeap {
  import opened Basics

  type Compare<!C> = (C, C) -> Ordering

  /** A total preorder on the good candidates. */
  ghost predicate TotalPreorder<C(!new)>(compare: Compare<C>, good: C -> bool) {
    && (forall a, b :: good(a) && good(b) ==> compare(a, b) == compare(b, a).Reverse())
    && (forall a, b, c :: good(a) && good(b) && good(c) && compare(a, b) != Greater && compare(b, c) != Greater ==> compare(a, c) != Greater)
  }

  ghost predicate AllGood<C>(good: C -> bool, s: seq<C>) {
    forall i :: 0 <= i < |s| ==> good(s[i])
  }

  function Parent(i: nat): nat
    requires i > 0
  {
    (i - 1) / 2
  }

  /** No candidate is worse than its parent. */
  predicate IsHeap<C>(compare: Compare<C>, s: seq<C>) {
    forall i :: 0 < i < |s| ==> compare(s[i], s[Parent(i)]) != Greater
  }

  /** A heap but for `idx` against its parent; the children of `idx` are in order with that parent. */
  predicate HeapBelow<C>(compare: Compare<C>, s: seq<C>, idx: nat) {
    && (forall i :: 0 < i < |s| && i != idx ==> compare(s[i], s[Parent(i)]) != Greater)
    && (0 < idx < |s| ==> forall i :: 0 < i < |s| && Parent(i) == idx ==> compare(s[i], s[Parent(idx)]) != Greater)
  }

  /** A heap but for `idx` against its children; those children are in order with the parent of `idx`. */
  predicate HeapAbove<C>(compare: Compare<C>, s: seq<C>, idx: nat) {
    && (forall i :: 0 < i < |s| && Parent(i) != idx ==> compare(s[i], s[Parent(i)]) != Greater)
    && (0 < idx < |s| ==> forall i :: 0 < i < |s| && Parent(i) == idx ==> compare(s[i], s[Parent(idx)]) != Greater)
  }

  function Swap<C>(s: seq<C>, i: nat, j: nat): (r: seq<C>)
    requires i < |s| && j < |s|
    ensures |r| == |s| && multiset(r) == multiset(s)
  {
    s[i := s[j]][j := s[i]]
  }

  lemma SwapUp<C(!new)>(compare: Compare<C>, good: C -> bool, s: seq<C>, idx: nat)
    requires TotalPreorder(compare, good) && AllGood(good, s) && 0 < idx < |s| && HeapBelow(compare, s, idx)
    requires compare(s[idx], s[Parent(idx)]) == Greater
    ensures HeapBelow(compare, Swap(s, idx, Parent(idx)), Parent(idx)) && AllGood(good, Swap(s, idx, Parent(idx)))
  {
    var p := Parent(idx);
    var r := Swap(s, idx, p);
    assert compare(s[p], s[idx]) == Less;
    forall i | 0 < i < |r| && i != p ensures compare(r[i], r[Parent(i)]) != Greater {
      if i != idx && Parent(i) == p {
        assert compare(s[i], s[p]) != Greater && compare(s[p], s[idx]) != Greater;
      }
    }
    if p > 0 {
      assert compare(s[p], s[Parent(p)]) != Greater;
    }
  }

  lemma SwapDown<C(!new)>(compare: Compare<C>, good: C -> bool, s: seq<C>, idx: nat, child: nat)
    requires TotalPreorder(compare, good) && AllGood(good, s) && HeapAbove(compare, s, idx)
    requires 0 < child < |s| && Parent(child) == idx && compare(s[child], s[idx]) == Greater
    requires forall i :: 0 < i < |s| && Parent(i) == idx ==> compare(s[i], s[child]) != Greater
    ensures HeapAbove(compare, Swap(s, idx, child), child) && AllGood(good, Swap(s, idx, child))
  {
    var r := Swap(s, idx, child);
    forall i | 0 < i < |r| && Parent(i) != child ensures compare(r[i], r[Parent(i)]) != Greater {
      if i == child {
        assert compare(s[idx], s[child]) == Less;
      }
    }
  }

  /** The root of a heap is a worst candidate. */
  lemma {:induction false} RootIsWorst<C(!new)>(compare: Compare<C>, good: C -> bool, s: seq<C>, i: nat)
    requires TotalPreorder(compare, good) && AllGood(good, s) && IsHeap(compare, s) && i < |s|
    ensures compare(s[i], s[0]) != Greater
  {
    if i == 0 {
      assert compare(s[0], s[0]) == compare(s[0], s[0]).Reverse();
    } else {
      RootIsWorst(compare, good, s, Parent(i));
      assert compare(s[i], s[Parent(i)]) != Greater;
    }
  }

  function Min(a: nat, b: nat): nat {
    if a < b then a else b
  }

  /**
   * What the candidates are worth after a stream: the kept and the discarded ones are the whole stream, as
   * many are kept as fit, and none of the kept is worse than any of the discarded.
   */
  ghost predicate Best<C(!new)>(compare: Compare<C>, window: nat, seen: seq<C>, kept: seq<C>, discarded: seq<C>) {
    && multiset(seen) == multiset(kept) + multiset(discarded)
    && |kept| == Min(window, |seen|)
    && forall i, j :: 0 <= i < |kept| && 0 <= j < |discarded| ==> compare(kept[i], discarded[j]) != Greater
  }

  // ---------------------------------------------------------------------------------------------
  // The algorithm on a vector of candidates, for any comparator.

  /** `sift_topn_candidate_up`. */
  function SiftedUp<C>(compare: Compare<C>, s: seq<C>, idx: nat): (r: seq<C>)
    requires idx < |s|
    ensures |r| == |s| && multiset(r) == multiset(s)
    decreases idx
  {
    if idx == 0 || compare(s[idx], s[Parent(idx)]) != Greater then s
    else SiftedUp(compare, Swap(s, idx, Parent(idx)), Parent(idx))
  }

  /** The worst of `idx` and its children, the earlier one among equals. */
  function WorstOf<C>(compare: Compare<C>, s: seq<C>, idx: nat): (w: nat)
    requires idx < |s|
    ensures idx <= w < |s|
  {
    var left, right := idx * 2 + 1, idx * 2 + 2;
    var worst := if left < |s| && compare(s[left], s[idx]) == Greater then left else idx;
    if right < |s| && compare(s[right], s[worst]) == Greater then right else worst
  }

  /** `sift_topn_candidate_down`. */
  function SiftedDown<C>(compare: Compare<C>, s: seq<C>, idx: nat): (r: seq<C>)
    requires idx < |s|
    ensures |r| == |s| && multiset(r) == multiset(s)
    decreases |s| - idx
  {
    var w := WorstOf(compare, s, idx);
    if w == idx then s else SiftedDown(compare, Swap(s, idx, w), w)
  }

  /** `push_topn_candidate`. */
  function Pushed<C>(compare: Compare<C>, window: nat, s: seq<C>, c: C): seq<C> {
    if window == 0 then s
    else if |s| < window then SiftedUp(compare, s + [c], |s|)
    else if compare(c, s[0]) != Less then s
    else SiftedDown(compare, s[0 := c], 0)
  }

  /** What a push drops. */
  function Dropped<C>(compare: Compare<C>, window: nat, s: seq<C>, c: C): seq<C> {
    if window == 0 then [c]
    else if |s| < window then []
    else if compare(c, s[0]) != Less then [c]
    else [s[0]]
  }

  /** The candidates after a stream. */
  function Kept<C>(compare: Compare<C>, window: nat, stream: seq<C>): seq<C> {
    if stream == [] then []
    else Pushed(compare, window, Kept(compare, window, stream[..|stream| - 1]), stream[|stream| - 1])
  }

  function Discarded<C>(compare: Compare<C>, window: nat, stream: seq<C>): seq<C> {
    if stream == [] then []
    else
      var front := stream[..|stream| - 1];
      Discarded(compare, window, front) + Dropped(compare, window, Kept(compare, window, front), stream[|stream| - 1])
  }

  /** The vector of candidates that a scan fills. */
  class Candidates<C> {
    const compare: Compare<C>
    const window: nat
    var heap: seq<C>

    constructor (compare: Compare<C>, window: nat)
      ensures heap == [] && this.compare == compare && this.window == window
    {
      this.compare, this.window := compare, window;
      heap := [];
    }

    method SiftUp(start: nat)
      requires start < |heap|
      modifies this
      ensures heap == SiftedUp(compare, old(heap), start)
    {
      var idx := start;
      while idx > 0
        invariant 0 <= idx < |heap|
        invariant SiftedUp(compare, heap, idx) == SiftedUp(compare, old(heap), start)
      {
        var parent := (idx - 1) / 2;
        if compare(heap[idx], heap[parent]) != Greater {
          break;
        }
        heap := Swap(heap, idx, parent);
        idx := parent;
      }
    }

    method SiftDown(start: nat)
      requires start < |heap|
      modifies this
      ensures heap == SiftedDown(compare, old(heap), start)
    {
      var idx := start;
      while true
        invariant 0 <= idx < |heap| == |old(heap)|
        invariant SiftedDown(compare, heap, idx) == SiftedDown(compare, old(heap), start)
        decreases |heap| - idx
      {
        var left := idx * 2 + 1;
        var right := left + 1;
        var worst := idx;
        if left < |heap| && compare(heap[left], heap[worst]) == Greater {
          worst := left;
        }
        if right < |heap| && compare(heap[right], heap[worst]) == Greater {
          worst := right;
        }
        if worst == idx {
          break;
        }
        heap := Swap(heap, idx, worst);
        idx := worst;
      }
    }

    method Push(c: C)
      modifies this
      ensures heap == Pushed(compare, window, old(heap), c)
    {
      if window == 0 {
        return;
      }
      if |heap| < window {
        heap := heap + [c];
        SiftUp(|heap| - 1);
        return;
      }
      if compare(c, heap[0]) != Less {
        return;
      }
      heap := heap[0 := c];
      SiftDown(0);
    }
  }

  // ---------------------------------------------------------------------------------------------
  // Under a total preorder the vector stays a heap of the best candidates.

  lemma {:induction false} SiftedUpIsHeap<C(!new)>(compare: Compare<C>, good: C -> bool, s: seq<C>, idx: nat)
    requires TotalPreorder(compare, good) && AllGood(good, s) && idx < |s| && HeapBelow(compare, s, idx)
    ensures IsHeap(compare, SiftedUp(compare, s, idx)) && AllGood(good, SiftedUp(compare, s, idx))
    decreases idx
  {
    if idx > 0 && compare(s[idx], s[Parent(idx)]) == Greater {
      SwapUp(compare, good, s, idx);
      SiftedUpIsHeap(compare, good, Swap(s, idx, Parent(idx)), Parent(idx));
    }
  }

  lemma WorstIsWorst<C(!new)>(compare: Compare<C>, good: C -> bool, s: seq<C>, idx: nat)
    requires TotalPreorder(compare, good) && AllGood(good, s) && idx < |s|
    ensures var w := WorstOf(compare, s, idx);
      && (w != idx ==> Parent(w) == idx && compare(s[w], s[idx]) == Greater)
      && forall i :: 0 < i < |s| && Parent(i) == idx ==> compare(s[i], s[w]) != Greater
  {
    var w := WorstOf(compare, s, idx);
    assert forall i :: 0 < i < |s| && Parent(i) == idx ==> i == idx * 2 + 1 || i == idx * 2 + 2;
    assert compare(s[w], s[w]) == compare(s[w], s[w]).Reverse();
    if w == idx * 2 + 2 {
      var l := idx * 2 + 1;
      assert compare(s[w], s[l]) == compare(s[l], s[w]).Reverse() && compare(s[w], s[idx]) == compare(s[idx], s[w]).Reverse();
    }
  }

  lemma {:induction false} SiftedDownIsHeap<C(!new)>(compare: Compare<C>, good: C -> bool, s: seq<C>, idx: nat)
    requires TotalPreorder(compare, good) && AllGood(good, s) && idx < |s| && HeapAbove(compare, s, idx)
    ensures IsHeap(compare, SiftedDown(compare, s, idx)) && AllGood(good, SiftedDown(compare, s, idx))
    decreases |s| - idx
  {
    hide AllGood, TotalPreorder;
    WorstIsWorst(compare, good, s, idx);
    var w := WorstOf(compare, s, idx);
    if w != idx {
      SwapDown(compare, good, s, idx, w);
      SiftedDownIsHeap(compare, good, Swap(s, idx, w), w);
    }
  }

  /** One push keeps the heap, the bound, and that everything kept is at least as good as everything dropped. */
  lemma PushedBest<C(!new)>(compare: Compare<C>, good: C -> bool, window: nat, seen: seq<C>, kept: seq<C>, discarded: seq<C>, c: C)
    requires TotalPreorder(compare, good) && AllGood(good, kept) && AllGood(good, discarded) && good(c) && IsHeap(compare, kept)
    requires Best(compare, window, seen, kept, discarded)
    ensures var kept', discarded' := Pushed(compare, window, kept, c), discarded + Dropped(compare, window, kept, c);
      IsHeap(compare, kept') && AllGood(good, kept') && AllGood(good, discarded') && Best(compare, window, seen + [c], kept', discarded')
  {
    hide IsHeap, HeapBelow, HeapAbove, AllGood, Best, TotalPreorder, SiftedUp, SiftedDown;
    BestSizes(compare, window, seen, kept, discarded);
    if window == 0 {
      PushNothing(compare, good, seen, discarded, c);
    } else if |kept| < window {
      PushAppends(compare, good, window, seen, kept, discarded, c);
      SiftedUpIsHeap(compare, good, kept + [c], |kept|);
      BestOfPermutation(compare, window, seen + [c], kept + [c], SiftedUp(compare, kept + [c], |kept|), discarded);
      assert discarded + [] == discarded;
    } else if compare(c, kept[0]) != Less {
      PushKeeps(compare, good, window, seen, kept, discarded, c);
    } else {
      PushReplaces(compare, good, window, seen, kept, discarded, c);
      SiftedDownIsHeap(compare, good, kept[0 := c], 0);
      BestOfPermutation(compare, window, seen + [c], kept[0 := c], SiftedDown(compare, kept[0 := c], 0), discarded + [kept[0]]);
    }
  }

  /** After any stream. */
  lemma {:induction false} KeptBest<C(!new)>(compare: Compare<C>, good: C -> bool, window: nat, stream: seq<C>)
    requires TotalPreorder(compare, good) && AllGood(good, stream)
    ensures var kept, discarded := Kept(compare, window, stream), Discarded(compare, window, stream);
      IsHeap(compare, kept) && AllGood(good, kept) && AllGood(good, discarded) && Best(compare, window, stream, kept, discarded)
    decreases |stream|
  {
    hide Pushed, Dropped, TotalPreorder;
    if stream != [] {
      var k := |stream| - 1;
      KeptBest(compare, good, window, stream[..k]);
      PushedBest(compare, good, window, stream[..k], Kept(compare, window, stream[..k]), Discarded(compare, window, stream[..k]), stream[k]);
      assert stream[..k] + [stream[k]] == stream;
    }
  }

  lemma BestSizes<C(!new)>(compare: Compare<C>, window: nat, seen: seq<C>, kept: seq<C>, discarded: seq<C>)
    requires Best(compare, window, seen, kept, discarded)
    ensures |kept| <= window && (|kept| < window ==> discarded == []) && (window == 0 ==> kept == [])
  {
    assert |multiset(seen)| == |multiset(kept)| + |multiset(discarded)|;
  }

  lemma PushNothing<C(!new)>(compare: Compare<C>, good: C -> bool, seen: seq<C>, discarded: seq<C>, c: C)
    requires Best(compare, 0, seen, [], discarded) && AllGood(good, discarded) && good(c)
    ensures Best(compare, 0, seen + [c], [], discarded + [c]) && AllGood(good, discarded + [c])
  {
  }

  lemma PushAppends<C(!new)>(compare: Compare<C>, good: C -> bool, window: nat, seen: seq<C>, kept: seq<C>, discarded: seq<C>, c: C)
    requires AllGood(good, kept) && good(c) && IsHeap(compare, kept)
    requires Best(compare, window, seen, kept, discarded) && |kept| < window
    ensures Best(compare, window, seen + [c], kept + [c], discarded)
    ensures HeapBelow(compare, kept + [c], |kept|) && AllGood(good, kept + [c])
  {
    BestSizes(compare, window, seen, kept, discarded);
  }

  lemma BestOfPermutation<C(!new)>(compare: Compare<C>, window: nat, seen: seq<C>, kept: seq<C>, kept': seq<C>, discarded: seq<C>)
    requires Best(compare, window, seen, kept, discarded) && multiset(kept') == multiset(kept) && |kept'| == |kept|
    ensures Best(compare, window, seen, kept', discarded)
  {
    forall i, j | 0 <= i < |kept'| && 0 <= j < |discarded| ensures compare(kept'[i], discarded[j]) != Greater {
      assert kept'[i] in multiset(kept);
      var k :| 0 <= k < |kept| && kept[k] == kept'[i];
    }
  }

  /** A candidate not better than the root is not better than anything kept. */
  lemma PushKeeps<C(!new)>(compare: Compare<C>, good: C -> bool, window: nat, seen: seq<C>, kept: seq<C>, discarded: seq<C>, c: C)
    requires TotalPreorder(compare, good) && AllGood(good, kept) && good(c) && IsHeap(compare, kept)
    requires Best(compare, window, seen, kept, discarded) && |kept| == window > 0 && compare(c, kept[0]) != Less
    ensures Best(compare, window, seen + [c], kept, discarded + [c])
    ensures AllGood(good, discarded) ==> AllGood(good, discarded + [c])
  {
    forall i | 0 <= i < |kept| ensures compare(kept[i], c) != Greater {
      RootIsWorst(compare, good, kept, i);
      assert compare(kept[0], c) == compare(c, kept[0]).Reverse();
    }
  }

  /** A candidate better than the root takes its place; the old root is not better than anything kept. */
  lemma PushReplaces<C(!new)>(compare: Compare<C>, good: C -> bool, window: nat, seen: seq<C>, kept: seq<C>, discarded: seq<C>, c: C)
    requires TotalPreorder(compare, good) && AllGood(good, kept) && AllGood(good, discarded) && good(c) && IsHeap(compare, kept)
    requires Best(compare, window, seen, kept, discarded) && |kept| == window > 0 && compare(c, kept[0]) == Less
    ensures Best(compare, window, seen + [c], kept[0 := c], discarded + [kept[0]])
    ensures HeapAbove(compare, kept[0 := c], 0) && AllGood(good, kept[0 := c]) && AllGood(good, discarded + [kept[0]])
  {
    var kept', discarded' := kept[0 := c], discarded + [kept[0]];
    ReplacedMultiset(seen, kept, discarded, c);
    forall i, j | 0 <= i < |kept'| && 0 <= j < |discarded'| ensures compare(kept'[i], discarded'[j]) != Greater {
      RootIsWorst(compare, good, kept, i);
      RootBeatsDiscarded(compare, good, window, seen, kept, discarded, c, j);
    }
  }

  lemma ReplacedMultiset<C>(seen: seq<C>, kept: seq<C>, discarded: seq<C>, c: C)
    requires kept != [] && multiset(seen) == multiset(kept) + multiset(discarded)
    ensures multiset(seen + [c]) == multiset(kept[0 := c]) + multiset(discarded + [kept[0]])
  {
    assert multiset(kept[0 := c]) == multiset(kept) - multiset{kept[0]} + multiset{c};
  }

  lemma RootBeatsDiscarded<C(!new)>(compare: Compare<C>, good: C -> bool, window: nat, seen: seq<C>, kept: seq<C>, discarded: seq<C>, c: C, j: nat)
    requires TotalPreorder(compare, good) && AllGood(good, kept) && AllGood(good, discarded) && good(c) && kept != []
    requires Best(compare, window, seen, kept, discarded) && compare(c, kept[0]) == Less && j <= |discarded|
    ensures var d := (discarded + [kept[0]])[j];
      compare(c, d) != Greater && forall i :: 0 <= i < |kept| && compare(kept[i], kept[0]) != Greater ==> compare(kept[i], d) != Greater
  {
    if j < |discarded| {
      assert compare(kept[0], discarded[j]) != Greater;
    }
  }

  // ---------------------------------------------------------------------------------------------
  // Sorting what is left.

  ghost predicate SortedBy<C>(compare: Compare<C>, s: seq<C>) {
    forall i, j :: 0 <= i < j < |s| ==> compare(s[i], s[j]) != Greater
  }

  function InsertBy<C>(compare: Compare<C>, c: C, s: seq<C>): (r: seq<C>)
    ensures multiset(r) == multiset{c} + multiset(s) && |r| == |s| + 1
  {
    if s == [] || compare(c, s[0]) != Greater then [c] + s
    else
      assert s == [s[0]] + s[1..];
      [s[0]] + InsertBy(compare, c, s[1..])
  }

  /** `sort_by`: a stable sort. */
  function SortBy<C>(compare: Compare<C>, s: seq<C>): (r: seq<C>)
    ensures multiset(r) == multiset(s) && |r| == |s|
  {
    if s == [] then []
    else
      assert s == [s[0]] + s[1..];
      InsertBy(compare, s[0], SortBy(compare, s[1..]))
  }

  lemma {:induction false} InsertSorted<C(!new)>(compare: Compare<C>, good: C -> bool, c: C, s: seq<C>)
    requires TotalPreorder(compare, good) && AllGood(good, s) && good(c) && SortedBy(compare, s)
    ensures SortedBy(compare, InsertBy(compare, c, s))
    decreases |s|
  {
    if s != [] {
      if compare(c, s[0]) != Greater {
        forall i | 0 <= i < |s| ensures compare(c, s[i]) != Greater {
          assert i > 0 ==> compare(s[0], s[i]) != Greater;
        }
      } else {
        InsertSorted(compare, good, c, s[1..]);
        var rest := InsertBy(compare, c, s[1..]);
        assert compare(s[0], c) == Less;
        forall i | 0 <= i < |rest| ensures compare(s[0], rest[i]) != Greater {
          assert rest[i] in multiset{c} + multiset(s[1..]);
        }
      }
    }
  }

  lemma {:induction false} SortIsSorted<C(!new)>(compare: Compare<C>, good: C -> bool, s: seq<C>)
    requires TotalPreorder(compare, good) && AllGood(good, s)
    ensures SortedBy(compare, SortBy(compare, s)) && AllGood(good, SortBy(compare, s))
    decreases |s|
  {
    if s != [] {
      SortIsSorted(compare, good, s[1..]);
      InsertSorted(compare, good, s[0], SortBy(compare, s[1..]));
    }
    GoodPermutation(good, s, SortBy(compare, s));
  }

  lemma GoodPermutation<C>(good: C -> bool, s: seq<C>, r: seq<C>)
    requires AllGood(good, s) && multiset(r) == multiset(s)
    ensures AllGood(good, r)
  {
    forall i | 0 <= i < |r| ensures good(r[i]) {
      assert r[i] in multiset(s);
    }
  }

  /** Candidates that compare as equal are the same. */
  ghost predicate Strict<C>(compare: Compare<C>, s: seq<C>) {
    forall i, j :: 0 <= i < |s| && 0 <= j < |s| && compare(s[i], s[j]) == Equal ==> s[i] == s[j]
  }

  lemma SortedHeads<C(!new)>(compare: Compare<C>, good: C -> bool, a: seq<C>, b: seq<C>)
    requires TotalPreorder(compare, good) && AllGood(good, a) && AllGood(good, b) && Strict(compare, a) && a != [] && b != []
    requires SortedBy(compare, a) && SortedBy(compare, b) && multiset(a) == multiset(b)
    ensures a[0] == b[0]
  {
    var x, y := a[0], b[0];
    assert y in multiset(a) && x in multiset(b);
    var i :| 0 <= i < |a| && a[i] == y;
    var j :| 0 <= j < |b| && b[j] == x;
    assert compare(x, y) == compare(y, x).Reverse();
    if i > 0 && j > 0 {
      assert compare(a[0], a[i]) != Greater && compare(b[0], b[j]) != Greater;
    }
  }

  /** Under a strict order a stream has one sorted arrangement. */
  lemma {:induction false} SortedUnique<C(!new)>(compare: Compare<C>, good: C -> bool, a: seq<C>, b: seq<C>)
    requires TotalPreorder(compare, good) && AllGood(good, a) && AllGood(good, b) && Strict(compare, a)
    requires SortedBy(compare, a) && SortedBy(compare, b) && multiset(a) == multiset(b)
    ensures a == b
    decreases |a|
  {
    assert |a| == |multiset(a)| == |multiset(b)| == |b|;
    if a != [] {
      SortedHeads(compare, good, a, b);
      TailMultiset(a, b);
      assert SortedBy(compare, a[1..]) && SortedBy(compare, b[1..]) && Strict(compare, a[1..]);
      hide TotalPreorder, SortedBy, Strict;
      SortedUnique(compare, good, a[1..], b[1..]);
      assert a == [a[0]] + a[1..] && b == [b[0]] + b[1..];
    }
  }

  lemma TailMultiset<C>(a: seq<C>, b: seq<C>)
    requires a != [] && b != [] && a[0] == b[0] && multiset(a) == multiset(b)
    ensures multiset(a[1..]) == multiset(b[1..])
  {
    assert a == [a[0]] + a[1..] && b == [b[0]] + b[1..];
    assert multiset(a[1..]) == multiset(a) - multiset{a[0]};
  }

  /** `skip(skip).take(fetch)`. */
  function Page<C>(s: seq<C>, skip: nat, fetch: nat): seq<C> {
    var rest := if skip < |s| then s[skip..] else [];
    if fetch < |rest| then rest[..fetch] else rest
  }

  lemma PageOfPrefix<C>(k: seq<C>, d: seq<C>, skip: nat, fetch: nat)
    requires d == [] || skip + fetch <= |k|
    ensures Page(k + d, skip, fetch) == Page(k, skip, fetch)
  {
    if d == [] {
      assert k + d == k;
    } else {
      assert (k + d)[skip..][..fetch] == k[skip..][..fetch];
    }
  }

  /** The page of the kept candidates is the page of the whole stream, when ties are impossible. */
  lemma PageOfBest<C(!new)>(compare: Compare<C>, good: C -> bool, window: nat, seen: seq<C>, kept: seq<C>, discarded: seq<C>,
      skip: nat, fetch: nat)
    requires TotalPreorder(compare, good) && AllGood(good, kept) && AllGood(good, discarded) && Strict(compare, seen)
    requires Best(compare, window, seen, kept, discarded) && (skip + fetch <= window || |seen| <= window)
    ensures Page(SortBy(compare, kept), skip, fetch) == Page(SortBy(compare, seen), skip, fetch)
  {
    var k, d := SortBy(compare, kept), SortBy(compare, discarded);
    SortIsSorted(compare, good, kept);
    SortIsSorted(compare, good, discarded);
    AllGoodUnion(good, kept, discarded, seen);
    SortIsSorted(compare, good, seen);
    assert SortedBy(compare, k + d) by {
      forall i, j | 0 <= i < |k| && 0 <= j < |d| ensures compare(k[i], d[j]) != Greater {
        assert k[i] in multiset(kept) && d[j] in multiset(discarded);
      }
    }
    StrictPermutation(compare, seen, SortBy(compare, seen));
    SortedUnique(compare, good, SortBy(compare, seen), k + d);
    assert |multiset(seen)| == |multiset(kept)| + |multiset(discarded)|;
    PageOfPrefix(k, d, skip, fetch);
  }

  lemma AllGoodUnion<C>(good: C -> bool, a: seq<C>, b: seq<C>, s: seq<C>)
    requires AllGood(good, a) && AllGood(good, b) && multiset(s) == multiset(a) + multiset(b)
    ensures AllGood(good, s)
  {
    forall i | 0 <= i < |s| ensures good(s[i]) {
      assert s[i] in multiset(a) + multiset(b);
    }
  }

  lemma StrictPermutation<C>(compare: Compare<C>, s: seq<C>, r: seq<C>)
    requires Strict(compare, s) && multiset(r) == multiset(s)
    ensures Strict(compare, r)
  {
    forall i, j | 0 <= i < |r| && 0 <= j < |r| && compare(r[i], r[j]) == Equal ensures r[i] == r[j] {
      assert r[i] in multiset(s) && r[j] in multiset(s);
    }
  }

  /**
   * Bounded top-N is full sort, skip and take: for every stream without ties, the page of the sorted kept
   * candidates is the page of the sorted stream.
   */
  lemma TopNExact<C(!new)>(compare: Compare<C>, good: C -> bool, window: nat, stream: seq<C>, skip: nat, fetch: nat)
    requires TotalPreorder(compare, good) && AllGood(good, stream) && Strict(compare, stream)
    requires skip + fetch <= window || |stream| <= window
    ensures Page(SortBy(compare, Kept(compare, window, stream)), skip, fetch) == Page(SortBy(compare, stream), skip, fetch)
  {
    KeptBest(compare, good, window, stream);
    PageOfBest(compare, good, window, stream, Kept(compare, window, stream), Discarded(compare, window, stream), skip, fetch);
  }

  // ---------------------------------------------------------------------------------------------
  // The algorithm sees candidates only through the comparator.

  function MapSeq<A, B>(f: A -> B, s: seq<A>): (r: seq<B>)
    ensures |r| == |s|
  {
    seq(|s|, i requires 0 <= i < |s| => f(s[i]))
  }

  /** `f` takes good candidates of one kind to candidates of another that compare alike. */
  ghost predicate Respects<A(!new), B>(f: A -> B, ca: Compare<A>, cb: Compare<B>, good: A -> bool) {
    forall x, y {:trigger ca(x, y)} :: good(x) && good(y) ==> cb(f(x), f(y)) == ca(x, y)
  }

  lemma {:induction false} MappedSiftUp<A(!new), B>(f: A -> B, ca: Compare<A>, cb: Compare<B>, good: A -> bool, s: seq<A>, idx: nat)
    requires Respects(f, ca, cb, good) && AllGood(good, s) && idx < |s|
    ensures SiftedUp(cb, MapSeq(f, s), idx) == MapSeq(f, SiftedUp(ca, s, idx))
    decreases idx
  {
    if idx > 0 {
      assert cb(f(s[idx]), f(s[Parent(idx)])) == ca(s[idx], s[Parent(idx)]);
      var r := Swap(s, idx, Parent(idx));
      assert Swap(MapSeq(f, s), idx, Parent(idx)) == MapSeq(f, r);
      GoodPermutation(good, s, r);
      MappedSiftUp(f, ca, cb, good, r, Parent(idx));
    }
  }

  lemma MappedWorst<A(!new), B>(f: A -> B, ca: Compare<A>, cb: Compare<B>, good: A -> bool, s: seq<A>, idx: nat)
    requires Respects(f, ca, cb, good) && AllGood(good, s) && idx < |s|
    ensures WorstOf(cb, MapSeq(f, s), idx) == WorstOf(ca, s, idx)
  {
    var l, r := idx * 2 + 1, idx * 2 + 2;
    assert l < |s| ==> cb(f(s[l]), f(s[idx])) == ca(s[l], s[idx]);
    assert r < |s| ==> cb(f(s[r]), f(s[idx])) == ca(s[r], s[idx]) && cb(f(s[r]), f(s[l])) == ca(s[r], s[l]);
  }

  lemma {:induction false} MappedSiftDown<A(!new), B>(f: A -> B, ca: Compare<A>, cb: Compare<B>, good: A -> bool, s: seq<A>, idx: nat)
    requires Respects(f, ca, cb, good) && AllGood(good, s) && idx < |s|
    ensures SiftedDown(cb, MapSeq(f, s), idx) == MapSeq(f, SiftedDown(ca, s, idx))
    decreases |s| - idx
  {
    MappedWorst(f, ca, cb, good, s, idx);
    var w := WorstOf(ca, s, idx);
    if w != idx {
      var r := Swap(s, idx, w);
      assert Swap(MapSeq(f, s), idx, w) == MapSeq(f, r);
      GoodPermutation(good, s, r);
      hide WorstOf;
      MappedSiftDown(f, ca, cb, good, r, w);
    }
  }

  lemma {:induction false} KeptGood<C>(compare: Compare<C>, good: C -> bool, window: nat, stream: seq<C>)
    requires AllGood(good, stream)
    ensures AllGood(good, Kept(compare, window, stream))
    decreases |stream|
  {
    hide Pushed;
    if stream != [] {
      var k := |stream| - 1;
      KeptGood(compare, good, window, stream[..k]);
      PushGood(compare, good, window, Kept(compare, window, stream[..k]), stream[k]);
    }
  }

  lemma PushGood<C>(compare: Compare<C>, good: C -> bool, window: nat, s: seq<C>, c: C)
    requires AllGood(good, s) && good(c)
    ensures AllGood(good, Pushed(compare, window, s, c))
  {
    hide SiftedUp, SiftedDown;
    if window > 0 && |s| < window {
      GoodPermutation(good, s + [c], SiftedUp(compare, s + [c], |s|));
    } else if window > 0 && compare(c, s[0]) == Less {
      GoodPermutation(good, s[0 := c], SiftedDown(compare, s[0 := c], 0));
    }
  }

  lemma MappedPush<A(!new), B>(f: A -> B, ca: Compare<A>, cb: Compare<B>, good: A -> bool, window: nat, s: seq<A>, c: A)
    requires Respects(f, ca, cb, good) && AllGood(good, s) && good(c)
    ensures Pushed(cb, window, MapSeq(f, s), f(c)) == MapSeq(f, Pushed(ca, window, s, c))
  {
    hide SiftedUp, SiftedDown;
    if window > 0 && |s| < window {
      MappedSiftUp(f, ca, cb, good, s + [c], |s|);
      assert MapSeq(f, s) + [f(c)] == MapSeq(f, s + [c]);
    } else if window > 0 {
      assert cb(f(c), f(s[0])) == ca(c, s[0]);
      MappedSiftDown(f, ca, cb, good, s[0 := c], 0);
      assert MapSeq(f, s)[0 := f(c)] == MapSeq(f, s[0 := c]);
    }
  }

  lemma {:induction false} MappedKept<A(!new), B>(f: A -> B, ca: Compare<A>, cb: Compare<B>, good: A -> bool, window: nat, stream: seq<A>)
    requires Respects(f, ca, cb, good) && AllGood(good, stream)
    ensures Kept(cb, window, MapSeq(f, stream)) == MapSeq(f, Kept(ca, window, stream))
    decreases |stream|
  {
    hide Pushed, Respects;
    if stream != [] {
      var k := |stream| - 1;
      MappedKept(f, ca, cb, good, window, stream[..k]);
      KeptGood(ca, good, window, stream[..k]);
      MappedPush(f, ca, cb, good, window, Kept(ca, window, stream[..k]), stream[k]);
      assert MapSeq(f, stream)[..k] == MapSeq(f, stream[..k]);
    }
  }

  lemma MapCons<A, B>(f: A -> B, x: A, s: seq<A>)
    ensures MapSeq(f, [x] + s) == [f(x)] + MapSeq(f, s)
  {
  }

  lemma {:induction false} MappedInsert<A(!new), B>(f: A -> B, ca: Compare<A>, cb: Compare<B>, good: A -> bool, c: A, s: seq<A>)
    requires Respects(f, ca, cb, good) && AllGood(good, s) && good(c)
    ensures InsertBy(cb, f(c), MapSeq(f, s)) == MapSeq(f, InsertBy(ca, c, s))
    decreases |s|
  {
    if s != [] {
      assert cb(f(c), f(s[0])) == ca(c, s[0]);
      MapTail(f, s);
      MapCons(f, c, s);
      MapCons(f, s[0], InsertBy(ca, c, s[1..]));
      hide MapSeq, Respects;
      MappedInsert(f, ca, cb, good, c, s[1..]);
    } else {
      assert MapSeq(f, [c] + s) == [f(c)] + MapSeq(f, s);
    }
  }

  lemma {:induction false} MappedSort<A(!new), B>(f: A -> B, ca: Compare<A>, cb: Compare<B>, good: A -> bool, s: seq<A>)
    requires Respects(f, ca, cb, good) && AllGood(good, s)
    ensures SortBy(cb, MapSeq(f, s)) == MapSeq(f, SortBy(ca, s))
    decreases |s|
  {
    if s != [] {
      hide InsertBy, Respects, SortBy, MapSeq;
      var rest := SortBy(ca, s[1..]);
      MappedSort(f, ca, cb, good, s[1..]);
      GoodPermutation(good, s[1..], rest);
      MappedInsert(f, ca, cb, good, s[0], rest);
      SortStep(ca, s);
      MapTail(f, s);
      SortStep(cb, MapSeq(f, s));
    }
  }

  lemma SortStep<C>(compare: Compare<C>, s: seq<C>)
    requires s != []
    ensures SortBy(compare, s) == InsertBy(compare, s[0], SortBy(compare, s[1..]))
  {
  }

  lemma MapTail<A, B>(f: A -> B, s: seq<A>)
    requires s != []
    ensures MapSeq(f, s)[0] == f(s[0]) && MapSeq(f, s)[1..] == MapSeq(f, s[1..])
  {
  }

  /** Scans whose candidates compare alike return corresponding pages, ties included. */
  lemma MappedTopN<A(!new), B>(f: A -> B, ca: Compare<A>, cb: Compare<B>, good: A -> bool, window: nat, stream: seq<A>, skip: nat, fetch: nat)
    requires Respects(f, ca, cb, good) && AllGood(good, stream)
    ensures Page(SortBy(cb, Kept(cb, window, MapSeq(f, stream))), skip, fetch)
      == MapSeq(f, Page(SortBy(ca, Kept(ca, window, stream)), skip, fetch))
  {
    MappedKept(f, ca, cb, good, window, stream);
    KeptGood(ca, good, window, stream);
    MappedSort(f, ca, cb, good, Kept(ca, window, stream));
    hide SortBy, Kept, Respects, AllGood;
    MappedPage(f, SortBy(ca, Kept(ca, window, stream)), skip, fetch);
  }

  lemma MappedPage<A, B>(f: A -> B, s: seq<A>, skip: nat, fetch: nat)
    ensures Page(MapSeq(f, s), skip, fetch) == MapSeq(f, Page(s, skip, fetch))
  {
  }
}
