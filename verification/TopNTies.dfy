/** Bounded top-N where candidates may tie: position by position the page ties with the page of the full sort. */
module TopNTies {
  import opened Basics
  import opened TopNHeap

  // ---------------------------------------------------------------------------------------------
  // Counting.

  function Count<C>(p: C -> bool, s: seq<C>): (n: nat)
    ensures n <= |s|
  {
    if s == [] then 0 else (if p(s[0]) then 1 else 0) + Count(p, s[1..])
  }

  lemma {:induction false} CountConcat<C>(p: C -> bool, a: seq<C>, b: seq<C>)
    ensures Count(p, a + b) == Count(p, a) + Count(p, b)
    decreases |a|
  {
    if a == [] {
      assert a + b == b;
    } else {
      assert (a + b)[1..] == a[1..] + b;
      CountConcat(p, a[1..], b);
    }
  }

  /** The first element of `a` taken out of a permutation `b` of it. */
  lemma TakeOut<C>(a: seq<C>, b: seq<C>) returns (j: nat)
    requires a != [] && multiset(a) == multiset(b)
    ensures j < |b| && b[j] == a[0] && b == b[..j] + [a[0]] + b[j + 1..] && multiset(a[1..]) == multiset(b[..j] + b[j + 1..])
  {
    assert a[0] in multiset(b);
    j :| 0 <= j < |b| && b[j] == a[0];
    Without(b, j);
    Without(a, 0);
    assert a[..0] + a[1..] == a[1..];
  }

  lemma Without<C>(s: seq<C>, j: nat)
    requires j < |s|
    ensures s == s[..j] + [s[j]] + s[j + 1..] && multiset(s[..j] + s[j + 1..]) == multiset(s) - multiset{s[j]}
  {
    assert s == s[..j] + [s[j]] + s[j + 1..];
    assert multiset(s[..j] + [s[j]] + s[j + 1..]) == multiset(s[..j]) + multiset{s[j]} + multiset(s[j + 1..]);
  }

  lemma {:induction false} CountPermutation<C>(p: C -> bool, a: seq<C>, b: seq<C>)
    requires multiset(a) == multiset(b)
    ensures Count(p, a) == Count(p, b)
    decreases |a|
  {
    if a == [] {
      assert |multiset(b)| == |b|;
    } else {
      var j := TakeOut(a, b);
      CountPermutation(p, a[1..], b[..j] + b[j + 1..]);
      CountConcat(p, b[..j], b[j + 1..]);
      CountConcat(p, b[..j] + [a[0]], b[j + 1..]);
      CountConcat(p, b[..j], [a[0]]);
    }
  }

  predicate AllOf<C>(p: C -> bool, s: seq<C>) {
    forall i :: 0 <= i < |s| ==> p(s[i])
  }

  predicate NoneOf<C>(p: C -> bool, s: seq<C>) {
    forall i :: 0 <= i < |s| ==> !p(s[i])
  }

  lemma {:induction false} CountAll<C>(p: C -> bool, s: seq<C>)
    ensures AllOf(p, s) ==> Count(p, s) == |s|
    ensures NoneOf(p, s) ==> Count(p, s) == 0
    decreases |s|
  {
    if s != [] {
      CountAll(p, s[1..]);
    }
  }

  // ---------------------------------------------------------------------------------------------
  // Two sorted arrangements of one stream.

  /** Position by position, the candidates compare as equal. */
  ghost predicate Ties<C>(compare: Compare<C>, a: seq<C>, b: seq<C>) {
    |a| == |b| && forall i :: 0 <= i < |a| ==> compare(a[i], b[i]) == Equal
  }

  lemma NotBefore<C(!new)>(compare: Compare<C>, good: C -> bool, a: seq<C>, b: seq<C>, i: nat)
    requires TotalPreorder(compare, good) && AllGood(good, a) && AllGood(good, b)
    requires SortedBy(compare, a) && SortedBy(compare, b) && multiset(a) == multiset(b) && i < |a| == |b|
    ensures compare(a[i], b[i]) != Less
  {
    hide Count;
    if compare(a[i], b[i]) == Less {
      var c, front, back := a[i], a[..i + 1], b[i..];
      var p := x => compare(x, c) != Greater;
      CountPermutation(p, a, b);
      assert a == front + a[i + 1..] && b == b[..i] + back;
      CountConcat(p, front, a[i + 1..]);
      CountConcat(p, b[..i], back);
      assert AllOf(p, front) by { assert compare(c, c) == compare(c, c).Reverse(); }
      assert NoneOf(p, back) by {
        forall k | 0 <= k < |back| ensures !p(back[k]) {
          AfterIsAfter(compare, good, c, b[i], back[k]);
        }
      }
      CountAll(p, front);
      CountAll(p, back);
    }
  }

  lemma AfterIsAfter<C(!new)>(compare: Compare<C>, good: C -> bool, c: C, x: C, y: C)
    requires TotalPreorder(compare, good) && good(c) && good(x) && good(y)
    requires compare(c, x) == Less && (x == y || compare(x, y) != Greater)
    ensures compare(y, c) == Greater
  {
    assert compare(y, c) == compare(c, y).Reverse() && compare(x, c) == compare(c, x).Reverse();
  }

  /** Any two sorted arrangements of a stream tie position by position. */
  lemma SortedTies<C(!new)>(compare: Compare<C>, good: C -> bool, a: seq<C>, b: seq<C>)
    requires TotalPreorder(compare, good) && AllGood(good, a) && AllGood(good, b)
    requires SortedBy(compare, a) && SortedBy(compare, b) && multiset(a) == multiset(b)
    ensures Ties(compare, a, b)
  {
    assert |a| == |multiset(a)| == |multiset(b)| == |b|;
    forall i | 0 <= i < |a| ensures compare(a[i], b[i]) == Equal {
      NotBefore(compare, good, a, b, i);
      NotBefore(compare, good, b, a, i);
      assert compare(a[i], b[i]) == compare(b[i], a[i]).Reverse();
    }
  }

  lemma PagesTie<C>(compare: Compare<C>, a: seq<C>, b: seq<C>, skip: nat, fetch: nat)
    requires Ties(compare, a, b)
    ensures Ties(compare, Page(a, skip, fetch), Page(b, skip, fetch))
  {
  }

  /** The page and what it leaves out. */
  lemma PageParts<C>(s: seq<C>, skip: nat, fetch: nat) returns (rest: seq<C>)
    ensures multiset(Page(s, skip, fetch) + rest) == multiset(s)
  {
    if skip >= |s| {
      rest := s;
    } else if fetch < |s| - skip {
      rest := s[..skip] + s[skip + fetch..];
      assert s == s[..skip] + s[skip..] && s[skip..] == s[skip..][..fetch] + s[skip + fetch..];
    } else {
      rest := s[..skip];
      assert s == s[..skip] + s[skip..];
    }
  }

  /** `part` can be completed to a permutation of `whole`. */
  ghost predicate DrawnFrom<C(!new)>(part: seq<C>, whole: seq<C>) {
    exists rest :: multiset(part + rest) == multiset(whole)
  }

  lemma KeptThenDiscarded<C(!new)>(compare: Compare<C>, good: C -> bool, window: nat, stream: seq<C>, kept: seq<C>, discarded: seq<C>)
    requires TotalPreorder(compare, good) && AllGood(good, kept) && AllGood(good, discarded) && Best(compare, window, stream, kept, discarded)
    ensures var all := SortBy(compare, kept) + SortBy(compare, discarded);
      SortedBy(compare, all) && AllGood(good, all) && multiset(all) == multiset(stream)
  {
    var k, d := SortBy(compare, kept), SortBy(compare, discarded);
    SortIsSorted(compare, good, kept);
    SortIsSorted(compare, good, discarded);
    forall i, j | 0 <= i < |k| && 0 <= j < |d| ensures compare(k[i], d[j]) != Greater {
      assert k[i] in multiset(kept) && d[j] in multiset(discarded);
    }
  }

  lemma PageOfFront<C(!new)>(compare: Compare<C>, k: seq<C>, d: seq<C>, all: seq<C>, stream: seq<C>, skip: nat, fetch: nat)
    requires Ties(compare, k + d, all) && multiset(k + d) == multiset(stream) && (d == [] || skip + fetch <= |k|)
    ensures Ties(compare, Page(k, skip, fetch), Page(all, skip, fetch)) && DrawnFrom(Page(k, skip, fetch), stream)
  {
    hide Ties, Page;
    PagesTie(compare, k + d, all, skip, fetch);
    PageOfPrefix(k, d, skip, fetch);
    var rest := PageParts(k, skip, fetch);
    assert multiset(Page(k, skip, fetch) + (rest + d)) == multiset(stream);
  }

  /**
   * Bounded top-N up to ties: for every stream, ties or not, the page of the sorted kept candidates is drawn from the
   * stream and ties position by position with the page of the sorted stream.
   */
  lemma TopNUpToTies<C(!new)>(compare: Compare<C>, good: C -> bool, window: nat, stream: seq<C>, skip: nat, fetch: nat)
    requires TotalPreorder(compare, good) && AllGood(good, stream)
    requires skip + fetch <= window || |stream| <= window
    ensures var page := Page(SortBy(compare, Kept(compare, window, stream)), skip, fetch);
      Ties(compare, page, Page(SortBy(compare, stream), skip, fetch)) && DrawnFrom(page, stream)
  {
    hide Kept, Discarded, Page, SortBy, DrawnFrom;
    KeptBest(compare, good, window, stream);
    var kept, discarded := Kept(compare, window, stream), Discarded(compare, window, stream);
    assert |multiset(stream)| == |multiset(kept)| + |multiset(discarded)|;
    KeptThenDiscarded(compare, good, window, stream, kept, discarded);
    SortIsSorted(compare, good, stream);
    hide TotalPreorder, AllGood, SortedBy, Best;
    var k, d := SortBy(compare, kept), SortBy(compare, discarded);
    SortedTies(compare, good, k + d, SortBy(compare, stream));
    PageOfFront(compare, k, d, SortBy(compare, stream), stream, skip, fetch);
  }
}
