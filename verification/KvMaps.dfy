/** Key/value maps as scans see them: overlays of pending writes, ranges, and listings in key order. */
module KvMaps {
  import opened Basics
  import opened Bytes

  type Store = map<bytes, bytes>

  /** Pending writes: a value to put, or None to delete. */
  type Pending = map<bytes, Option<bytes>>

  type Entry = (bytes, bytes)

  /** What a read of `k` gives: the pending write if there is one, else the base value. */
  function Lookup(base: Store, pending: Pending, k: bytes): Option<bytes> {
    if k in pending then pending[k] else if k in base then Some(base[k]) else None
  }

  /** The base with all pending writes done. */
  function Overlay(base: Store, pending: Pending): (r: Store)
    ensures forall k :: k in r <==> Lookup(base, pending, k).Some?
    ensures forall k :: k in r ==> Lookup(base, pending, k) == Some(r[k])
  {
    map k | k in base.Keys + pending.Keys && Lookup(base, pending, k).Some? :: Lookup(base, pending, k).value
  }

  datatype KeyRange = KeyRange(start: bytes, end: Option<bytes>)

  predicate Within(k: bytes, range: KeyRange) {
    Le(range.start, k) && (range.end.Some? ==> Lt(k, range.end.value))
  }

  function InRange<V>(m: map<bytes, V>, range: KeyRange): (r: map<bytes, V>)
    ensures forall k :: k in r <==> k in m && Within(k, range)
    ensures forall k :: k in r ==> r[k] == m[k]
  {
    map k | k in m && Within(k, range) :: m[k]
  }

  /** Overlaying inside a range is cutting the overlaid view. */
  lemma OverlayInRange(base: Store, pending: Pending, range: KeyRange)
    ensures Overlay(InRange(base, range), InRange(pending, range)) == InRange(Overlay(base, pending), range)
  {
    hide Within;
    var a, b := Overlay(InRange(base, range), InRange(pending, range)), InRange(Overlay(base, pending), range);
    forall k ensures Within(k, range) ==> Lookup(InRange(base, range), InRange(pending, range), k) == Lookup(base, pending, k) {
    }
    assert a.Keys == b.Keys;
  }

  // ---------------------------------------------------------------------------------------------
  // Listings in key order.

  predicate Before(a: bytes, b: bytes, reverse: bool) {
    if reverse then Lt(b, a) else Lt(a, b)
  }

  ghost predicate Ordered(s: seq<Entry>, reverse: bool) {
    forall i, j :: 0 <= i < j < |s| ==> Before(s[i].0, s[j].0, reverse)
  }

  /** `s` lists exactly the entries of `m`, in order. */
  ghost predicate Lists(s: seq<Entry>, m: Store, reverse: bool) {
    && Ordered(s, reverse)
    && (forall i :: 0 <= i < |s| ==> s[i].0 in m && m[s[i].0] == s[i].1)
    && forall k :: k in m ==> (k, m[k]) in s
  }

  predicate IsFirst(k: bytes, keys: set<bytes>, reverse: bool) {
    k in keys && forall j :: j in keys && j != k ==> Before(k, j, reverse)
  }

  /** The first key in order. */
  method FirstKey(keys: set<bytes>, reverse: bool) returns (first: bytes)
    requires keys != {}
    ensures IsFirst(first, keys, reverse)
  {
    first :| first in keys;
    var rest := keys - {first};
    while rest != {}
      invariant rest <= keys && first in keys && first !in rest
      invariant forall j :: j in keys && j !in rest && j != first ==> Before(first, j, reverse)
      decreases |rest|
    {
      var k :| k in rest;
      LtTotal(k, first);
      if Before(k, first, reverse) {
        forall j | j in keys && j !in rest && j != first ensures Before(k, j, reverse) {
          LtTransitive(if reverse then j else k, first, if reverse then k else j);
        }
        first := k;
      }
      rest := rest - {k};
    }
  }

  /** `into_iter` of a `BTreeMap`, forwards or `rev()`. */
  method ListEntries(m: Store, reverse: bool) returns (s: seq<Entry>)
    ensures Lists(s, m, reverse)
  {
    s := [];
    var keys := m.Keys;
    while keys != {}
      invariant keys <= m.Keys && Ordered(s, reverse)
      invariant forall i :: 0 <= i < |s| ==> s[i].0 in m && m[s[i].0] == s[i].1 && s[i].0 !in keys
      invariant forall i, k :: 0 <= i < |s| && k in keys ==> Before(s[i].0, k, reverse)
      invariant forall k :: k in m && k !in keys ==> (k, m[k]) in s
      decreases |keys|
    {
      hide Before;
      var first := FirstKey(keys, reverse);
      s := s + [(first, m[first])];
      keys := keys - {first};
    }
  }

  lemma BeforeStrict(a: bytes, b: bytes, reverse: bool)
    ensures Before(a, b, reverse) ==> !Before(b, a, reverse) && a != b
  {
    LtTotal(a, b);
    LtIrreflexive(a);
  }

  lemma EmptyListing(s: seq<Entry>, m: Store, reverse: bool)
    requires Lists(s, m, reverse)
    ensures s == [] <==> m.Keys == {}
  {
    if s != [] {
      assert s[0].0 in m.Keys;
    }
  }

  lemma {:induction false} ListingUnique(s: seq<Entry>, t: seq<Entry>, m: Store, reverse: bool)
    requires Lists(s, m, reverse) && Lists(t, m, reverse)
    ensures s == t
    decreases |s|
  {
    if s == [] || t == [] {
      EmptyListing(s, m, reverse);
      EmptyListing(t, m, reverse);
    } else {
      SameHead(s, t, m, reverse);
      var m' := m - {s[0].0};
      TailLists(s, m, reverse);
      TailLists(t, m, reverse);
      ListingUnique(s[1..], t[1..], m', reverse);
      assert s == [s[0]] + s[1..] && t == [t[0]] + t[1..];
    }
  }

  lemma SameHead(s: seq<Entry>, t: seq<Entry>, m: Store, reverse: bool)
    requires Lists(s, m, reverse) && Lists(t, m, reverse) && s != [] && t != []
    ensures s[0] == t[0]
  {
    var x, y := s[0].0, t[0].0;
    assert (y, m[y]) in s && (x, m[x]) in t;
    var i :| 0 <= i < |s| && s[i] == (y, m[y]);
    var j :| 0 <= j < |t| && t[j] == (x, m[x]);
    BeforeStrict(x, y, reverse);
    BeforeStrict(y, x, reverse);
    assert i > 0 ==> Before(s[0].0, s[i].0, reverse);
    assert j > 0 ==> Before(t[0].0, t[j].0, reverse);
  }

  lemma TailLists(s: seq<Entry>, m: Store, reverse: bool)
    requires Lists(s, m, reverse) && s != []
    ensures Lists(s[1..], m - {s[0].0}, reverse)
  {
    hide Before;
    var m' := m - {s[0].0};
    forall i | 1 <= i < |s| ensures s[i].0 != s[0].0 {
      BeforeStrict(s[0].0, s[i].0, reverse);
      assert Before(s[0].0, s[i].0, reverse);
    }
    forall k | k in m' ensures (k, m'[k]) in s[1..] {
      assert (k, m[k]) in s;
      var i :| 0 <= i < |s| && s[i] == (k, m[k]);
      assert s[1..][i - 1] == s[i];
    }
  }

  // ---------------------------------------------------------------------------------------------
  // Cutting and filtering listings.

  function Take<T>(s: seq<T>, limit: Option<nat>): seq<T> {
    if limit.Some? && limit.value < |s| then s[..limit.value] else s
  }

  function FilterEntries(s: seq<Entry>, keys: set<bytes>): seq<Entry> {
    if s == [] then []
    else
      var rest := FilterEntries(s[1..], keys);
      if s[0].0 in keys then [s[0]] + rest else rest
  }

  lemma {:induction false} FilterMembers(s: seq<Entry>, keys: set<bytes>)
    ensures forall e :: e in FilterEntries(s, keys) <==> e in s && e.0 in keys
    decreases |s|
  {
    if s != [] {
      FilterMembers(s[1..], keys);
      assert s == [s[0]] + s[1..];
    }
  }

  lemma {:induction false} FilterOrdered(s: seq<Entry>, keys: set<bytes>, reverse: bool)
    requires Ordered(s, reverse)
    ensures Ordered(FilterEntries(s, keys), reverse)
    decreases |s|
  {
    hide Before;
    if s != [] {
      FilterOrdered(s[1..], keys, reverse);
      var rest := FilterEntries(s[1..], keys);
      forall i | 0 <= i < |rest| ensures Before(s[0].0, rest[i].0, reverse) {
        FilterMembers(s[1..], keys);
        assert rest[i] in s[1..];
        var j :| 0 <= j < |s[1..]| && s[1..][j] == rest[i];
        assert s[j + 1] == rest[i];
      }
    }
  }

  /** Listing a sub-map is filtering the listing. */
  lemma FilteredListing(s: seq<Entry>, m: Store, part: Store, reverse: bool)
    requires Lists(s, m, reverse) && part.Keys <= m.Keys && forall k :: k in part ==> part[k] == m[k]
    ensures Lists(FilterEntries(s, part.Keys), part, reverse)
  {
    hide Before, Ordered;
    FilterOrdered(s, part.Keys, reverse);
    FilterMembers(s, part.Keys);
    var f := FilterEntries(s, part.Keys);
    forall i | 0 <= i < |f| ensures f[i].0 in part && part[f[i].0] == f[i].1 {
      assert f[i] in f;
      var j :| 0 <= j < |s| && s[j] == f[i];
    }
  }

  /** Taking from the filtered listing is taking from the listing exactly when the filter keeps all that is taken. */
  lemma {:induction false} TakeOfFilter(s: seq<Entry>, keys: set<bytes>, n: nat)
    ensures Take(FilterEntries(s, keys), Some(n)) == Take(s, Some(n)) <==> forall i :: 0 <= i < n && i < |s| ==> s[i].0 in keys
    decreases |s|
  {
    if s != [] && n > 0 {
      TakeOfFilter(s[1..], keys, n - 1);
      var rest := FilterEntries(s[1..], keys);
      assert Take(s, Some(n)) == [s[0]] + Take(s[1..], Some(n - 1)) by { TakeCons(s[0], s[1..], n); assert s == [s[0]] + s[1..]; }
      if s[0].0 in keys {
        TakeCons(s[0], rest, n);
        assert (forall i :: 0 <= i < n && i < |s| ==> s[i].0 in keys) <==> forall i :: 0 <= i < n - 1 && i < |s[1..]| ==> s[1..][i].0 in keys by {
          forall i | 0 < i < |s| ensures s[i] == s[1..][i - 1] { }
        }
        ConsInjective(s[0], Take(rest, Some(n - 1)), Take(s[1..], Some(n - 1)));
      } else {
        FilterMembers(s[1..], keys);
        assert s[0] !in rest && Take(s, Some(n))[0] == s[0];
        assert Take(rest, Some(n)) != [] ==> Take(rest, Some(n))[0] in rest;
      }
    }
  }

  lemma TakeCons<T>(x: T, rest: seq<T>, n: nat)
    requires n > 0
    ensures Take([x] + rest, Some(n)) == [x] + Take(rest, Some(n - 1))
  {
  }

  lemma ConsInjective<T>(x: T, a: seq<T>, b: seq<T>)
    ensures [x] + a == [x] + b <==> a == b
  {
    assert ([x] + a)[1..] == a && ([x] + b)[1..] == b;
  }

  function KeysOf(s: seq<Entry>): (r: set<bytes>)
    ensures forall k {:trigger k in r} :: k in r <==> exists i :: 0 <= i < |s| && s[i].0 == k
  {
    set i | 0 <= i < |s| :: s[i].0
  }

  lemma KeysOfStep(s: seq<Entry>)
    requires s != []
    ensures KeysOf(s) == KeysOf(s[..|s| - 1]) + {s[|s| - 1].0}
  {
    var k := |s| - 1;
    forall x | x in KeysOf(s[..k]) ensures x in KeysOf(s) {
      var i :| 0 <= i < k && s[..k][i].0 == x;
      assert s[i].0 == x;
    }
    forall x | x in KeysOf(s) && x != s[k].0 ensures x in KeysOf(s[..k]) {
      var i :| 0 <= i < |s| && s[i].0 == x;
      assert s[..k][i].0 == x;
    }
  }

  lemma {:induction false} KeyCount(s: seq<Entry>, reverse: bool)
    ensures |KeysOf(s)| <= |s|
    ensures Ordered(s, reverse) ==> |KeysOf(s)| == |s|
    decreases |s|
  {
    hide Before;
    if s != [] {
      var k := |s| - 1;
      KeyCount(s[..k], reverse);
      KeysOfStep(s);
      if Ordered(s, reverse) {
        LastIsNew(s, reverse);
      }
    } else {
      assert KeysOf(s) == {};
    }
  }

  lemma LastIsNew(s: seq<Entry>, reverse: bool)
    requires s != [] && Ordered(s, reverse)
    ensures s[|s| - 1].0 !in KeysOf(s[..|s| - 1])
  {
    hide Before;
    var k := |s| - 1;
    forall i | 0 <= i < k ensures s[..k][i].0 != s[k].0 {
      BeforeStrict(s[i].0, s[k].0, reverse);
      assert Before(s[i].0, s[k].0, reverse);
    }
  }
}
