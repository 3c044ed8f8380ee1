/** What a range scan lists: byte order spelled out, both directions, and the keys under a prefix. */
module ScanMeaning {
  import opened Basics
  import opened Bytes
  import Keys
  import opened KvMaps

  /** Up to some place the two agree, and there `a` ends or has the smaller byte. */
  ghost predicate Precedes(a: bytes, b: bytes) {
    exists n :: 0 <= n <= |a| && n < |b| && a[..n] == b[..n] && (n == |a| || a[n] < b[n])
  }

  lemma {:induction false} LtExactly(a: bytes, b: bytes)
    ensures Lt(a, b) <==> Precedes(a, b)
    decreases |a|
  {
    if a == [] || b == [] {
      assert a == [] && b != [] ==> a[..0] == b[..0];
    } else {
      LtExactly(a[1..], b[1..]);
      if Precedes(a, b) {
        var n :| 0 <= n <= |a| && n < |b| && a[..n] == b[..n] && (n == |a| || a[n] < b[n]);
        if n > 0 {
          assert a[0] == a[..n][0] == b[..n][0] == b[0];
          assert a[1..][..n - 1] == a[..n][1..] && b[1..][..n - 1] == b[..n][1..];
          assert Precedes(a[1..], b[1..]);
        }
      }
      if a[0] == b[0] && Precedes(a[1..], b[1..]) {
        var n :| 0 <= n <= |a[1..]| && n < |b[1..]| && a[1..][..n] == b[1..][..n] && (n == |a[1..]| || a[1..][n] < b[1..][n]);
        assert a[..n + 1] == [a[0]] + a[1..][..n] && b[..n + 1] == [b[0]] + b[1..][..n];
        assert Precedes(a, b);
      }
      if a[0] < b[0] {
        assert a[..0] == b[..0];
        assert Precedes(a, b);
      }
    }
  }

  /** A listing, spelled out: the entries of the map, each once, their keys ascending or descending as byte strings. */
  lemma ListsExactly(s: seq<Entry>, m: Store, reverse: bool)
    ensures Lists(s, m, reverse) <==>
      && (forall i, j :: 0 <= i < j < |s| ==> if reverse then Precedes(s[j].0, s[i].0) else Precedes(s[i].0, s[j].0))
      && forall k, v :: (k, v) in s <==> k in m && m[k] == v
  {
    hide Lt, Precedes;
    forall i, j | 0 <= i < j < |s|
      ensures Before(s[i].0, s[j].0, reverse) <==> if reverse then Precedes(s[j].0, s[i].0) else Precedes(s[i].0, s[j].0)
    {
      LtExactly(s[i].0, s[j].0);
      LtExactly(s[j].0, s[i].0);
    }
    hide Before;
    if forall k, v :: (k, v) in s <==> k in m && m[k] == v {
      forall i | 0 <= i < |s| ensures s[i].0 in m && m[s[i].0] == s[i].1 {
        assert (s[i].0, s[i].1) in s;
      }
    }
    if Lists(s, m, reverse) {
      forall k, v | (k, v) in s ensures k in m && m[k] == v {
        var i :| 0 <= i < |s| && s[i] == (k, v);
      }
    }
  }

  function Backwards(s: seq<Entry>): (r: seq<Entry>)
    ensures |r| == |s| && forall i :: 0 <= i < |r| ==> r[i] == s[|s| - 1 - i]
  {
    seq(|s|, i requires 0 <= i < |s| => s[|s| - 1 - i])
  }

  /** A reverse listing is the forward one backwards. */
  lemma ReverseListing(s: seq<Entry>, m: Store)
    ensures Lists(s, m, true) <==> Lists(Backwards(s), m, false)
  {
    hide Lt;
    var r := Backwards(s);
    forall i, j | 0 <= i < j < |s| ensures Before(s[i].0, s[j].0, true) <==> Before(r[|s| - 1 - j].0, r[|s| - 1 - i].0, false) {
    }
    hide Before;
    assert forall i {:trigger s[i]} :: 0 <= i < |s| ==> r[|s| - 1 - i] == s[i];
    if Ordered(s, true) {
      forall i, j | 0 <= i < j < |r| ensures Before(r[i].0, r[j].0, false) {
        assert Before(s[|s| - 1 - j].0, s[|s| - 1 - i].0, true);
      }
    }
    assert forall e :: e in r <==> e in s;
  }

  /** Scanning the range of a prefix lists exactly the keys that begin with it. */
  lemma PrefixListing(s: seq<Entry>, m: Store, p: bytes, reverse: bool)
    requires Lists(s, InRange(m, KeyRange(p, Keys.NextPrefix(p))), reverse)
    ensures forall k, v :: (k, v) in s <==> k in m && m[k] == v && p <= k
  {
    hide Before, Within, Keys.NextPrefix;
    var part := InRange(m, KeyRange(p, Keys.NextPrefix(p)));
    forall k ensures Within(k, KeyRange(p, Keys.NextPrefix(p))) <==> p <= k {
      PrefixRange(p, k);
    }
    forall k, v ensures (k, v) in s <==> k in m && m[k] == v && p <= k {
      if (k, v) in s {
        var i :| 0 <= i < |s| && s[i] == (k, v);
        assert k in part;
      }
    }
  }

  lemma PrefixRange(p: bytes, k: bytes)
    ensures Within(k, KeyRange(p, Keys.NextPrefix(p))) <==> p <= k
  {
    hide Lt, Keys.NextPrefix;
    Keys.PrefixRangeExact(p, k);
  }

  /** A limited listing: as many entries as there are up to the limit, and every key left out comes after all of them. */
  lemma LimitedListing(s: seq<Entry>, m: Store, limit: Option<nat>, reverse: bool)
    requires Lists(s, m, reverse)
    ensures var out := Take(s, limit);
      && |out| == (if limit.Some? && limit.value < |m| then limit.value else |m|)
      && (forall i :: 0 <= i < |out| ==> out[i].0 in m && m[out[i].0] == out[i].1)
      && forall i, k :: 0 <= i < |out| && k in m && (k, m[k]) !in out ==> if reverse then Precedes(k, out[i].0) else Precedes(out[i].0, k)
  {
    hide Lt, Precedes;
    var out := Take(s, limit);
    ListingLength(s, m, reverse);
    forall i, k | 0 <= i < |out| && k in m && (k, m[k]) !in out
      ensures if reverse then Precedes(k, out[i].0) else Precedes(out[i].0, k)
    {
      var j :| 0 <= j < |s| && s[j] == (k, m[k]);
      TakenFront(s, limit, j);
      assert Before(s[i].0, s[j].0, reverse);
      LtExactly(s[i].0, k);
      LtExactly(k, s[i].0);
    }
  }

  lemma TakenFront(s: seq<Entry>, limit: Option<nat>, j: nat)
    requires j < |s|
    ensures Take(s, limit) <= s && (j < |Take(s, limit)| ==> s[j] in Take(s, limit))
  {
    if j < |Take(s, limit)| {
      assert Take(s, limit)[j] == s[j];
    }
  }

  lemma ListingLength(s: seq<Entry>, m: Store, reverse: bool)
    requires Lists(s, m, reverse)
    ensures |s| == |m|
  {
    hide Before;
    KeyCount(s, reverse);
    forall k | k in m ensures k in KeysOf(s) {
      var i :| 0 <= i < |s| && s[i] == (k, m[k]);
    }
    assert KeysOf(s) == m.Keys;
  }
}
