/** Byte strings as the storage layer sees them: their order, and big-endian numbers inside them. */
module Bytes {

  type byte = b: int | 0 <= b < 256
  type bytes = seq<byte>

  type u32 = n: int | 0 <= n < 0x1_0000_0000
  type u64 = n: int | 0 <= n < 0x1_0000_0000_0000_0000
  type i16 = n: int | -0x8000 <= n < 0x8000
  type i32 = n: int | -0x8000_0000 <= n < 0x8000_0000
  type i64 = n: int | -0x8000_0000_0000_0000 <= n < 0x8000_0000_0000_0000

  // ---------------------------------------------------------------------------------------------
  // Order: `Vec<u8>` compares lexicographically, a proper prefix being smaller.

  predicate Lt(a: bytes, b: bytes)
    decreases |a|
  {
    b != [] && (a == [] || a[0] < b[0] || (a[0] == b[0] && Lt(a[1..], b[1..])))
  }

  predicate Le(a: bytes, b: bytes) {
    !Lt(b, a)
  }

  predicate StartsWith(s: bytes, p: bytes) {
    |p| <= |s| && s[..|p|] == p
  }

  lemma LtIrreflexive(a: bytes)
    ensures !Lt(a, a)
  {
    if a != [] {
      LtIrreflexive(a[1..]);
    }
  }

  lemma {:induction false} LtTransitive(a: bytes, b: bytes, c: bytes)
    requires Lt(a, b) && Lt(b, c)
    ensures Lt(a, c)
    decreases |a|
  {
    if a != [] && a[0] == b[0] == c[0] {
      LtTransitive(a[1..], b[1..], c[1..]);
    }
  }

  lemma {:induction false} LtTotal(a: bytes, b: bytes)
    ensures Lt(a, b) || a == b || Lt(b, a)
    ensures !(Lt(a, b) && Lt(b, a))
    decreases |a|
  {
    if a != [] && b != [] && a[0] == b[0] {
      LtTotal(a[1..], b[1..]);
      assert a == [a[0]] + a[1..] && b == [b[0]] + b[1..];
    }
  }

  /** Le is the complement of Lt, so it composes with Lt as usual. */
  lemma LeLtTransitive(a: bytes, b: bytes, c: bytes)
    ensures Le(a, b) && Lt(b, c) ==> Lt(a, c)
    ensures Lt(a, b) && Le(b, c) ==> Lt(a, c)
    ensures Le(a, b) && Le(b, c) ==> Le(a, c)
  {
    LtTotal(a, b);
    LtTotal(b, c);
    LtTotal(a, c);
    if Lt(a, b) && Lt(b, c) { LtTransitive(a, b, c); }
    if Lt(a, b) && Lt(c, a) { LtTransitive(c, a, b); }
    if Lt(b, c) && Lt(c, a) { LtTransitive(b, c, a); }
  }

  /** A common prefix does not take part in the comparison. */
  lemma {:induction false} LtCommonPrefix(p: bytes, a: bytes, b: bytes)
    ensures Lt(p + a, p + b) <==> Lt(a, b)
    decreases |p|
  {
    if p == [] {
      assert p + a == a && p + b == b;
    } else {
      assert (p + a)[1..] == p[1..] + a && (p + b)[1..] == p[1..] + b;
      LtCommonPrefix(p[1..], a, b);
    }
  }

  /** Two different strings of one length decide the order whatever follows them. */
  lemma {:induction false} LtSameLength(a: bytes, b: bytes, x: bytes, y: bytes)
    requires |a| == |b| && a != b
    ensures Lt(a + x, b + y) <==> Lt(a, b)
    decreases |a|
  {
    assert (a + x)[1..] == a[1..] + x && (b + y)[1..] == b[1..] + y;
    if a[0] == b[0] {
      assert a == [a[0]] + a[1..] && b == [b[0]] + b[1..];
      LtSameLength(a[1..], b[1..], x, y);
    }
  }

  /** Appending a zero byte gives the immediate successor of a byte string. */
  lemma {:induction false} ZeroByteIsSuccessor(a: bytes, x: bytes)
    ensures Lt(x, a + [0]) <==> Le(x, a)
    decreases |a|
  {
    if a == [] {
      assert a + [0] == [0];
      assert x != [] ==> !Lt(x[1..], []);
    } else {
      assert (a + [0])[1..] == a[1..] + [0];
      if x != [] && x[0] == a[0] {
        ZeroByteIsSuccessor(a[1..], x[1..]);
      }
    }
  }

  // ---------------------------------------------------------------------------------------------
  // Big-endian numbers.

  function Pow256(w: nat): nat {
    if w == 0 then 1 else 256 * Pow256(w - 1)
  }

  lemma Pow256Values()
    ensures Pow256(1) == 0x100 && Pow256(2) == 0x1_0000 && Pow256(4) == 0x1_0000_0000
    ensures Pow256(8) == 0x1_0000_0000_0000_0000
  {
    assert Pow256(4) == 256 * 256 * Pow256(2);
    assert Pow256(6) == 256 * 256 * Pow256(4);
    assert Pow256(8) == 256 * 256 * Pow256(6);
  }

  /** The low `w` bytes of `n`, most significant first: a cast to `w` bytes and `to_be_bytes`. */
  function Be(n: nat, w: nat): (r: bytes)
    ensures |r| == w
    decreases w, n  // keeps the verifier from unrolling literal widths
  {
    if w == 0 then [] else Be(n / 256, w - 1) + [n % 256]
  }

  function FromBe(b: bytes): (n: nat)
    ensures n < Pow256(|b|)
  {
    if b == [] then 0 else FromBe(b[..|b| - 1]) * 256 + b[|b| - 1]
  }

  lemma {:induction false} FromBeOfBe(n: nat, w: nat)
    requires n < Pow256(w)
    ensures FromBe(Be(n, w)) == n
    decreases w, n
  {
    if w > 0 {
      FromBeOfBe(n / 256, w - 1);
      assert Be(n, w)[..w - 1] == Be(n / 256, w - 1);
    }
  }

  lemma {:induction false} BeOfFromBe(b: bytes)
    ensures Be(FromBe(b), |b|) == b
    decreases |b|
  {
    if b != [] {
      var front := b[..|b| - 1];
      BeOfFromBe(front);
      assert FromBe(b) / 256 == FromBe(front) && FromBe(b) % 256 == b[|b| - 1];
      assert b == front + [b[|b| - 1]];
    }
  }

  /** Same-width big-endian numbers sort as byte strings the way they sort as numbers. */
  lemma {:induction false} BeOrder(a: bytes, b: bytes)
    requires |a| == |b|
    ensures Lt(a, b) <==> FromBe(a) < FromBe(b)
    decreases |a|
  {
    if a != [] {
      var fa, fb := a[..|a| - 1], b[..|b| - 1];
      var la, lb := a[|a| - 1], b[|b| - 1];
      assert a == fa + [la] && b == fb + [lb];
      BeOrder(fa, fb);
      BeOfFromBe(fa);
      BeOfFromBe(fb);
      if fa == fb {
        LtCommonPrefix(fa, [la], [lb]);
        assert [la][1..] == [] && [lb][1..] == [];
      } else {
        LtSameLength(fa, fb, [la], [lb]);
      }
    } else {
      assert b == [];
    }
  }

  lemma BeNumberOrder(m: nat, n: nat, w: nat)
    requires m < Pow256(w) && n < Pow256(w)
    ensures Lt(Be(m, w), Be(n, w)) <==> m < n
    ensures Be(m, w) == Be(n, w) <==> m == n
  {
    FromBeOfBe(m, w);
    FromBeOfBe(n, w);
    BeOrder(Be(m, w), Be(n, w));
  }

  // ---------------------------------------------------------------------------------------------
  // Two's complement, and the sign flip that key encodings apply.

  /** `v as uN` for an N-bit signed `v`, N being 8 * w. */
  function ToUnsigned(v: int, w: nat): (u: int) {
    if v < 0 then v + Pow256(w) else v
  }

  /** `u as iN` for an N-bit unsigned `u`. */
  function FromUnsigned(u: nat, w: nat): (v: int) {
    if 2 * u >= Pow256(w) then u - Pow256(w) else u
  }

  predicate InSigned(v: int, w: nat) {
    -1 * Pow256(w) as int <= 2 * v < Pow256(w)
  }

  /** Exclusive-or with the top bit of a `w`-byte number. */
  function FlipTop(u: nat, w: nat): (r: nat)
    requires w > 0 && u < Pow256(w)
    ensures r < Pow256(w)
  {
    var half := 128 * Pow256(w - 1);
    if u >= half then u - half else u + half
  }

  lemma FlipTopInvolution(u: nat, w: nat)
    requires w > 0 && u < Pow256(w)
    ensures FlipTop(FlipTop(u, w), w) == u
  {
  }

  lemma SignedRoundTrip(v: int, w: nat)
    requires w > 0 && InSigned(v, w)
    ensures 0 <= ToUnsigned(v, w) < Pow256(w)
    ensures FromUnsigned(ToUnsigned(v, w), w) == v
    ensures FlipTop(ToUnsigned(v, w), w) == v + 128 * Pow256(w - 1)
  {
    assert Pow256(w) == 2 * (128 * Pow256(w - 1));
  }

  // ---------------------------------------------------------------------------------------------
  // Regions of a byte string.

  /** `s` lies inside `b`, starting at `pos`. */
  predicate At(b: bytes, pos: nat, s: bytes) {
    pos + |s| <= |b| && b[pos..pos + |s|] == s
  }

  lemma AtConcat(b: bytes, pos: nat, s: bytes, t: bytes)
    ensures At(b, pos, s + t) <==> At(b, pos, s) && At(b, pos + |s|, t)
  {
    if pos + |s| + |t| <= |b| {
      var r := b[pos..pos + |s + t|];
      assert r[..|s|] == b[pos..pos + |s|] && r[|s|..] == b[pos + |s|..pos + |s| + |t|];
      if At(b, pos, s) && At(b, pos + |s|, t) {
        assert r == r[..|s|] + r[|s|..];
      }
      if At(b, pos, s + t) {
        assert (s + t)[..|s|] == s && (s + t)[|s|..] == t;
      }
    }
  }
}
