/** Fixed-width integers, little-endian and big-endian. */
module Endian {
  import opened Machine

  function Pow256(n: nat): (p: nat)
    ensures p >= 1
  {
    if n == 0 then 1 else 256 * Pow256(n - 1)
  }

  function LE(v: nat, n: nat): (b: Bytes)
    ensures |b| == n
  {
    if n == 0 then [] else [v % 256] + LE(v / 256, n - 1)
  }

  function FromLE(b: Bytes): (v: nat) {
    if b == [] then 0 else b[0] + 256 * FromLE(b[1..])
  }

  lemma {:induction false} FromLEBound(b: Bytes)
    ensures FromLE(b) < Pow256(|b|)
  {
    if b != [] {
      FromLEBound(b[1..]);
    }
  }

  /** Reading back what was written. */
  lemma {:induction false} LERoundTrip(v: nat, n: nat)
    requires v < Pow256(n)
    ensures FromLE(LE(v, n)) == v
  {
    if n > 0 {
      LERoundTrip(v / 256, n - 1);
      assert LE(v, n)[1..] == LE(v / 256, n - 1);
    }
  }

  /** Writing back what was read. */
  lemma {:induction false} LEReadBack(b: Bytes)
    ensures LE(FromLE(b), |b|) == b
  {
    if b != [] {
      LEReadBack(b[1..]);
      var v := FromLE(b);
      assert v % 256 == b[0] && v / 256 == FromLE(b[1..]);
      assert b == [b[0]] + b[1..];
    }
  }

  lemma Widths()
    ensures Pow256(1) == 0x100 && Pow256(2) == 0x1_0000
    ensures Pow256(4) == 0x1_0000_0000 && Pow256(8) == 0x1_0000_0000_0000_0000
  {
    assert Pow256(3) == 0x100_0000;
    assert Pow256(6) == 0x1_0000_0000_0000 by { assert Pow256(5) == 0x100_0000_0000; }
    assert Pow256(7) == 0x100_0000_0000_0000;
  }

  /** Big-endian: the same bytes in the opposite order. */
  function BE(v: nat, n: nat): (b: Bytes)
    ensures |b| == n
  {
    seq(n, i requires 0 <= i < n => LE(v, n)[n - 1 - i])
  }

  lemma BEInjective(v: nat, w: nat, n: nat)
    requires v < Pow256(n) && w < Pow256(n)
    ensures BE(v, n) == BE(w, n) ==> v == w
  {
    hide LE, FromLE, Pow256;
    if BE(v, n) == BE(w, n) {
      forall i | 0 <= i < n ensures LE(v, n)[i] == LE(w, n)[i] {
        assert BE(v, n)[n - 1 - i] == LE(v, n)[i] && BE(w, n)[n - 1 - i] == LE(w, n)[i];
      }
      assert LE(v, n) == LE(w, n);
      LERoundTrip(v, n);
      LERoundTrip(w, n);
    }
  }

  /** The number a byte string spells, most significant byte first. */
  function FromBE(b: Bytes): nat {
    if b == [] then 0 else 256 * FromBE(b[..|b| - 1]) + b[|b| - 1]
  }

  /** Comparing such numbers compares the byte strings. */
  lemma {:induction false} FromBEIsByteOrder(a: Bytes, b: Bytes, k: nat)
    requires |a| == |b| && k < |a| && a[..k] == b[..k] && a[k] < b[k]
    ensures FromBE(a) < FromBE(b)
  {
    var n := |a| - 1;
    if k < n {
      assert a[..n][..k] == a[..k] && b[..n][..k] == b[..k];
      FromBEIsByteOrder(a[..n], b[..n], k);
    } else {
      assert a[..n] == b[..n];
    }
  }

  lemma {:induction false} FromBEInjective(a: Bytes, b: Bytes)
    requires |a| == |b| && FromBE(a) == FromBE(b)
    ensures a == b
  {
    if a != [] {
      var n := |a| - 1;
      FromBEInjective(a[..n], b[..n]);
      assert a == a[..n] + [a[n]] && b == b[..n] + [b[n]];
    }
  }

  lemma {:induction false} BERoundTrip(v: nat, n: nat)
    requires v < Pow256(n)
    ensures FromBE(BE(v, n)) == v
  {
    if n > 0 {
      BERoundTrip(v / 256, n - 1);
      var b := BE(v, n);
      assert LE(v, n) == [v % 256] + LE(v / 256, n - 1);
      assert b[..n - 1] == BE(v / 256, n - 1);
      assert b[n - 1] == v % 256;
    }
  }
}
