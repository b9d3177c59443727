/** Little-endian integers as byte sequences. */
module Bytes {
  import opened Words

  type byte = b: int | 0 <= b < 256

  function Pow256(k: nat): (p: nat)
    ensures p >= 1
  {
    if k == 0 then 1 else 256 * Pow256(k - 1)
  }

  /** The `k` low bytes of `v`, least significant first. */
  function Le(v: nat, k: nat): (s: seq<byte>)
    ensures |s| == k
  {
    if k == 0 then [] else [v % 256] + Le(v / 256, k - 1)
  }

  lemma LeStep(v: nat, k: nat)
    requires k > 0
    ensures Le(v, k) == [v % 256] + Le(v / 256, k - 1)
  {
  }

  function UnLe(s: seq<byte>): nat {
    if s == [] then 0 else s[0] + 256 * UnLe(s[1..])
  }

  lemma {:induction false} UnLeFits(s: seq<byte>)
    ensures UnLe(s) < Pow256(|s|)
  {
    if s == [] {
    } else {
      UnLeFits(s[1..]);
    }
  }

  /** Reading back what was written gives the value, when it fits the width. */
  lemma {:induction false} UnLeOfLe(v: nat, k: nat)
    requires v < Pow256(k)
    ensures UnLe(Le(v, k)) == v
  {
    if k == 0 {
    } else {
      UnLeOfLe(v / 256, k - 1);
      assert Le(v, k)[1..] == Le(v / 256, k - 1);
    }
  }

  /** Writing back what was read gives the bytes. */
  lemma {:induction false} LeOfUnLe(s: seq<byte>)
    ensures Le(UnLe(s), |s|) == s
  {
    if s == [] {
    } else {
      LeOfUnLe(s[1..]);
      assert UnLe(s) % 256 == s[0] && UnLe(s) / 256 == UnLe(s[1..]);
    }
  }

  lemma LeIsInjective(v: nat, w: nat, k: nat)
    requires v < Pow256(k) && w < Pow256(k) && Le(v, k) == Le(w, k)
    ensures v == w
  {
    UnLeOfLe(v, k);
    UnLeOfLe(w, k);
  }

  /** Byte `i` is the number shifted right by 8i bits, reduced to eight. */
  lemma {:induction false} LeAt(v: nat, k: nat, i: nat)
    requires i < k
    ensures Le(v, k)[i] == v / Pow256(i) % 256
  {
    if i == 0 {
    } else {
      LeAt(v / 256, k - 1, i - 1);
      DivideTwice(v, Pow256(i - 1));
    }
  }

  lemma DivideTwice(v: nat, n: nat)
    requires n > 0
    ensures v / 256 / n == v / (256 * n)
  {
    var w := v / 256;
    var q, r := w / n, w % n;
    var t := q * n;
    assert w == t + r;
    assert q * (256 * n) == 256 * t;
    DivModUnique(v, 256 * n, q, 256 * r + v % 256);
  }

  lemma Pow256Values()
    ensures Pow256(4) == U32 && Pow256(8) == U64
  {
    assert Pow256(2) == 0x1_0000;
    assert Pow256(4) == 0x1_0000_0000;
    assert Pow256(6) == 0x1_0000_0000_0000;
  }
}
