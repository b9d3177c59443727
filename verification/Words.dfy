/** Machine words as naturals, with the bit operators the sources use on them. */
module Words {
  const U32: nat := 0x1_0000_0000
  const U64: nat := 0x1_0000_0000_0000_0000
  const U64_MAX: Word := 0xFFFF_FFFF_FFFF_FFFF

  /** An unsigned 64-bit value. Sums that leave this range must be reduced explicitly. */
  type Word = w: int | 0 <= w < 0x1_0000_0000_0000_0000

  datatype Option<+T> = None | Some(value: T)

  function Pow2(k: nat): (p: nat)
    ensures p >= 1
  {
    if k == 0 then 1 else 2 * Pow2(k - 1)
  }

  /** Bit `i` of `x`, counting from the least significant. */
  predicate Bit(x: nat, i: nat) {
    if i == 0 then x % 2 == 1 else Bit(x / 2, i - 1)
  }

  function And(x: nat, y: nat): nat {
    if x == 0 || y == 0 then 0
    else 2 * And(x / 2, y / 2) + if x % 2 == 1 && y % 2 == 1 then 1 else 0
  }

  function Or(x: nat, y: nat): nat {
    if x == 0 then y
    else if y == 0 then x
    else 2 * Or(x / 2, y / 2) + if x % 2 == 1 || y % 2 == 1 then 1 else 0
  }

  function Xor(x: nat, y: nat): nat {
    if x == 0 then y
    else if y == 0 then x
    else 2 * Xor(x / 2, y / 2) + if x % 2 != y % 2 then 1 else 0
  }

  /** One's complement of the low `width` bits. */
  function Not(x: nat, width: nat): nat {
    if width == 0 then 0
    else 2 * Not(x / 2, width - 1) + if x % 2 == 1 then 0 else 1
  }

  // ----- single bits of the operators

  lemma {:induction false} ZeroHasNoBits(i: nat)
    ensures !Bit(0, i)
  {
    if i == 0 {
    } else {
      ZeroHasNoBits(i - 1);
    }
  }

  lemma {:induction false} BitOfOr(x: nat, y: nat, i: nat)
    ensures Bit(Or(x, y), i) <==> Bit(x, i) || Bit(y, i)
  {
    ZeroHasNoBits(i);
    if x == 0 || y == 0 || i == 0 {
    } else {
      BitOfOr(x / 2, y / 2, i - 1);
    }
  }

  lemma {:induction false} BitOfAnd(x: nat, y: nat, i: nat)
    ensures Bit(And(x, y), i) <==> Bit(x, i) && Bit(y, i)
  {
    ZeroHasNoBits(i);
    if x == 0 || y == 0 || i == 0 {
    } else {
      BitOfAnd(x / 2, y / 2, i - 1);
    }
  }

  lemma {:induction false} BitOfNot(x: nat, width: nat, i: nat)
    requires i < width
    ensures Bit(Not(x, width), i) <==> !Bit(x, i)
  {
    if i == 0 {
    } else {
      BitOfNot(x / 2, width - 1, i - 1);
    }
  }

  lemma {:induction false} BitOfPow2(k: nat, i: nat)
    ensures Bit(Pow2(k), i) <==> i == k
  {
    if k > 0 && i > 0 {
      BitOfPow2(k - 1, i - 1);
    } else if k == 0 && i > 0 {
      ZeroHasNoBits(i - 1);
    }
  }

  lemma {:induction false} NoBitsAbove(x: nat, k: nat, i: nat)
    requires x < Pow2(k) && i >= k
    ensures !Bit(x, i)
  {
    if k == 0 {
      ZeroHasNoBits(i);
    } else {
      NoBitsAbove(x / 2, k - 1, i - 1);
    }
  }

  lemma {:induction false} BitOfXor(x: nat, y: nat, i: nat)
    ensures Bit(Xor(x, y), i) <==> Bit(x, i) != Bit(y, i)
  {
    ZeroHasNoBits(i);
    if x == 0 || y == 0 || i == 0 {
    } else {
      BitOfXor(x / 2, y / 2, i - 1);
    }
  }

  /** Bits of a number put together from a low and a high part. */
  lemma {:induction false} BitOfSum(low: nat, high: nat, k: nat, i: nat)
    requires low < Pow2(k)
    ensures Bit(low + high * Pow2(k), i) == if i < k then Bit(low, i) else Bit(high, i - k)
  {
    if k == 0 {
    } else {
      var rest := high * Pow2(k - 1);
      assert high * Pow2(k) == 2 * rest;
      assert (low + 2 * rest) / 2 == low / 2 + rest && (low + 2 * rest) % 2 == low % 2;
      if i == 0 {
      } else {
        BitOfSum(low / 2, high, k - 1, i - 1);
      }
    }
  }

  /** Equal bits make equal numbers. */
  lemma {:induction false} SameBits(x: nat, y: nat)
    requires forall i: nat :: Bit(x, i) == Bit(y, i)
    ensures x == y
    decreases x + y
  {
    assert Bit(x, 0) == Bit(y, 0);
    if x + y == 0 {
    } else {
      forall i: nat ensures Bit(x / 2, i) == Bit(y / 2, i) {
        assert Bit(x, i + 1) == Bit(y, i + 1);
      }
      SameBits(x / 2, y / 2);
    }
  }

  // ----- exclusive or

  lemma {:induction false} XorSelf(x: nat)
    ensures Xor(x, x) == 0
  {
    if x == 0 {
    } else {
      XorSelf(x / 2);
    }
  }

  lemma {:induction false} XorCommutes(x: nat, y: nat)
    ensures Xor(x, y) == Xor(y, x)
  {
    if x == 0 || y == 0 {
    } else {
      XorCommutes(x / 2, y / 2);
    }
  }

  lemma XorHalves(x: nat, y: nat)
    ensures Xor(x, y) / 2 == Xor(x / 2, y / 2)
    ensures Xor(x, y) % 2 == if x % 2 != y % 2 then 1 else 0
  {
  }

  lemma {:induction false} XorAssociates(x: nat, y: nat, z: nat)
    ensures Xor(Xor(x, y), z) == Xor(x, Xor(y, z))
    decreases x + y + z
  {
    if x == 0 || y == 0 || z == 0 {
    } else {
      XorAssociates(x / 2, y / 2, z / 2);
      XorHalves(x, y);
      XorHalves(y, z);
      XorHalves(Xor(x, y), z);
      XorHalves(x, Xor(y, z));
    }
  }

  /** Equal exclusive ors with the same value are exclusive ors of equal values. */
  lemma XorCancels(s: nat, x: nat, y: nat)
    requires Xor(s, x) == Xor(s, y)
    ensures x == y
  {
    XorAssociates(s, s, x);
    XorAssociates(s, s, y);
    XorSelf(s);
  }

  lemma XorZero(x: nat, y: nat)
    requires Xor(x, y) == 0
    ensures x == y
  {
    XorSelf(x);
    XorCancels(x, x, y);
  }

  lemma XorWithZero(x: nat)
    ensures Xor(x, 0) == x && Xor(0, x) == x
  {
  }

  lemma {:induction false} XorOfDisjoint(x: nat, y: nat, k: nat)
    requires x < Pow2(k)
    ensures Xor(x, y * Pow2(k)) == x + y * Pow2(k)
  {
    hide Xor;
    if k == 0 {
      XorWithZero(y * Pow2(0));
    } else {
      var z := y * Pow2(k - 1);
      XorOfDisjoint(x / 2, y, k - 1);
      assert y * Pow2(k) == 2 * z;
      XorHalves(x, 2 * z);
    }
  }

  // ----- sizes

  lemma {:induction false} AndFits(x: nat, y: nat)
    ensures And(x, y) <= x && And(x, y) <= y
  {
    if x == 0 || y == 0 {
    } else {
      AndFits(x / 2, y / 2);
    }
  }

  lemma {:induction false} OrFits(x: nat, y: nat, width: nat)
    requires x < Pow2(width) && y < Pow2(width)
    ensures Or(x, y) < Pow2(width)
  {
    if x == 0 || y == 0 {
    } else {
      OrFits(x / 2, y / 2, width - 1);
    }
  }

  lemma {:induction false} XorFits(x: nat, y: nat, width: nat)
    requires x < Pow2(width) && y < Pow2(width)
    ensures Xor(x, y) < Pow2(width)
  {
    if x == 0 || y == 0 {
    } else {
      XorFits(x / 2, y / 2, width - 1);
    }
  }

  lemma {:induction false} NotFits(x: nat, width: nat)
    ensures Not(x, width) < Pow2(width)
  {
    if width == 0 {
    } else {
      NotFits(x / 2, width - 1);
    }
  }

  lemma Pow2Is32And64()
    ensures Pow2(32) == U32 && Pow2(64) == U64
  {
    assert Pow2(8) == 256;
    assert Pow2(16) == 65536;
    assert Pow2(24) == 0x100_0000;
    assert Pow2(32) == 0x1_0000_0000;
    assert Pow2(40) == 0x100_0000_0000;
    assert Pow2(48) == 0x1_0000_0000_0000;
    assert Pow2(56) == 0x100_0000_0000_0000;
  }

  lemma {:induction false} Pow2Monotone(j: nat, k: nat)
    requires j <= k
    ensures Pow2(j) <= Pow2(k)
  {
    if j == k {
    } else {
      Pow2Monotone(j, k - 1);
    }
  }

  lemma {:induction false} Pow2Splits(j: nat, k: nat)
    ensures Pow2(j + k) == Pow2(j) * Pow2(k)
  {
    if k == 0 {
    } else {
      Pow2Splits(j, k - 1);
    }
  }

  // ----- masks

  lemma {:induction false} MultiplesApart(n: nat, q: nat, q': nat)
    requires q < q'
    ensures q * n + n <= q' * n
  {
    if q + 1 < q' { MultiplesApart(n, q, q' - 1); }
  }

  lemma SameQuotient(n: nat, q: nat, r: nat, q': nat, r': nat)
    requires r < n && r' < n && q * n + r == q' * n + r'
    ensures q == q' && r == r'
  {
    if q > q' {
      MultiplesApart(n, q', q);
    } else if q < q' {
      MultiplesApart(n, q, q');
    }
  }

  lemma DivModUnique(x: nat, n: nat, q: nat, r: nat)
    requires r < n && x == q * n + r
    ensures x % n == r && x / n == q
  {
    SameQuotient(n, q, r, x / n, x % n);
  }

  /** Masking with a power of two less one is reduction modulo that power. */
  lemma {:induction false} MaskIsMod(x: nat, k: nat)
    ensures And(x, Pow2(k) - 1) == x % Pow2(k)
  {
    if x == 0 {
      DivModUnique(0, Pow2(k), 0, 0);
    } else if k > 0 {
      MaskIsMod(x / 2, k - 1);
      HalvesOfMask(x, Pow2(k - 1));
      HalvesOfMod(x, Pow2(k - 1));
    }
  }

  lemma HalvesOfMask(x: nat, m: nat)
    requires m > 0 && x > 0
    ensures And(x, 2 * m - 1) == 2 * And(x / 2, m - 1) + x % 2
  {
    var y := 2 * m - 1;
    assert y / 2 == m - 1 && y % 2 == 1;
  }

  lemma HalvesOfMod(x: nat, m: nat)
    requires m > 0
    ensures x % (2 * m) == 2 * ((x / 2) % m) + x % 2
  {
    var h := x / 2;
    var q, r := h / m, h % m;
    assert h == q * m + r;
    assert q * (2 * m) == 2 * (q * m);
    DivModUnique(x, 2 * m, q, 2 * r + x % 2);
  }

  /** A byte only changes the low byte. */
  lemma XorLowByte(x: nat, b: nat)
    requires b < 256
    ensures Xor(x, b) == x - x % 256 + Xor(x % 256, b)
  {
    hide Xor;
    assert Pow2(8) == 256;
    var low, high := x % 256, x / 256;
    XorOfDisjoint(low, high, 8);
    XorFits(low, b, 8);
    XorOfDisjoint(Xor(low, b), high, 8);
    XorAssociates(b, low, high * 256);
    XorCommutes(b, low);
    XorCommutes(b, x);
  }

  /** An element found at two positions counts at least twice. */
  lemma TwoPlacesMeanTwice<T>(s: seq<T>, i: nat, j: nat)
    requires i < j < |s| && s[i] == s[j]
    ensures multiset(s)[s[i]] >= 2
  {
    assert s == s[..j] + [s[j]] + s[j + 1..];
    assert s[..j][i] == s[i];
    assert s[i] in multiset(s[..j]);
  }
}
