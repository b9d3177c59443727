/** CRC32C (the polynomial of section 12.1 of RFC 3720), reflected, as the frame codec computes it. */
module Crc {
  import opened Words
  import opened Bytes

  const POLYNOMIAL: nat := 0x82F63B78
  const ONES: nat := 0xFFFF_FFFF

  /** One bit of the register. */
  function Step(v: nat): nat {
    Xor(v / 2, if v % 2 == 1 then POLYNOMIAL else 0)
  }

  function Steps(v: nat, k: nat): nat {
    if k == 0 then v else Step(Steps(v, k - 1))
  }

  function Absorb(v: nat, b: byte): nat {
    Steps(Xor(v, b), 8)
  }

  /** The register after `bytes`, started at `v`. */
  function Register(v: nat, bytes: seq<byte>): nat {
    if bytes == [] then v else Absorb(Register(v, bytes[..|bytes| - 1]), bytes[|bytes| - 1])
  }

  function Checksum(bytes: seq<byte>): nat {
    Not(Register(ONES, bytes), 32)
  }

  // ----- exclusive or

  lemma XorSwaps(a: nat, b: nat, c: nat, d: nat)
    ensures Xor(Xor(a, b), Xor(c, d)) == Xor(Xor(a, c), Xor(b, d))
  {
    XorAssociates(a, b, Xor(c, d));
    XorAssociates(b, c, d);
    XorCommutes(b, c);
    XorAssociates(c, b, d);
    XorAssociates(a, c, Xor(b, d));
  }

  lemma {:induction false} XorWithComplement(x: nat, k: nat)
    requires x < Pow2(k)
    ensures Xor(x, Not(x, k)) == Pow2(k) - 1
  {
    if k == 0 {
    } else {
      XorWithComplement(x / 2, k - 1);
      XorHalves(x, Not(x, k));
    }
  }

  // ----- the bit step is linear and loses nothing

  lemma StepIsLinear(x: nat, y: nat)
    ensures Step(Xor(x, y)) == Xor(Step(x), Step(y))
  {
    hide Xor;
    XorHalves(x, y);
    var p, q := if x % 2 == 1 then POLYNOMIAL else 0, if y % 2 == 1 then POLYNOMIAL else 0;
    XorSwaps(x / 2, p, y / 2, q);
    XorSelf(POLYNOMIAL);
    XorSelf(0);
    XorCommutes(0, POLYNOMIAL);
    XorWithZero(POLYNOMIAL);
  }

  lemma StepKeepsZeroOnly(x: nat)
    requires x < U32 && Step(x) == 0
    ensures x == 0
  {
    hide Xor;
    XorWithZero(x / 2);
    if x % 2 == 1 { XorZero(x / 2, POLYNOMIAL); }
  }

  lemma StepFits(x: nat)
    requires x < U32
    ensures Step(x) < U32
  {
    Pow2Is32And64();
    XorFits(x / 2, if x % 2 == 1 then POLYNOMIAL else 0, 32);
  }

  lemma {:induction false} StepsFit(x: nat, k: nat)
    requires x < U32
    ensures Steps(x, k) < U32
  {
    hide Step;
    if k == 0 {
    } else {
      StepsFit(x, k - 1);
      StepFits(Steps(x, k - 1));
    }
  }

  lemma {:induction false} StepsAreLinear(x: nat, y: nat, k: nat)
    ensures Steps(Xor(x, y), k) == Xor(Steps(x, k), Steps(y, k))
  {
    hide Step, Xor;
    if k == 0 {
    } else {
      StepsAreLinear(x, y, k - 1);
      StepIsLinear(Steps(x, k - 1), Steps(y, k - 1));
    }
  }

  lemma {:induction false} StepsKeepZeroOnly(x: nat, k: nat)
    requires x < U32 && Steps(x, k) == 0
    ensures x == 0
  {
    hide Step;
    if k == 0 {
    } else {
      StepsFit(x, k - 1);
      StepKeepsZeroOnly(Steps(x, k - 1));
      StepsKeepZeroOnly(x, k - 1);
    }
  }

  /** Any number of bit steps is injective on 32-bit registers. */
  lemma StepsAreInjective(x: nat, y: nat, k: nat)
    requires x < U32 && y < U32 && Steps(x, k) == Steps(y, k)
    ensures x == y
  {
    hide Steps, Xor;
    StepsAreLinear(x, y, k);
    XorSelf(Steps(x, k));
    Pow2Is32And64();
    XorFits(x, y, 32);
    StepsKeepZeroOnly(Xor(x, y), k);
    XorZero(x, y);
  }

  lemma {:induction false} StepsCompose(x: nat, j: nat, k: nat)
    ensures Steps(x, j + k) == Steps(Steps(x, j), k)
  {
    hide Step;
    if k == 0 {
    } else {
      StepsCompose(x, j, k - 1);
    }
  }

  /** Bits that are zero on the way out only shift. */
  lemma {:induction false} StepsShift(y: nat, k: nat)
    ensures Steps(y * Pow2(k), k) == y
  {
    if k == 0 {
    } else {
      var z := y * Pow2(k - 1);
      assert y * Pow2(k) == 2 * z;
      assert Step(2 * z) == z by { XorWithZero(z); }
      StepsCompose(2 * z, 1, k - 1);
      assert Steps(2 * z, 1) == Step(2 * z) by { assert Steps(2 * z, 0) == 2 * z; }
      StepsShift(y, k - 1);
    }
  }

  // ----- the register

  lemma AbsorbFits(v: nat, b: byte)
    requires v < U32
    ensures Absorb(v, b) < U32
  {
    hide Xor, Steps;
    Pow2Is32And64();
    XorFits(v, b, 32);
    StepsFit(Xor(v, b), 8);
  }

  lemma {:induction false} RegisterFits(v: nat, bytes: seq<byte>)
    requires v < U32
    ensures Register(v, bytes) < U32
  {
    hide Absorb;
    if bytes == [] {
    } else {
      RegisterFits(v, bytes[..|bytes| - 1]);
      AbsorbFits(Register(v, bytes[..|bytes| - 1]), bytes[|bytes| - 1]);
    }
  }

  lemma {:induction false} RegisterConcat(v: nat, a: seq<byte>, b: seq<byte>)
    ensures Register(v, a + b) == Register(Register(v, a), b)
  {
    hide Absorb;
    if b == [] {
      assert a + b == a;
    } else {
      RegisterConcat(v, a, b[..|b| - 1]);
      assert (a + b)[..|a + b| - 1] == a + b[..|b| - 1];
    }
  }

  lemma AbsorbIsInjective(v: nat, w: nat, b: byte)
    requires v < U32 && w < U32 && Absorb(v, b) == Absorb(w, b)
    ensures v == w
  {
    hide Xor, Steps;
    Pow2Is32And64();
    XorFits(v, b, 32);
    XorFits(w, b, 32);
    StepsAreInjective(Xor(v, b), Xor(w, b), 8);
    XorCommutes(v, b);
    XorCommutes(w, b);
    XorCancels(b, v, w);
  }

  /** Different registers stay different whatever follows. */
  lemma {:induction false} RegisterIsInjective(v: nat, w: nat, bytes: seq<byte>)
    requires v < U32 && w < U32 && Register(v, bytes) == Register(w, bytes)
    ensures v == w
  {
    hide Absorb;
    if bytes == [] {
    } else {
      var init, b := bytes[..|bytes| - 1], bytes[|bytes| - 1];
      RegisterFits(v, init);
      RegisterFits(w, init);
      AbsorbIsInjective(Register(v, init), Register(w, init), b);
      RegisterIsInjective(v, w, init);
    }
  }

  /** Absorbing bytes one by one is absorbing them as one little-endian number. */
  lemma {:induction false} RegisterAtOnce(v: nat, bytes: seq<byte>)
    ensures Register(v, bytes) == Steps(Xor(v, UnLe(bytes)), 8 * |bytes|)
    decreases |bytes|
  {
    hide Xor, Steps;
    if bytes == [] {
      XorWithZero(v);
      NoSteps(v);
    } else {
      var b, rest := bytes[0], bytes[1..];
      var r := UnLe(rest);
      assert bytes == [b] + rest;
      RegisterConcat(v, [b], rest);
      assert Register(v, [b]) == Absorb(v, b) by { assert [b][..0] == []; assert Register(v, []) == v; }
      RegisterAtOnce(Absorb(v, b), rest);
      assert Pow2(8) == 256;
      StepsShift(r, 8);
      StepsAreLinear(Xor(v, b), r * 256, 8);
      XorAssociates(v, b, r * 256);
      XorOfDisjoint(b, r, 8);
      StepsCompose(Xor(v, UnLe(bytes)), 8, 8 * |rest|);
    }
  }

  lemma NoSteps(v: nat)
    ensures Steps(v, 0) == v
  {
  }

  /** Within four bytes, different bytes give different registers. */
  lemma ShortBurstShows(v: nat, a: seq<byte>, b: seq<byte>)
    requires v < U32 && |a| == |b| <= 4
    ensures Register(v, a) == Register(v, b) <==> a == b
  {
    hide Xor, Steps, Register, UnLe;
    RegisterAtOnce(v, a);
    RegisterAtOnce(v, b);
    UnLeFitsU32(a);
    UnLeFitsU32(b);
    Pow2Is32And64();
    XorFits(v, UnLe(a), 32);
    XorFits(v, UnLe(b), 32);
    if Register(v, a) == Register(v, b) {
      StepsAreInjective(Xor(v, UnLe(a)), Xor(v, UnLe(b)), 8 * |a|);
      XorCancels(v, UnLe(a), UnLe(b));
      LeOfUnLe(a);
      LeOfUnLe(b);
    }
  }

  lemma UnLeFitsU32(s: seq<byte>)
    requires |s| <= 4
    ensures UnLe(s) < U32
  {
    UnLeFits(s);
    Pow256Values();
    Pow256Monotone(|s|, 4);
  }

  lemma {:induction false} Pow256Monotone(j: nat, k: nat)
    requires j <= k
    ensures Pow256(j) <= Pow256(k)
  {
    if j == k {
    } else {
      Pow256Monotone(j, k - 1);
    }
  }

  /** A change confined to four consecutive bytes always changes the register. */
  lemma BurstShows(v: nat, a: seq<byte>, b: seq<byte>, at: nat)
    requires v < U32 && |a| == |b| && a != b
    requires forall i :: 0 <= i < |a| && !(at <= i < at + 4) ==> a[i] == b[i]
    ensures Register(v, a) != Register(v, b)
  {
    hide Register;
    var lo := if at <= |a| then at else |a|;
    var hi := if at + 4 <= |a| then at + 4 else |a|;
    assert a == a[..lo] + a[lo..hi] + a[hi..] && b == b[..lo] + b[lo..hi] + b[hi..];
    assert a[..lo] == b[..lo] && a[hi..] == b[hi..];
    RegisterConcat(v, a[..lo] + a[lo..hi], a[hi..]);
    RegisterConcat(v, b[..lo] + b[lo..hi], b[hi..]);
    RegisterConcat(v, a[..lo], a[lo..hi]);
    RegisterConcat(v, b[..lo], b[lo..hi]);
    var s := Register(v, a[..lo]);
    RegisterFits(v, a[..lo]);
    RegisterFits(s, a[lo..hi]);
    RegisterFits(s, b[lo..hi]);
    if Register(v, a) == Register(v, b) {
      RegisterIsInjective(Register(s, a[lo..hi]), Register(s, b[lo..hi]), a[hi..]);
      ShortBurstShows(s, a[lo..hi], b[lo..hi]);
    }
  }

  // ----- the residue

  /** The register after any frame that ends in its own checksum. */
  function Residue(): nat {
    Steps(ONES, 32)
  }

  /** Bytes end in their own checksum exactly when the register over all of them is the residue. */
  lemma ChecksumMatchesResidue(data: seq<byte>, trailer: seq<byte>)
    requires |trailer| == 4
    ensures Checksum(data) == UnLe(trailer) <==> Register(ONES, data + trailer) == Residue()
  {
    hide Xor, Steps, Register, UnLe, Not;
    var r, c := Register(ONES, data), UnLe(trailer);
    RegisterFits(ONES, data);
    RegisterConcat(ONES, data, trailer);
    RegisterAtOnce(r, trailer);
    Pow2Is32And64();
    XorWithComplement(r, 32);
    UnLeFitsU32(trailer);
    XorFits(r, c, 32);
    if Steps(Xor(r, c), 32) == Steps(ONES, 32) {
      StepsAreInjective(Xor(r, c), ONES, 32);
      XorCancels(r, c, Not(r, 32));
    }
  }

  // ----- the loops

  lemma MaskedPolynomial(v: nat)
    ensures And(POLYNOMIAL, (U32 - And(v, 1)) % U32) == if v % 2 == 1 then POLYNOMIAL else 0
  {
    hide And;
    Pow2Is32And64();
    assert Pow2(1) == 2;
    MaskIsMod(v, 1);
    MaskIsMod(POLYNOMIAL, 32);
    AndFits(POLYNOMIAL, 0);
  }

  method Crc32c(bytes: seq<byte>) returns (crc: nat)
    ensures crc == Checksum(bytes)
  {
    hide And, Xor, Step, Not;
    var value := ONES;
    for i := 0 to |bytes|
      invariant value == Register(ONES, bytes[..i])
    {
      assert bytes[..i + 1][..i] == bytes[..i];
      value := Xor(value, bytes[i]);
      ghost var start := value;
      for bit := 0 to 8
        invariant value == Steps(start, bit)
      {
        MaskedPolynomial(value);
        ghost var before := value;
        value := Xor(value / 2, And(POLYNOMIAL, (U32 - And(value, 1)) % U32));
        assert value == Step(before) by { StepIs(before); }
      }
    }
    assert bytes[..|bytes|] == bytes;
    crc := Not(value, 32);
  }

  lemma StepIs(v: nat)
    ensures Step(v) == Xor(v / 2, if v % 2 == 1 then POLYNOMIAL else 0)
  {
  }
}
