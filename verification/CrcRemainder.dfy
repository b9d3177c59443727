/**
 CRC32C as polynomial division. A polynomial over the two-element field is the list of its coefficients,
 highest power first; the generator is the one of section 12.1 of RFC 3720.
 */
module CrcRemainder {
  import opened Words
  import opened Bytes
  import opened Crc

  type Poly = seq<bool>

  /** The powers of x in the generator. */
  predicate InGenerator(power: int) {
    power in {32, 28, 27, 26, 25, 23, 22, 20, 19, 18, 14, 13, 11, 10, 9, 8, 6, 0}
  }

  function Generator(): (g: Poly)
    ensures |g| == 33 && forall i :: 0 <= i < 33 ==> g[i] == InGenerator(32 - i)
  {
    seq(33, i requires 0 <= i < 33 => InGenerator(32 - i))
  }

  function Zeros(n: nat): (z: Poly)
    ensures |z| == n && forall i :: 0 <= i < n ==> !z[i]
  {
    seq(n, _ => false)
  }

  /** Sum of two polynomials of the same length. */
  function Plus(p: Poly, q: Poly): (r: Poly)
    requires |p| == |q|
    ensures |r| == |p| && forall i :: 0 <= i < |p| ==> r[i] == (p[i] != q[i])
  {
    seq(|p|, i requires 0 <= i < |p| => p[i] != q[i])
  }

  /** A coefficient times the generator times x^n. */
  function Shifted(b: bool, n: nat): (p: Poly)
    ensures |p| == n + 33
  {
    if b then Generator() + Zeros(n) else Zeros(n + 33)
  }

  /** A polynomial times the generator, by shifting and adding. */
  function TimesGenerator(q: Poly): (p: Poly)
    ensures |p| == |q| + 32
  {
    if q == [] then Zeros(32) else Plus(Shifted(q[0], |q| - 1), [false] + TimesGenerator(q[1..]))
  }

  /** `q` times the generator plus `r`. */
  function Multiple(q: Poly, r: Poly): (p: Poly)
    requires |r| == 32
    ensures |p| == |q| + 32
  {
    Plus(TimesGenerator(q), Zeros(|q|) + r)
  }

  /** `r` is what is left of `p` after subtracting a multiple of the generator. */
  ghost predicate IsRemainder(p: Poly, r: Poly) {
    |r| == 32 && |p| >= 32 && exists q: Poly :: |q| == |p| - 32 && p == Multiple(q, r)
  }

  /** The generator's coefficient of x^(31 - i), times `b`. */
  predicate Taps(b: bool, i: nat) {
    b && i < 32 && InGenerator(31 - i)
  }

  lemma ShiftedAt(b: bool, n: nat, i: nat)
    requires i < n + 32
    ensures Shifted(b, n)[0] == b && Shifted(b, n)[i + 1] == Taps(b, i)
  {
    assert InGenerator(32);
    hide InGenerator, Generator, Zeros;
  }

  lemma TimesCons(b: bool, q: Poly)
    ensures TimesGenerator([b] + q) == Plus(Shifted(b, |q|), [false] + TimesGenerator(q))
  {
    hide Shifted, Plus, Zeros;
    assert ([b] + q)[1..] == q;
  }

  lemma TimesNext(b: bool, q: Poly, i: nat)
    requires i < |q| + 32
    ensures TimesGenerator([b] + q)[0] == b
    ensures TimesGenerator([b] + q)[i + 1] == (TimesGenerator(q)[i] != Taps(b, i))
  {
    hide TimesGenerator, Shifted, Plus, Taps;
    TimesCons(b, q);
    ShiftedAt(b, |q|, i);
    assert ([false] + TimesGenerator(q))[i + 1] == TimesGenerator(q)[i];
  }

  lemma MultipleNext(b: bool, q: Poly, r: Poly, i: nat)
    requires |r| == 32 && i < |q| + 32
    ensures Multiple([b] + q, r)[0] == b
    ensures Multiple([b] + q, r)[i + 1] == (Multiple(q, r)[i] != Taps(b, i))
  {
    hide Taps, TimesGenerator, Zeros, Plus;
    TimesNext(b, q, i);
    assert (Zeros(|q| + 1) + r)[i + 1] == (Zeros(|q|) + r)[i];
    assert !(Zeros(|q| + 1) + r)[0];
  }

  lemma MultipleOfNothing(r: Poly)
    requires |r| == 32
    ensures Multiple([], r) == r
  {
    hide Zeros, Plus;
    assert TimesGenerator([]) == Zeros(32);
    assert Zeros(0) + r == r;
  }

  lemma {:induction false} MultipleIsUnique(q: Poly, q': Poly, r: Poly, r': Poly)
    requires |q| == |q'| && |r| == |r'| == 32 && Multiple(q, r) == Multiple(q', r')
    ensures q == q' && r == r'
  {
    hide Multiple, Taps;
    if q == [] {
      assert q' == [];
      MultipleOfNothing(r);
      MultipleOfNothing(r');
    } else {
      var t, t' := q[1..], q'[1..];
      assert q == [q[0]] + t && q' == [q'[0]] + t';
      forall i: nat | i < |t| + 32 ensures q[0] == q'[0] && Multiple(t, r)[i] == Multiple(t', r')[i] {
        MultipleNext(q[0], t, r, i);
        MultipleNext(q'[0], t', r', i);
      }
      assert Multiple(t, r)[0] == Multiple(t', r')[0];
      assert Multiple(t, r) == Multiple(t', r');
      MultipleIsUnique(t, t', r, r');
    }
  }

  /** There is one remainder only. */
  lemma RemainderIsUnique(p: Poly, r: Poly, r': Poly)
    requires IsRemainder(p, r) && IsRemainder(p, r')
    ensures r == r'
  {
    hide Multiple;
    var q: Poly :| |q| == |p| - 32 && p == Multiple(q, r);
    var q': Poly :| |q'| == |p| - 32 && p == Multiple(q', r');
    MultipleIsUnique(q, q', r, r');
  }

  // ----- the register as a polynomial

  /** The low `n` bits of a number, least significant first: the register keeps the highest power there. */
  function BitsOf(x: nat, n: nat): (p: Poly)
    ensures |p| == n && forall i :: 0 <= i < n ==> p[i] == Bit(x, i)
  {
    seq(n, i requires 0 <= i < n => Bit(x, i))
  }

  lemma LowBits(x: nat)
    ensures Bit(x, 0) <==> x % 2 == 1
    ensures Bit(x, 1) <==> x / 2 % 2 == 1
    ensures Bit(x, 2) <==> x / 2 / 2 % 2 == 1
    ensures Bit(x, 3) <==> x / 2 / 2 / 2 % 2 == 1
  {
    assert Bit(x, 3) == Bit(x / 2, 2) == Bit(x / 2 / 2, 1) == Bit(x / 2 / 2 / 2, 0);
    assert Bit(x, 2) == Bit(x / 2, 1) == Bit(x / 2 / 2, 0);
  }

  /** Bits of a byte given by its two halves. */
  lemma ByteBits(high: nat, low: nat, i: nat)
    requires low < 16 && i < 8
    ensures Bit(16 * high + low, i) == if i < 4 then Bit(low, i) else Bit(high, i - 4)
  {
    hide Bit;
    assert Pow2(4) == 16;
    BitOfSum(low, high, 4, i);
  }

  lemma GeneratorBytes(i: nat)
    requires i < 8
    ensures Bit(0x78, i) <==> i in {3, 4, 5, 6}
    ensures Bit(0x3B, i) <==> i in {0, 1, 3, 4, 5}
    ensures Bit(0xF6, i) <==> i in {1, 2, 4, 5, 6, 7}
    ensures Bit(0x82, i) <==> i in {1, 7}
  {
    hide Bit;
    ByteBits(0x7, 0x8, i);
    ByteBits(0x3, 0xB, i);
    ByteBits(0xF, 0x6, i);
    ByteBits(0x8, 0x2, i);
    LowBits(0x2);
    LowBits(0x3);
    LowBits(0x6);
    LowBits(0x7);
    LowBits(0x8);
    LowBits(0xB);
    LowBits(0xF);
  }

  /** The reflected constant is the generator without its leading term. */
  lemma GeneratorBits(i: nat)
    ensures Bit(POLYNOMIAL, i) <==> i < 32 && InGenerator(31 - i)
  {
    hide Bit;
    assert Pow2(8) == 256;
    BitOfSum(0x78, 0x82F63B, 8, i);
    if i < 8 {
      GeneratorBytes(i);
    } else {
      BitOfSum(0x3B, 0x82F6, 8, i - 8);
      if i < 16 {
        GeneratorBytes(i - 8);
      } else {
        BitOfSum(0xF6, 0x82, 8, i - 16);
        if i < 24 {
          GeneratorBytes(i - 16);
        } else if i < 32 {
          GeneratorBytes(i - 24);
        } else {
          NoBitsAbove(0x82, 8, i - 24);
        }
      }
    }
  }

  lemma StepBit(w: nat, i: nat)
    ensures Bit(Step(w), i) <==> Bit(w, i + 1) != Taps(Bit(w, 0), i)
  {
    hide InGenerator;
    GeneratorBits(i);
    ZeroHasNoBits(i);
    BitOfXor(w / 2, if w % 2 == 1 then POLYNOMIAL else 0, i);
  }

  /** One step of long division: dropping a leading one subtracts the shifted generator. */
  lemma DivideOnce(w: nat, q: Poly, r: Poly)
    requires |r| == 32 && BitsOf(Step(w), |q| + 32) == Multiple(q, r)
    ensures BitsOf(w, |q| + 33) == Multiple([Bit(w, 0)] + q, r)
  {
    hide Taps, Bit, Step, BitsOf, Multiple;
    var b := Bit(w, 0);
    var left, right := BitsOf(w, |q| + 33), Multiple([b] + q, r);
    forall i: nat | i < |q| + 33 ensures left[i] == right[i] {
      if i == 0 {
        MultipleNext(b, q, r, 0);
      } else {
        StepBit(w, i - 1);
        MultipleNext(b, q, r, i - 1);
        assert Multiple(q, r)[i - 1] == BitsOf(Step(w), |q| + 32)[i - 1];
      }
    }
  }

  /** Stepping the register is dividing by the generator. */
  lemma {:induction false} StepsDivide(w: nat, k: nat)
    ensures IsRemainder(BitsOf(w, k + 32), BitsOf(Steps(w, k), 32))
    decreases k
  {
    hide Bit, BitsOf, Multiple;
    if k == 0 {
      MultipleOfNothing(BitsOf(w, 32));
    } else {
      assert Steps(w, k) == Steps(Step(w), k - 1) by {
        StepsCompose(w, 1, k - 1);
        assert Steps(w, 1) == Step(w) by { assert Steps(w, 0) == w; }
      }
      hide Step, Steps;
      StepsDivide(Step(w), k - 1);
      var p, r := BitsOf(Step(w), k + 31), BitsOf(Steps(w, k), 32);
      var q: Poly :| |q| == |p| - 32 && p == Multiple(q, r);
      DivideOnce(w, q, r);
      assert |[Bit(w, 0)] + q| == k;
    }
  }

  // ----- the dividend of a message

  /** The message, each byte from its least significant bit. */
  function MessageBits(bytes: seq<byte>): (p: Poly)
    ensures |p| == 8 * |bytes|
  {
    if bytes == [] then [] else BitsOf(bytes[0], 8) + MessageBits(bytes[1..])
  }

  lemma {:induction false} MessageBit(bytes: seq<byte>, i: nat)
    ensures Bit(UnLe(bytes), i) <==> i < 8 * |bytes| && MessageBits(bytes)[i]
  {
    if bytes == [] {
      ZeroHasNoBits(i);
    } else {
      hide Bit;
      assert Pow2(8) == 256;
      BitOfSum(bytes[0], UnLe(bytes[1..]), 8, i);
      if i >= 8 { MessageBit(bytes[1..], i - 8); }
    }
  }

  /** The message times x^32, with the initial register added to its leading terms. */
  function Dividend(v: nat, bytes: seq<byte>): Poly {
    Plus(MessageBits(bytes) + Zeros(32), BitsOf(v, 32) + Zeros(8 * |bytes|))
  }

  lemma DividendBits(v: nat, bytes: seq<byte>)
    requires v < U32
    ensures Dividend(v, bytes) == BitsOf(Xor(v, UnLe(bytes)), 8 * |bytes| + 32)
  {
    hide Bit, Xor, UnLe;
    forall i | 0 <= i < 8 * |bytes| + 32 ensures Dividend(v, bytes)[i] == Bit(Xor(v, UnLe(bytes)), i) {
      BitOfXor(v, UnLe(bytes), i);
      MessageBit(bytes, i);
      if i >= 32 {
        Pow2Is32And64();
        NoBitsAbove(v, 32, i);
      }
    }
  }

  /** The register after any bytes, from any start, is the remainder of the dividend. */
  lemma RegisterIsRemainder(v: nat, bytes: seq<byte>)
    requires v < U32
    ensures IsRemainder(Dividend(v, bytes), BitsOf(Register(v, bytes), 32))
  {
    hide Bit, Xor, UnLe, Register, Steps, IsRemainder, Dividend;
    DividendBits(v, bytes);
    RegisterAtOnce(v, bytes);
    StepsDivide(Xor(v, UnLe(bytes)), 8 * |bytes|);
  }

  function Ones(n: nat): Poly {
    seq(n, _ => true)
  }

  lemma OnesBits()
    ensures BitsOf(ONES, 32) == Ones(32)
  {
    hide Bit;
    forall i | 0 <= i < 32 ensures Bit(ONES, i) {
      BitOfNot(0, 32, i);
      ZeroHasNoBits(i);
      AllOnes();
    }
  }

  lemma AllOnes()
    ensures Not(0, 32) == ONES
  {
    XorWithComplement(0, 32);
    XorWithZero(Not(0, 32));
    Pow2Is32And64();
  }

  /** The checksum: the first 32 bits of the message inverted, times x^32, modulo the generator, inverted. */
  lemma ChecksumIsRemainder(bytes: seq<byte>)
    ensures IsRemainder(Plus(MessageBits(bytes) + Zeros(32), Ones(32) + Zeros(8 * |bytes|)),
                        Plus(BitsOf(Checksum(bytes), 32), Ones(32)))
  {
    hide Bit, Register, IsRemainder, MessageBits, Not;
    var r := Register(ONES, bytes);
    assert BitsOf(ONES, 32) == Ones(32) by { OnesBits(); }
    assert Dividend(ONES, bytes) == Plus(MessageBits(bytes) + Zeros(32), Ones(32) + Zeros(8 * |bytes|));
    assert Plus(BitsOf(Checksum(bytes), 32), Ones(32)) == BitsOf(r, 32) by { InvertedBits(r); }
    RegisterIsRemainder(ONES, bytes);
  }

  lemma InvertedBits(r: nat)
    ensures Plus(BitsOf(Not(r, 32), 32), Ones(32)) == BitsOf(r, 32)
  {
    hide Bit, Not;
    forall i | 0 <= i < 32 ensures Bit(Not(r, 32), i) != Bit(r, i) {
      BitOfNot(r, 32, i);
    }
  }
}
