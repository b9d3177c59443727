/** The raw frame record: a 38-byte little-endian header, the payload and a CRC32C. */
module FrameCodec {
  import opened Words
  import opened Bytes
  import opened Crc

  type Int64 = i: int | -0x8000_0000_0000_0000 <= i < 0x8000_0000_0000_0000

  const HEADER_SIZE: nat := 38
  const MAX_PAYLOAD: nat := 0x10_0000

  /** direction and kind are kept as the bytes they are stored as: decoding does not check them. */
  datatype Record = Record(captureIndex: Word, monotonicNs: Word, connectionId: Word, utcNs: Int64,
                           direction: byte, kind: byte, payload: seq<byte>)

  function ToUnsigned(x: Int64): Word {
    if x < 0 then x + U64 else x
  }

  function ToSigned(w: Word): Int64 {
    if w >= 0x8000_0000_0000_0000 then w - U64 else w
  }

  lemma SignRoundTrip(x: Int64, w: Word)
    ensures ToSigned(ToUnsigned(x)) == x && ToUnsigned(ToSigned(w)) == w
    ensures ToUnsigned(x) == x % U64
  {
  }

  // ----- the format

  function Header(r: Record): (h: seq<byte>)
    ensures |h| == HEADER_SIZE
  {
    Le(r.captureIndex, 8) + Le(r.monotonicNs, 8) + Le(ToUnsigned(r.utcNs), 8) + Le(r.connectionId, 8)
    + [r.direction] + [r.kind] + Le(|r.payload|, 4)
  }

  function Body(r: Record): seq<byte> {
    Header(r) + r.payload
  }

  function Encode(r: Record): seq<byte> {
    Body(r) + Le(Checksum(Body(r)), 4)
  }

  function ReadAt(bytes: seq<byte>, offset: nat, width: nat): nat
    requires offset + width <= |bytes|
  {
    UnLe(bytes[offset..offset + width])
  }

  lemma WordFits(s: seq<byte>)
    requires |s| == 8
    ensures UnLe(s) < U64
  {
    UnLeFits(s);
    Pow256Values();
  }

  function ReadWord(bytes: seq<byte>, offset: nat): Word
    requires offset + 8 <= |bytes|
  {
    WordFits(bytes[offset..offset + 8]);
    ReadAt(bytes, offset, 8)
  }

  function Parsed(bytes: seq<byte>): Record
    requires |bytes| >= HEADER_SIZE + 4
  {
    Record(ReadWord(bytes, 0), ReadWord(bytes, 8), ReadWord(bytes, 24), ToSigned(ReadWord(bytes, 16)),
           bytes[32], bytes[33], bytes[HEADER_SIZE..|bytes| - 4])
  }

  function Decode(bytes: seq<byte>): Option<Record> {
    if |bytes| < HEADER_SIZE + 4 then None
    else
      var length := ReadAt(bytes, 34, 4);
      if || length > MAX_PAYLOAD || |bytes| != HEADER_SIZE + length + 4
         || Checksum(bytes[..|bytes| - 4]) != ReadAt(bytes, |bytes| - 4, 4)
      then None
      else Some(Parsed(bytes))
  }

  // ----- the checks in terms of the register

  lemma SplitTrailer(bytes: seq<byte>)
    requires |bytes| >= 4
    ensures Checksum(bytes[..|bytes| - 4]) == ReadAt(bytes, |bytes| - 4, 4) <==> Register(ONES, bytes) == Residue()
  {
    var data, trailer := bytes[..|bytes| - 4], bytes[|bytes| - 4..];
    assert bytes == data + trailer;
    assert bytes[|bytes| - 4..|bytes| - 4 + 4] == trailer;
    hide Register, UnLe, Checksum, Residue;
    ChecksumMatchesResidue(data, trailer);
  }

  /** Changing any bytes within four consecutive positions of an accepted frame makes it unacceptable. */
  lemma BurstIsRejected(good: seq<byte>, bad: seq<byte>, at: nat)
    requires Decode(good).Some? && |bad| == |good| && bad != good
    requires forall i :: 0 <= i < |good| && !(at <= i < at + 4) ==> good[i] == bad[i]
    ensures Decode(bad) == None
  {
    hide Register, Residue, Parsed, Checksum, UnLe;
    SplitTrailer(good);
    SplitTrailer(bad);
    BurstShows(ONES, good, bad, at);
  }

  /** In particular any single changed byte of any encoded frame. */
  lemma SingleByteIsRejected(r: Record, i: nat, b: byte)
    requires |r.payload| <= MAX_PAYLOAD && i < |Encode(r)| && b != Encode(r)[i]
    ensures Decode(Encode(r)[i := b]) == None
  {
    hide Decode, Encode;
    RoundTrip(r);
    BurstIsRejected(Encode(r), Encode(r)[i := b], i);
  }

  // ----- round trips

  /** The seven header fields, where they are. */
  lemma HeaderLayout(r: Record, h: seq<byte>)
    requires h == Header(r)
    ensures h[0..8] == Le(r.captureIndex, 8) && h[8..16] == Le(r.monotonicNs, 8)
    ensures h[16..24] == Le(ToUnsigned(r.utcNs), 8) && h[24..32] == Le(r.connectionId, 8)
    ensures h[32] == r.direction && h[33] == r.kind && h[34..38] == Le(|r.payload|, 4)
  {
    hide Le;
  }

  lemma FrameLayout(r: Record, f: seq<byte>)
    requires f == Encode(r)
    ensures |f| == HEADER_SIZE + |r.payload| + 4
    ensures f[..HEADER_SIZE] == Header(r) && f[HEADER_SIZE..|f| - 4] == r.payload
    ensures f[..|f| - 4] == Body(r) && f[|f| - 4..] == Le(Checksum(Body(r)), 4)
  {
    hide Header, Le, Checksum;
  }

  lemma ChecksumFits(bytes: seq<byte>)
    ensures Checksum(bytes) < U32
  {
    Pow2Is32And64();
    NotFits(Register(ONES, bytes), 32);
  }

  lemma ReadLe(bytes: seq<byte>, offset: nat, v: nat, width: nat)
    requires offset + width <= |bytes| && bytes[offset..offset + width] == Le(v, width) && v < Pow256(width)
    ensures ReadAt(bytes, offset, width) == v
  {
    UnLeOfLe(v, width);
  }

  /** Slices of a prefix are slices of the whole. */
  lemma SliceOfPrefix(f: seq<byte>, n: nat, a: nat, b: nat)
    requires a <= b <= n <= |f|
    ensures f[..n][a..b] == f[a..b]
  {
  }

  lemma HeaderFields(r: Record, f: seq<byte>)
    requires |f| >= HEADER_SIZE && f[..HEADER_SIZE] == Header(r)
    ensures ReadWord(f, 0) == r.captureIndex && ReadWord(f, 8) == r.monotonicNs
    ensures ReadWord(f, 16) == ToUnsigned(r.utcNs) && ReadWord(f, 24) == r.connectionId
    ensures f[32] == r.direction && f[33] == r.kind
    ensures |r.payload| < U32 ==> ReadAt(f, 34, 4) == |r.payload|
  {
    hide Header, Le, UnLe, ToUnsigned;
    var h := f[..HEADER_SIZE];
    HeaderLayout(r, h);
    Pow256Values();
    SliceOfPrefix(f, HEADER_SIZE, 0, 8);
    SliceOfPrefix(f, HEADER_SIZE, 8, 16);
    SliceOfPrefix(f, HEADER_SIZE, 16, 24);
    SliceOfPrefix(f, HEADER_SIZE, 24, 32);
    SliceOfPrefix(f, HEADER_SIZE, 34, 38);
    ReadLe(f, 0, r.captureIndex, 8);
    ReadLe(f, 8, r.monotonicNs, 8);
    ReadLe(f, 16, ToUnsigned(r.utcNs), 8);
    ReadLe(f, 24, r.connectionId, 8);
    if |r.payload| < U32 { ReadLe(f, 34, |r.payload|, 4); }
  }

  lemma EncodedChecksumMatches(r: Record)
    ensures var f := Encode(r); |f| >= 4 && Checksum(f[..|f| - 4]) == ReadAt(f, |f| - 4, 4)
  {
    hide Header, Le, UnLe, Checksum, Encode;
    var f := Encode(r);
    FrameLayout(r, f);
    ChecksumFits(Body(r));
    Pow256Values();
    assert f[|f| - 4..|f| - 4 + 4] == f[|f| - 4..];
    ReadLe(f, |f| - 4, Checksum(Body(r)), 4);
  }

  lemma EncodedLength(r: Record)
    ensures var f := Encode(r); |f| >= HEADER_SIZE + 4 && ReadAt(f, 34, 4) == |r.payload| % U32
  {
    hide Header, Le, UnLe, Checksum, Encode;
    var f := Encode(r);
    FrameLayout(r, f);
    HeaderLayout(r, f[..HEADER_SIZE]);
    SliceOfPrefix(f, HEADER_SIZE, 34, 38);
    Pow256Values();
    LowBytes(|r.payload|, 4);
  }

  /** Reading back a truncated number gives its remainder. */
  lemma {:induction false} LowBytes(v: nat, k: nat)
    ensures UnLe(Le(v, k)) == v % Pow256(k)
  {
    if k == 0 {
    } else {
      LowBytes(v / 256, k - 1);
      assert Le(v, k)[1..] == Le(v / 256, k - 1);
      ByteOfMod(v, Pow256(k - 1));
    }
  }

  lemma ByteOfMod(v: nat, m: nat)
    requires m > 0
    ensures v % (256 * m) == 256 * ((v / 256) % m) + v % 256
  {
    var h := v / 256;
    var q, r := h / m, h % m;
    assert h == q * m + r;
    assert q * (256 * m) == 256 * (q * m);
    DivModUnique(v, 256 * m, q, 256 * r + v % 256);
  }

  /** A frame decodes to the record it was encoded from exactly when its payload is within the limit. */
  lemma RoundTrip(r: Record)
    ensures Decode(Encode(r)) == if |r.payload| <= MAX_PAYLOAD then Some(r) else None
  {
    hide Header, Le, UnLe, Checksum, Encode, ToUnsigned, ToSigned;
    var f := Encode(r);
    FrameLayout(r, f);
    EncodedChecksumMatches(r);
    EncodedLength(r);
    HeaderFields(r, f);
    SignRoundTrip(r.utcNs, 0);
  }

  lemma PiecesOfHeader(h: seq<byte>)
    requires |h| == HEADER_SIZE
    ensures h == h[0..8] + h[8..16] + h[16..24] + h[24..32] + [h[32]] + [h[33]] + h[34..38]
  {
  }

  lemma WriteRead(bytes: seq<byte>, offset: nat, width: nat)
    requires offset + width <= |bytes|
    ensures Le(ReadAt(bytes, offset, width), width) == bytes[offset..offset + width]
  {
    LeOfUnLe(bytes[offset..offset + width]);
  }

  /** Every byte string that decodes is the encoding of what it decodes to. */
  lemma DecodedIsEncoded(bytes: seq<byte>)
    requires Decode(bytes).Some?
    ensures Encode(Decode(bytes).value) == bytes && |Decode(bytes).value.payload| <= MAX_PAYLOAD
  {
    hide Le, UnLe, Checksum, ToUnsigned, ToSigned;
    var r := Decode(bytes).value;
    var h := bytes[..HEADER_SIZE];
    PiecesOfHeader(h);
    assert h[0..8] == bytes[0..8] && h[8..16] == bytes[8..16] && h[16..24] == bytes[16..24];
    assert h[24..32] == bytes[24..32] && h[34..38] == bytes[34..38];
    WriteRead(bytes, 0, 8);
    WriteRead(bytes, 8, 8);
    WriteRead(bytes, 16, 8);
    WriteRead(bytes, 24, 8);
    WriteRead(bytes, 34, 4);
    WriteRead(bytes, |bytes| - 4, 4);
    SignRoundTrip(0, ReadWord(bytes, 16));
    assert Header(r) == h;
    assert Body(r) == bytes[..|bytes| - 4];
    assert bytes[|bytes| - 4..|bytes| - 4 + 4] == bytes[|bytes| - 4..];
    assert bytes == bytes[..|bytes| - 4] + bytes[|bytes| - 4..];
  }

  // ----- the loops

  method AppendLe(out: seq<byte>, value: nat, width: nat) returns (out': seq<byte>)
    ensures out' == out + Le(value, width)
  {
    hide Le;
    out' := out;
    var rest := value;
    for i := 0 to width
      invariant out' + Le(rest, width - i) == out + Le(value, width)
    {
      LeStep(rest, width - i);
      assert out' + ([rest % 256] + Le(rest / 256, width - i - 1))
          == (out' + [rest % 256]) + Le(rest / 256, width - i - 1);
      out' := out' + [rest % 256];
      rest := rest / 256;
    }
    assert out' + Le(rest, 0) == out';
  }

  method ReadLittleEndian(bytes: seq<byte>, offset: nat, width: nat) returns (value: nat)
    requires offset + width <= |bytes|
    ensures value == ReadAt(bytes, offset, width)
  {
    hide UnLe, Or;
    value := 0;
    ghost var s := bytes[offset..offset + width];
    assert s[..0] == [];
    UnLeOfNothing();
    for i := 0 to width
      invariant value == UnLe(s[..i])
    {
      assert s[..i + 1] == s[..i] + [bytes[offset + i]];
      UnLeSnoc(s[..i], bytes[offset + i]);
      UnLeFits(s[..i]);
      Pow256IsPow2(i);
      OrOfDisjoint(value, bytes[offset + i], 8 * i);
      value := Or(value, bytes[offset + i] * Pow2(8 * i));
    }
    assert s[..width] == s;
  }

  lemma UnLeOfNothing()
    ensures UnLe([]) == 0
  {
  }

  lemma {:induction false} UnLeSnoc(s: seq<byte>, b: byte)
    ensures UnLe(s + [b]) == UnLe(s) + b * Pow256(|s|)
  {
    if s == [] {
      assert [] + [b] == [b] && [b][1..] == [];
    } else {
      UnLeSnoc(s[1..], b);
      assert (s + [b])[1..] == s[1..] + [b];
      assert b * (256 * Pow256(|s| - 1)) == 256 * (b * Pow256(|s| - 1));
    }
  }

  lemma {:induction false} Pow256IsPow2(k: nat)
    ensures Pow256(k) == Pow2(8 * k)
  {
    if k == 0 {
    } else {
      Pow256IsPow2(k - 1);
      Pow2Splits(8, 8 * (k - 1));
      assert Pow2(8) == 256;
    }
  }

  lemma {:induction false} OrOfDisjoint(x: nat, y: nat, k: nat)
    requires x < Pow2(k)
    ensures Or(x, y * Pow2(k)) == x + y * Pow2(k)
  {
    hide Or;
    if k == 0 {
      OrWithZero(y);
    } else {
      var z := y * Pow2(k - 1);
      OrOfDisjoint(x / 2, y, k - 1);
      assert y * Pow2(k) == 2 * z;
      OrHalves(x, z);
    }
  }

  lemma OrWithZero(y: nat)
    ensures Or(0, y * Pow2(0)) == y * Pow2(0)
  {
  }

  lemma OrHalves(x: nat, z: nat)
    ensures Or(x, 2 * z) == 2 * Or(x / 2, z) + x % 2
  {
  }

  method EncodeRawFrame(r: Record) returns (out: seq<byte>)
    ensures out == Encode(r)
  {
    hide Le, Checksum;
    out := AppendLe([], r.captureIndex, 8);
    out := AppendLe(out, r.monotonicNs, 8);
    out := AppendLe(out, ToUnsigned(r.utcNs), 8);
    out := AppendLe(out, r.connectionId, 8);
    out := out + [r.direction];
    out := out + [r.kind];
    out := AppendLe(out, |r.payload| % U32, 4);
    SameLowBytes(|r.payload|);
    assert [] + Le(r.captureIndex, 8) == Le(r.captureIndex, 8);
    out := out + r.payload;
    var crc := Crc32c(out);
    out := AppendLe(out, crc, 4);
  }

  method DecodeRawFrame(bytes: seq<byte>) returns (r: Option<Record>)
    ensures r == Decode(bytes)
  {
    hide UnLe, Checksum;
    if |bytes| < HEADER_SIZE + 4 {
      return None;
    }
    var length := ReadLittleEndian(bytes, 34, 4);
    if length > MAX_PAYLOAD || |bytes| != HEADER_SIZE + length + 4 {
      return None;
    }
    var crc := Crc32c(bytes[..|bytes| - 4]);
    var trailer := ReadLittleEndian(bytes, |bytes| - 4, 4);
    if crc != trailer {
      return None;
    }
    var captureIndex := ReadU64(bytes, 0);
    var monotonicNs := ReadU64(bytes, 8);
    var connectionId := ReadU64(bytes, 24);
    var utcNs := ReadU64(bytes, 16);
    r := Some(Record(captureIndex, monotonicNs, connectionId, ToSigned(utcNs),
                     bytes[32], bytes[33], bytes[HEADER_SIZE..HEADER_SIZE + length]));
  }

  method ReadU64(bytes: seq<byte>, offset: nat) returns (value: Word)
    requires offset + 8 <= |bytes|
    ensures value == ReadWord(bytes, offset)
  {
    hide UnLe;
    WordFits(bytes[offset..offset + 8]);
    value := ReadLittleEndian(bytes, offset, 8);
  }

  lemma SameLowBytes(v: nat)
    ensures Le(v % U32, 4) == Le(v, 4)
  {
    Pow256Values();
    LowBytes(v, 4);
    LowBytes(v % U32, 4);
    LeOfUnLe(Le(v, 4));
    LeOfUnLe(Le(v % U32, 4));
  }
}
