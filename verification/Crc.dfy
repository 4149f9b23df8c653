/**
  The CRC family of src/crc.c: a table-driven CRC-16, a table-driven CRC-32, a CRC-16 without table,
  and the pair that appends and checks two CRC bytes.

  Registers are 64-bit words, like `ulong_t`; a `ushort_t` is one below 0x10000.  A message is a sequence
  of bytes.
 */
module Crc {
  import Gf2
  import opened Words
  import opened CrcTables

  type Ushort = w: bv64 | w < 0x1_0000

  const CRC_ISO_3309: Ushort := 0xFFFF

  /** The reference: each byte is xored into the register and then shifted out by eight steps. */
  function Register(poly: bv64, seed: bv64, m: seq<Byte>): bv64 {
    if m == [] then seed
    else Octet(poly, Xor(Register(poly, seed, m[..|m| - 1]), m[|m| - 1]))
  }

  // ----- crc16_*, crc32_*

  /** crc16_update: one table lookup does the work of eight steps. */
  function Crc16Update(crc16: Ushort, next: Byte): (r: Ushort)
    ensures r == Octet(POLY16, Xor(crc16, next))
  {
    UpdateIsOctet(crc16, next);
    XorByte(LowByte(crc16), next);
    Xor(Crc16Table(Xor(LowByte(crc16), next)), Shr8(crc16))
  }

  method Crc16Calculate(seed16: Ushort, data: seq<Byte>) returns (crc16: Ushort)
    ensures crc16 == Register(POLY16, seed16, data)
  {
    hide Octet, Xor, Crc16Update;
    crc16 := seed16;
    for i := 0 to |data|
      invariant crc16 == Register(POLY16, seed16, data[..i])
    {
      assert data[..i + 1][..i] == data[..i];
      crc16 := Crc16Update(crc16, data[i]);
    }
    assert data[..|data|] == data;
  }

  /** crc32_update, which takes its byte as a `ulong_t`: only the low eight bits matter. */
  function Crc32Update(crc32: bv64, next: bv64): (r: bv64)
    ensures r == Octet(POLY32, Xor(crc32, LowByte(next)))
  {
    Update32IsOctet(crc32, next);
    Xor(Crc32Table(LowByte(Xor(crc32, next))), Shr8(crc32))
  }

  method Crc32Calculate(seed32: bv64, data: seq<Byte>) returns (crc: bv64)
    ensures crc == Xor(Register(POLY32, seed32, data), seed32)
  {
    hide Octet, Xor, Crc32Update;
    var crc32 := seed32;
    for i := 0 to |data|
      invariant crc32 == Register(POLY32, seed32, data[..i])
    {
      assert data[..i + 1][..i] == data[..i];
      LowByteOfByte(data[i]);
      crc32 := Crc32Update(crc32, data[i]);
    }
    assert data[..|data|] == data;
    return Xor(crc32, seed32);
  }

  lemma XorByte(a: Byte, b: Byte)
    ensures Xor(a, b) < 0x100
  {
    LowByteXor(a, b);
    assert LowByte(a) == a;
  }

  lemma UpdateIsOctet(crc16: Ushort, next: Byte)
    ensures Xor(LowByte(crc16), next) < 0x100
    ensures Xor(Crc16Table(Xor(LowByte(crc16), next)), Shr8(crc16)) == Octet(POLY16, Xor(crc16, next))
    ensures Octet(POLY16, Xor(crc16, next)) < 0x1_0000
  {
    hide Octet, Xor, LowByte, Shr8, Crc16Table;
    XorByte(LowByte(crc16), next);
    OctetSplit(POLY16, Xor(crc16, next));
    LowByteXor(crc16, next);
    Shr8Xor(crc16, next);
    Table16IsOctet(Xor(LowByte(crc16), next));
    XorUshort(crc16, next);
    OctetUshort(Xor(crc16, next));
  }

  lemma Update32IsOctet(crc32: bv64, next: bv64)
    ensures Xor(Crc32Table(LowByte(Xor(crc32, next))), Shr8(crc32)) == Octet(POLY32, Xor(crc32, LowByte(next)))
  {
    hide Octet, Xor, LowByte, Shr8, Crc32Table;
    var low := LowByte(next);
    OctetSplit(POLY32, Xor(crc32, low));
    Shr8Xor(crc32, low);
    LowByteXor(crc32, low);
    MaskLinear(crc32, next);
    Table32IsOctet(LowByte(Xor(crc32, next)));
  }

  lemma LowByteOfByte(b: Byte)
    ensures LowByte(b) == b
  {
  }

  lemma XorUshort(a: Ushort, b: Ushort)
    ensures Xor(a, b) < 0x1_0000
  {
  }

  lemma OctetUshort(r: Ushort)
    ensures Octet(POLY16, r) < 0x1_0000
  {
  }

  // ----- csc_*: the CRC-16 without a table

  /** csc_update_crc, which reassigns its byte parameter. */
  method CscUpdateCrc(next: Byte, crc: Ushort) returns (r: Ushort)
    ensures r == Crc16Update(crc, next)
  {
    XorByte(next, LowByte(crc));
    var n: Byte := Xor(next, LowByte(crc));
    ghost var x := n;
    n := LowByte(Xor(n, n << 4));
    r := Xor(Xor(Xor(Shr8(crc), (n << 8) & 0xFFFF), n << 3), n >> 4) & 0xFFFF;
    CscIsTable(next, crc, x, n, r);
  }

  lemma CscIsTable(next: Byte, crc: Ushort, x: Byte, n: Byte, r: Ushort)
    requires x == Xor(next, LowByte(crc)) && n == LowByte(Xor(x, x << 4))
    requires r == Xor(Xor(Xor(Shr8(crc), (n << 8) & 0xFFFF), n << 3), n >> 4) & 0xFFFF
    ensures r == Crc16Update(crc, next)
  {
    TableIsCscByte(x);
    XorCommutes(next, LowByte(crc));
    CscByteAdded(crc, x, n, r);
  }

  lemma XorCommutes(a: bv64, b: bv64)
    ensures Xor(a, b) == Xor(b, a)
  {
  }

  lemma CscByteAdded(crc: Ushort, x: Byte, n: Byte, r: Ushort)
    requires n == LowByte(Xor(x, x << 4))
    requires r == Xor(Xor(Xor(Shr8(crc), (n << 8) & 0xFFFF), n << 3), n >> 4) & 0xFFFF
    ensures r == Xor(CscByte(x), Shr8(crc))
  {
    hide *;
    CscIs(x, n);
    Added(Shr8(crc), (n << 8) & 0xFFFF, n << 3, n >> 4);
    SpreadUshort(n);
    Shr8Byte(crc);
    XorUshort(CscByte(x), Shr8(crc));
    MaskNone(Xor(CscByte(x), Shr8(crc)));
  }

  lemma CscIs(x: Byte, n: Byte)
    requires n == LowByte(Xor(x, x << 4))
    ensures CscByte(x) == Spread(n) == Xor(Xor((n << 8) & 0xFFFF, n << 3), n >> 4)
  {
    hide Xor, LowByte;
  }

  lemma Added(s: bv64, a: bv64, b: bv64, c: bv64)
    ensures Xor(Xor(Xor(s, a), b), c) == Xor(Xor(Xor(a, b), c), s)
  {
    hide *;
    XorCommutes(s, a);
    XorSwap(a, s, b);
    XorSwap(Xor(a, b), s, c);
  }

  lemma XorSwap(a: bv64, b: bv64, c: bv64)
    ensures Xor(Xor(a, b), c) == Xor(Xor(a, c), b)
  {
    hide *;
    XorRegroup(a, b, c, 0);
    XorZeroRight(b);
    XorZeroRight(c);
  }

  lemma SpreadUshort(n: Byte)
    ensures Spread(n) < 0x1_0000
  {
  }

  lemma Shr8Byte(crc: Ushort)
    ensures Shr8(crc) < 0x100
  {
  }

  lemma MaskNone(v: Ushort)
    ensures v & 0xFFFF == v
  {
  }

  lemma {:induction false} RegisterUshort(seed: Ushort, m: seq<Byte>)
    ensures Register(POLY16, seed, m) < 0x1_0000
  {
    if m != [] {
      hide Octet, Xor;
      RegisterUshort(seed, m[..|m| - 1]);
      XorUshort(Register(POLY16, seed, m[..|m| - 1]), m[|m| - 1]);
      OctetUshort(Xor(Register(POLY16, seed, m[..|m| - 1]), m[|m| - 1]));
    }
  }

  function Register16(seed: Ushort, m: seq<Byte>): Ushort {
    RegisterUshort(seed, m);
    Register(POLY16, seed, m)
  }

  /** The C complement of a `ushort_t`, truncated back to one. */
  function Complement(crc: Ushort): Ushort {
    XorUshort(crc, 0xFFFF);
    Xor(crc, 0xFFFF)
  }

  /** What csc_compute_crc computes; in terms of crc16_calculate only when the seed is not zero. */
  function CscValue(seed16: Ushort, m: seq<Byte>): Ushort {
    if seed16 == CRC_ISO_3309 then Complement(Register16(seed16, m))
    else if seed16 == 0 then 0
    else Register16(seed16, m)
  }

  method CscComputeCrc(seed16: Ushort, data: seq<Byte>) returns (crc: Ushort)
    ensures crc == CscValue(seed16, data)
  {
    crc := seed16;
    if seed16 != 0 {
      for i := 0 to |data|
        invariant crc == Register(POLY16, seed16, data[..i])
      {
        assert data[..i + 1][..i] == data[..i];
        crc := CscUpdateCrc(data[i], crc);
      }
      assert data[..|data|] == data;
    }
    if seed16 == CRC_ISO_3309 {
      crc := Complement(crc);
    }
  }

  /** crc16_calculate, complemented for the ISO 3309 seed. */
  function TableValue(seed: Ushort, m: seq<Byte>): Ushort {
    if seed == CRC_ISO_3309 then Complement(Register16(seed, m)) else Register16(seed, m)
  }

  /** The two CRC-16 implementations agree on every message exactly when the seed is not zero. */
  lemma ImplementationsAgree(seed: Ushort)
    ensures seed != 0 <==> forall m: seq<Byte> :: CscValue(seed, m) == TableValue(seed, m)
  {
    if seed == 0 {
      var m: seq<Byte> := [0x01];
      assert m[..0] == [];
      assert Register(POLY16, 0, m) == Octet(POLY16, Xor(0, 0x01));
      assert Octet(POLY16, 0x01) == 0x1189;
      assert CscValue(seed, m) != TableValue(seed, m);
    }
  }

  // ----- the appended check bytes

  /** The two bytes csc_compute_append_crc stores, low byte first. */
  function CheckBytes(crc: Ushort): (b: seq<Byte>)
    ensures |b| == 2
  {
    [LowByte(crc), LowByte(Shr8(crc))]
  }

  method CscComputeAppendCrc(seed16: Ushort, data: array<Byte>, datasize: nat)
    requires datasize + 2 <= data.Length
    modifies data
    ensures data[..datasize] == old(data[..datasize])
    ensures data[datasize..datasize + 2] == CheckBytes(CscValue(seed16, old(data[..datasize])))
    ensures data[datasize + 2..] == old(data[datasize + 2..])
  {
    var crc := CscComputeCrc(seed16, data[..datasize]);
    data[datasize + 0] := LowByte(crc);
    data[datasize + 1] := LowByte(Shr8(crc));
  }

  /** csc_check_crc as a predicate: at least one data byte, followed by the bytes its CRC asks for. */
  predicate Accepts(seed16: Ushort, frame: seq<Byte>) {
    |frame| > 2
    && frame[|frame| - 2..] == CheckBytes(CscValue(seed16, frame[..|frame| - 2]))
  }

  method CscCheckCrc(seed16: Ushort, data: seq<Byte>) returns (ok: bool)
    ensures ok <==> Accepts(seed16, data)
  {
    var size := |data|;
    if size > 2 {
      var crc := CscComputeCrc(seed16, data[..size - 2]);
      var t1 := data[size - 2];
      var t2 := data[size - 1];
      assert data[size - 2..] == [t1, t2];
      if t1 == LowByte(crc) && t2 == LowByte(Shr8(crc)) {
        return true;
      }
    }
    return false;
  }

  /** What is appended is accepted, for any seed, exactly when there was something to protect. */
  lemma AppendedIsAccepted(seed: Ushort, m: seq<Byte>)
    ensures Accepts(seed, m + CheckBytes(CscValue(seed, m))) <==> m != []
  {
    var frame := m + CheckBytes(CscValue(seed, m));
    assert frame[..|frame| - 2] == m;
    assert frame[|frame| - 2..] == CheckBytes(CscValue(seed, m));
  }

  // ----- the check as a residue

  /** The register value every accepted frame leaves behind. */
  function Residue(seed: Ushort): Ushort {
    if seed == CRC_ISO_3309 then 0xF0B8 else 0
  }

  function Shl8(t: Byte): bv64 {
    t << 8
  }

  /** Two check bytes as the word they spell. */
  function Word(t1: Byte, t2: Byte): bv64 {
    Xor(Shl8(t2), t1)
  }

  lemma WordOfCheckBytes(t1: Byte, t2: Byte, crc: Ushort)
    ensures Word(t1, t2) < 0x1_0000
    ensures Word(t1, t2) == crc <==> t1 == LowByte(crc) && t2 == LowByte(Shr8(crc))
  {
    hide Xor, LowByte, Shr8, Shl8;
    HighByte(t2);
    LowByteKept(t1);
    XorUshort(Shl8(t2), t1);
    LowByteXor(Shl8(t2), t1);
    Shr8Xor(Shl8(t2), t1);
    Recombine(crc);
  }

  lemma HighByte(t: Byte)
    ensures Shl8(t) < 0x1_0000 && LowByte(Shl8(t)) == 0 && Shr8(Shl8(t)) == t && LowByte(t) == t
  {
  }

  lemma LowByteKept(t: Byte)
    ensures Xor(0, t) == t
  {
  }

  lemma Recombine(crc: Ushort)
    ensures Xor(Shl8(LowByte(Shr8(crc))), LowByte(crc)) == crc
  {
  }

  /** A byte fed one byte later is the same byte fed eight bits higher up. */
  lemma OctetHighByte(t: Byte)
    ensures Octet(POLY16, Shl8(t)) == t
  {
    var w: bv64 := Shl8(t);
    assert w & 0xFF == 0;
    OctetShifts(POLY16, w);
    assert w >> 8 == t;
  }

  lemma OctetShifts(poly: bv64, r: bv64)
    requires r & 0xFF == 0
    ensures Octet(poly, r) == r >> 8
  {
    assert Step(poly, r) == r >> 1;
    assert Step(poly, r >> 1) == r >> 2;
    assert Step(poly, r >> 2) == r >> 3;
    assert Step(poly, r >> 3) == r >> 4;
    assert Step(poly, r >> 4) == r >> 5;
    assert Step(poly, r >> 5) == r >> 6;
    assert Step(poly, r >> 6) == r >> 7;
    assert Step(poly, r >> 7) == r >> 8;
  }

  /** Feeding two bytes is adding their word to the register and stepping sixteen times. */
  lemma TwoOctets(r: Ushort, t1: Byte, t2: Byte)
    ensures Octet(POLY16, Xor(Octet(POLY16, Xor(r, t1)), t2)) == Octet(POLY16, Octet(POLY16, Xor(r, Word(t1, t2))))
  {
    hide Xor, Octet, Shl8;
    var high := Shl8(t2);
    OctetXor(POLY16, Xor(r, t1), high);
    OctetHighByte(t2);
    XorAssociates(r, t1, high);
    XorCommutes(t1, high);
  }

  lemma XorAssociates(a: bv64, b: bv64, c: bv64)
    ensures Xor(Xor(a, b), c) == Xor(a, Xor(b, c))
  {
    hide Xor, Bits;
    BitsXor(a, b);
    BitsXor(Xor(a, b), c);
    BitsXor(b, c);
    BitsXor(a, Xor(b, c));
    BitsEqual(Xor(Xor(a, b), c), Xor(a, Xor(b, c)));
  }

  lemma BitsUshort(r: Ushort)
    ensures Gf2.Below(Bits(r), 16)
  {
    hide Bits, Gf2.ShiftBy;
    BitsShift8(r);
    BitsShift8(Shr8(r));
    HighBytesZero(r);
    NoBits();
    Gf2.ShiftByAdd(Bits(r), 8, 8);
    Gf2.ShiftedOut(Bits(r), 16);
  }

  lemma HighBytesZero(r: Ushort)
    ensures Shr8(Shr8(r)) == 0
  {
  }

  lemma Generators()
    ensures Gf2.Generator(Bits(POLY16), 16) && Gf2.Generator(Bits(POLY32), 32)
  {
    BitsUshort(POLY16);
    assert BitAt(POLY16, Index(15));
    assert BitAt(POLY32, Index(31));
  }

  /** Stepping twice eight times loses nothing. */
  lemma OctetsInjective(a: Ushort, b: Ushort)
    requires Octet(POLY16, Octet(POLY16, a)) == Octet(POLY16, Octet(POLY16, b))
    ensures a == b
  {
    hide Bits, Octet, Xor;
    var d := Xor(a, b);
    XorUshort(a, b);
    OctetXor(POLY16, a, b);
    OctetXor(POLY16, Octet(POLY16, a), Octet(POLY16, b));
    BitsXor(Octet(POLY16, Octet(POLY16, a)), Octet(POLY16, Octet(POLY16, b)));
    Gf2.SumSelf(Bits(Octet(POLY16, Octet(POLY16, a))));
    assert Bits(Octet(POLY16, Octet(POLY16, d))) == {};
    BitsOctet(POLY16, d);
    BitsOctet(POLY16, Octet(POLY16, d));
    Generators();
    BitsUshort(d);
    Gf2.StepsZero(Bits(POLY16), 16, Bits(d), 8);
    Gf2.StepsZero(Bits(POLY16), 16, Bits(Octet(POLY16, d)), 8);
    NoBitsIsZero(d);
    XorZero(a, b);
  }

  /** For a nonzero seed, csc_check_crc accepts exactly the frames that leave the residue behind. */
  lemma AcceptsIsResidue(seed: Ushort, frame: seq<Byte>)
    requires seed != 0 && |frame| > 2
    ensures Accepts(seed, frame) <==> Register(POLY16, seed, frame) == Residue(seed)
  {
    hide Octet, Xor, Word, LowByte, Shr8;
    var m, t1, t2 := frame[..|frame| - 2], frame[|frame| - 2], frame[|frame| - 1];
    var r := Register16(seed, m);
    var mask: Ushort := if seed == CRC_ISO_3309 then 0xFFFF else 0;
    assert frame[|frame| - 2..] == [t1, t2];
    assert frame[..|frame| - 1][..|frame| - 2] == m;
    assert Register(POLY16, seed, frame)
        == Octet(POLY16, Xor(Octet(POLY16, Xor(r, t1)), t2));
    TwoOctets(r, t1, t2);
    ResidueOfMask(seed, mask);
    XorZeroRight(r);
    assert CscValue(seed, m) == Xor(r, mask);
    WordOfCheckBytes(t1, t2, Xor(r, mask));
    XorEqual(r, Word(t1, t2), mask);
    XorUshort(r, Word(t1, t2));
    if Register(POLY16, seed, frame) == Residue(seed) {
      OctetsInjective(Xor(r, Word(t1, t2)), mask);
    }
  }

  lemma XorZeroRight(a: bv64)
    ensures Xor(a, 0) == a
  {
  }

  lemma ResidueOfMask(seed: Ushort, mask: Ushort)
    requires mask == if seed == CRC_ISO_3309 then 0xFFFF else 0
    ensures Octet(POLY16, Octet(POLY16, mask)) == Residue(seed)
  {
    assert Octet(POLY16, 0xFFFF) == 0x0F87;
    assert Octet(POLY16, 0x0F87) == 0xF0B8;
    assert Octet(POLY16, 0) == 0;
  }

  // ----- error detection

  /** The message as the string of bits the register sees, least significant bit of each byte first. */
  function MessageBits(m: seq<Byte>): (bits: seq<bool>)
    ensures |bits| == 8 * |m|
  {
    if m == [] then []
    else MessageBits(m[..|m| - 1]) + Gf2.Coefficients(Bits(m[|m| - 1]), 8)
  }

  /** The register is the remainder register of polynomial division, clocked once per message bit. */
  lemma {:induction false} RegisterIsClocks(poly: bv64, seed: bv64, m: seq<Byte>)
    ensures Bits(Register(poly, seed, m)) == Gf2.ClockAll(Bits(poly), Bits(seed), MessageBits(m))
  {
    if m != [] {
      hide Octet, Xor, Bits;
      var n := |m| - 1;
      var r := Register(poly, seed, m[..n]);
      RegisterIsClocks(poly, seed, m[..n]);
      BitsOctet(poly, Xor(r, m[n]));
      BitsXor(r, m[n]);
      BitsByte(m[n]);
      Gf2.StepsAreClocks(Bits(poly), Bits(r), Bits(m[n]), 8);
      Gf2.ClockAllConcat(Bits(poly), Bits(seed), MessageBits(m[..n]), Gf2.Coefficients(Bits(m[n]), 8));
    }
  }

  lemma {:induction false} MessageBitsAt(m: seq<Byte>, k: nat)
    requires k < 8 * |m|
    ensures MessageBits(m)[k] <==> k % 8 in Bits(m[k / 8])
  {
    hide Bits;
    var n := |m| - 1;
    if k < 8 * n {
      MessageBitsAt(m[..n], k);
    } else {
      assert k / 8 == n && k % 8 == k - 8 * n;
    }
  }

  lemma MessageBitsInjective(a: seq<Byte>, b: seq<Byte>)
    requires MessageBits(a) == MessageBits(b)
    ensures a == b
  {
    assert |a| == |b|;
    forall j | 0 <= j < |a| ensures a[j] == b[j] {
      hide Bits, MessageBits;
      forall e: nat ensures e in Bits(a[j]) <==> e in Bits(b[j]) {
        if e < 8 {
          assert (8 * j + e) / 8 == j && (8 * j + e) % 8 == e;
          MessageBitsAt(a, 8 * j + e);
          MessageBitsAt(b, 8 * j + e);
        } else {
          BitsByte(a[j]);
          BitsByte(b[j]);
        }
      }
      BitsEqual(a[j], b[j]);
    }
  }

  /** `a` and `b` are equally long and their bits differ, if at all, within `width` consecutive ones. */
  predicate WithinBurst(a: seq<Byte>, b: seq<Byte>, i: nat, width: nat) {
    Gf2.WithinBurst(MessageBits(a), MessageBits(b), i, width)
  }

  /** Differing only inside a window of `n` consecutive bytes is a burst of `8 * n` bits. */
  lemma WindowIsBurst(a: seq<Byte>, b: seq<Byte>, j: nat, n: nat)
    requires |a| == |b|
    requires forall k | 0 <= k < |a| && !(j <= k < j + n) :: a[k] == b[k]
    ensures WithinBurst(a, b, 8 * j, 8 * n)
  {
    forall k | 0 <= k < 8 * |a| && !(8 * j <= k < 8 * j + 8 * n)
      ensures MessageBits(a)[k] == MessageBits(b)[k]
    {
      MessageBitsAt(a, k);
      MessageBitsAt(b, k);
    }
  }

  lemma RegisterDetects(poly: bv64, degree: nat, seed: bv64, a: seq<Byte>, b: seq<Byte>, i: nat)
    requires Gf2.Generator(Bits(poly), degree) && WithinBurst(a, b, i, degree)
    ensures Register(poly, seed, a) == Register(poly, seed, b) <==> a == b
  {
    if Register(poly, seed, a) == Register(poly, seed, b) {
      hide Bits, MessageBits, Register;
      RegisterIsClocks(poly, seed, a);
      RegisterIsClocks(poly, seed, b);
      Gf2.BurstDetected(Bits(poly), degree, Bits(seed), MessageBits(a), MessageBits(b), i);
      MessageBitsInjective(a, b);
    }
  }

  /** Any error within 16 consecutive bits, two bytes in particular, changes crc16_calculate. */
  lemma Crc16DetectsBurst(seed: Ushort, a: seq<Byte>, b: seq<Byte>, i: nat)
    requires WithinBurst(a, b, i, 16)
    ensures Register(POLY16, seed, a) == Register(POLY16, seed, b) <==> a == b
  {
    Generators();
    RegisterDetects(POLY16, 16, seed, a, b, i);
  }

  /** Any error within 32 consecutive bits, four bytes in particular, changes crc32_calculate. */
  lemma Crc32DetectsBurst(seed: bv64, a: seq<Byte>, b: seq<Byte>, i: nat)
    requires WithinBurst(a, b, i, 32)
    ensures Xor(Register(POLY32, seed, a), seed) == Xor(Register(POLY32, seed, b), seed) <==> a == b
  {
    Generators();
    RegisterDetects(POLY32, 32, seed, a, b, i);
    hide *;
    SeedCancels(seed, Register(POLY32, seed, a), Register(POLY32, seed, b));
  }

  // ----- errors one bit longer

  /** The bits in which two messages differ are those of the generator polynomial, moved to place `i`. */
  predicate DifferByGenerator(poly: bv64, degree: nat, a: seq<Byte>, b: seq<Byte>, i: nat)
    requires |a| == |b|
  {
    Gf2.IsGeneratorAt(Bits(poly), degree, Gf2.Difference(MessageBits(a), MessageBits(b)), i)
  }

  lemma SameRegister(poly: bv64, seed: bv64, a: seq<Byte>, b: seq<Byte>)
    ensures Register(poly, seed, a) == Register(poly, seed, b) <==>
      Gf2.ClockAll(Bits(poly), Bits(seed), MessageBits(a)) == Gf2.ClockAll(Bits(poly), Bits(seed), MessageBits(b))
  {
    hide Bits, MessageBits, Register;
    RegisterIsClocks(poly, seed, a);
    RegisterIsClocks(poly, seed, b);
    if Bits(Register(poly, seed, a)) == Bits(Register(poly, seed, b)) {
      BitsEqual(Register(poly, seed, a), Register(poly, seed, b));
    }
  }

  lemma RegisterCollides(poly: bv64, degree: nat, seed: bv64, a: seq<Byte>, b: seq<Byte>, i: nat)
    requires Gf2.Generator(Bits(poly), degree) && |a| == |b| && WithinBurst(a, b, i, degree + 1)
    ensures Register(poly, seed, a) == Register(poly, seed, b) <==> a == b || DifferByGenerator(poly, degree, a, b, i)
  {
    hide Bits, MessageBits, Register, Gf2.IsGeneratorAt, Gf2.Difference;
    SameRegister(poly, seed, a, b);
    Gf2.LongerBurst(Bits(poly), degree, Bits(seed), MessageBits(a), MessageBits(b), i);
    if MessageBits(a) == MessageBits(b) {
      MessageBitsInjective(a, b);
    }
  }

  /**
    One bit more: messages that differ within 17 bits have the same CRC-16 exactly if they are equal or
    differ by the generator polynomial, whatever the seed.
   */
  lemma Crc16Collides(seed: Ushort, a: seq<Byte>, b: seq<Byte>, i: nat)
    requires |a| == |b| && WithinBurst(a, b, i, 17)
    ensures Register(POLY16, seed, a) == Register(POLY16, seed, b) <==>
      a == b || DifferByGenerator(POLY16, 16, a, b, i)
  {
    Generators();
    RegisterCollides(POLY16, 16, seed, a, b, i);
  }

  /** Likewise for 33 bits and the CRC-32. */
  lemma Crc32Collides(seed: bv64, a: seq<Byte>, b: seq<Byte>, i: nat)
    requires |a| == |b| && WithinBurst(a, b, i, 33)
    ensures Xor(Register(POLY32, seed, a), seed) == Xor(Register(POLY32, seed, b), seed) <==>
      a == b || DifferByGenerator(POLY32, 32, a, b, i)
  {
    Generators();
    RegisterCollides(POLY32, 32, seed, a, b, i);
    hide *;
    SeedCancels(seed, Register(POLY32, seed, a), Register(POLY32, seed, b));
  }

  lemma SeedCancels(seed: bv64, r: bv64, s: bv64)
    ensures Xor(r, seed) == Xor(s, seed) <==> r == s
  {
    hide Xor;
    XorCommutes(r, seed);
    XorCommutes(s, seed);
    XorEqual(seed, r, Xor(seed, s));
    XorEqual(seed, s, Xor(seed, s));
  }

  /** The messages differ in an odd number of bits. */
  predicate OddError(a: seq<Byte>, b: seq<Byte>) {
    |a| == |b| && Gf2.OddOnes(Gf2.Difference(MessageBits(a), MessageBits(b)))
  }

  lemma OddGenerator()
    ensures Gf2.Odd(Bits(POLY16))
  {
    BitsUshort(POLY16);
    forall k: nat ensures k in Bits(POLY16) <==> k in {3, 10, 15} {
      match k {
        case 0 => case 1 => case 2 => case 3 => case 4 => case 5 => case 6 => case 7 =>
        case 8 => case 9 => case 10 => case 11 => case 12 => case 13 => case 14 => case 15 => case _ =>
      }
    }
    assert Bits(POLY16) == {3, 10, 15};
  }

  /** Any error in an odd number of bits changes crc16_calculate. */
  lemma Crc16DetectsOdd(seed: Ushort, a: seq<Byte>, b: seq<Byte>)
    requires OddError(a, b)
    ensures Register(POLY16, seed, a) != Register(POLY16, seed, b)
  {
    OddGenerator();
    hide Bits, MessageBits, Register, Gf2.Odd;
    SameRegister(POLY16, seed, a, b);
    Gf2.OddDetected(Bits(POLY16), Bits(seed), MessageBits(a), MessageBits(b));
  }

  /** Whether two messages of equal length collide does not depend on the seed. */
  lemma SeedDoesNotMatter(poly: bv64, seed: bv64, a: seq<Byte>, b: seq<Byte>)
    requires |a| == |b|
    ensures Register(poly, seed, a) == Register(poly, seed, b) <==> Register(poly, 0, a) == Register(poly, 0, b)
  {
    hide Bits, MessageBits, Register;
    SameRegister(poly, seed, a, b);
    SameRegister(poly, 0, a, b);
    Gf2.CollideByDifference(Bits(poly), Bits(seed), MessageBits(a), MessageBits(b));
    Gf2.CollideByDifference(Bits(poly), Bits(0), MessageBits(a), MessageBits(b));
  }

  // ----- the check

  /** An accepted frame with any error within 16 consecutive bits is rejected. */
  lemma CheckRejectsBurst(seed: Ushort, a: seq<Byte>, b: seq<Byte>, i: nat)
    requires seed != 0 && a != b && WithinBurst(a, b, i, 16)
    ensures Accepts(seed, a) ==> !Accepts(seed, b)
  {
    if Accepts(seed, a) && |b| > 2 {
      hide Register;
      AcceptsIsResidue(seed, a);
      AcceptsIsResidue(seed, b);
      Crc16DetectsBurst(seed, a, b, i);
    }
  }

  /** An accepted frame with an odd number of bits wrong is rejected. */
  lemma CheckRejectsOdd(seed: Ushort, a: seq<Byte>, b: seq<Byte>)
    requires seed != 0 && OddError(a, b)
    ensures Accepts(seed, a) ==> !Accepts(seed, b)
  {
    hide Register, OddError;
    Crc16DetectsOdd(seed, a, b);
    if Accepts(seed, a) && |b| > 2 {
      AcceptsIsResidue(seed, a);
      AcceptsIsResidue(seed, b);
    }
  }

  /** With seed zero the check looks at nothing but the last two bytes. */
  lemma SeedZeroChecksNothing(frame: seq<Byte>)
    ensures Accepts(0, frame) <==> |frame| > 2 && frame[|frame| - 2] == 0 && frame[|frame| - 1] == 0
  {
    assert LowByte(0) == 0 && LowByte(Shr8(0)) == 0;
    if |frame| > 2 {
      assert frame[|frame| - 2..] == [frame[|frame| - 2], frame[|frame| - 1]];
    }
  }

  lemma {:induction false} ZeroMessage(poly: bv64, m: seq<Byte>)
    requires forall k | 0 <= k < |m| :: m[k] == 0
    ensures Register(poly, 0, m) == 0
  {
    if m != [] {
      ZeroMessage(poly, m[..|m| - 1]);
      OctetShifts(poly, 0);
      assert Xor(0, 0) == 0;
    }
  }

  lemma OnlyLowBit(e: nat)
    ensures e in Bits(1) <==> e == 0
  {
    BitsLowByte(1);
    assert LowByte(1) == 1;
    match e {
      case 0 => case 1 => case 2 => case 3 => case 4 => case 5 => case 6 => case 7 => case _ =>
    }
  }

  lemma NoBits()
    ensures Bits(0) == {}
  {
    hide Bits;
    assert Xor(0, 0) == 0;
    BitsXor(0, 0);
    Gf2.SumSelf(Bits(0));
  }

  /** Messages whose last bytes are 1 and 0 have the same bits after the first bit of those bytes. */
  lemma SameTail(a: seq<Byte>, b: seq<Byte>, k: nat)
    requires |a| == |b| > 0 && a[|a| - 1] == 1 && b[|b| - 1] == 0 && 8 * |a| - 7 <= k < 8 * |a|
    ensures MessageBits(a)[k] == MessageBits(b)[k]
  {
    hide Bits, MessageBits;
    MessageBitsAt(a, k);
    MessageBitsAt(b, k);
    OnlyLowBit(k % 8);
    NoBits();
  }

  /** One byte fed, the values of the steps given. */
  lemma Fed(poly: bv64, seed: bv64, m: seq<Byte>, k: nat, r: bv64, x: bv64, r': bv64)
    requires k < |m| && Register(poly, seed, m[..k]) == r && Xor(r, m[k]) == x && Octet(poly, x) == r'
    ensures Register(poly, seed, m[..k + 1]) == r'
  {
    hide Octet, Xor;
    assert m[..k + 1][..k] == m[..k];
  }

  lemma EmptyRegister(poly: bv64, seed: bv64, m: seq<Byte>)
    requires m == []
    ensures Register(poly, seed, m) == seed
  {
  }

  lemma Octets16()
    ensures Octet(POLY16, 0x11) == 0x108 && Octet(POLY16, 0x100) == 0x1 && Octet(POLY16, 0x0) == 0x0
  {
  }

  lemma Sums16()
    ensures Xor(0x0, 0x11) == 0x11 && Xor(0x108, 0x08) == 0x100 && Xor(0x1, 0x01) == 0x0
  {
  }

  lemma Crc16OfGenerator(m: seq<Byte>)
    requires m == [0x11, 0x08, 0x01]
    ensures Register(POLY16, 0, m) == 0
  {
    hide *;
    Octets16();
    Sums16();
    EmptyRegister(POLY16, 0, m[..0]);
    Fed(POLY16, 0, m, 0, 0x0, 0x11, 0x108);
    Fed(POLY16, 0, m, 1, 0x108, 0x100, 0x1);
    Fed(POLY16, 0, m, 2, 0x1, 0x0, 0x0);
    assert m[..3] == m;
  }

  /** There are such collisions, for every seed: the generator polynomial added to a message of zeros. */
  lemma Crc16MissesLongerBurst(seed: Ushort)
    ensures var a: seq<Byte>, b: seq<Byte> := [0x11, 0x08, 0x01], [0, 0, 0];
      WithinBurst(a, b, 0, 17) && Register(POLY16, seed, a) == Register(POLY16, seed, b)
  {
    hide Bits, MessageBits, Register, Octet;
    var a: seq<Byte>, b: seq<Byte> := [0x11, 0x08, 0x01], [0, 0, 0];
    Crc16OfGenerator(a);
    ZeroMessage(POLY16, b);
    SeedDoesNotMatter(POLY16, seed, a, b);
    forall k | 17 <= k < 24 ensures MessageBits(a)[k] == MessageBits(b)[k] {
      SameTail(a, b, k);
    }
  }

  lemma Octets32()
    ensures Octet(POLY32, 0x41) == 0x1DB7106 && Octet(POLY32, 0x1DB7100) == 0x1DB71
    ensures Octet(POLY32, 0x1DB00) == 0x1DB && Octet(POLY32, 0x100) == 0x1 && Octet(POLY32, 0x0) == 0x0
  {
  }

  lemma Sums32()
    ensures Xor(0x0, 0x41) == 0x41 && Xor(0x1DB7106, 0x06) == 0x1DB7100
    ensures Xor(0x1DB71, 0x71) == 0x1DB00 && Xor(0x1DB, 0xDB) == 0x100 && Xor(0x1, 0x01) == 0x0
  {
  }

  lemma Crc32OfGenerator(m: seq<Byte>)
    requires m == [0x41, 0x06, 0x71, 0xDB, 0x01]
    ensures Register(POLY32, 0, m) == 0
  {
    hide *;
    Octets32();
    Sums32();
    EmptyRegister(POLY32, 0, m[..0]);
    Fed(POLY32, 0, m, 0, 0x0, 0x41, 0x1DB7106);
    Fed(POLY32, 0, m, 1, 0x1DB7106, 0x1DB7100, 0x1DB71);
    Fed(POLY32, 0, m, 2, 0x1DB71, 0x1DB00, 0x1DB);
    Fed(POLY32, 0, m, 3, 0x1DB, 0x100, 0x1);
    Fed(POLY32, 0, m, 4, 0x1, 0x0, 0x0);
    assert m[..5] == m;
  }

  /** Likewise the 33-bit generator polynomial of the CRC-32. */
  lemma Crc32MissesLongerBurst(seed: bv64)
    ensures var a: seq<Byte>, b: seq<Byte> := [0x41, 0x06, 0x71, 0xDB, 0x01], [0, 0, 0, 0, 0];
      WithinBurst(a, b, 0, 33) && Register(POLY32, seed, a) == Register(POLY32, seed, b)
  {
    hide Bits, MessageBits, Register, Octet;
    var a: seq<Byte>, b: seq<Byte> := [0x41, 0x06, 0x71, 0xDB, 0x01], [0, 0, 0, 0, 0];
    Crc32OfGenerator(a);
    ZeroMessage(POLY32, b);
    SeedDoesNotMatter(POLY32, seed, a, b);
    forall k | 33 <= k < 40 ensures MessageBits(a)[k] == MessageBits(b)[k] {
      SameTail(a, b, k);
    }
  }

  // ----- the values, written out

  /** The seed decides: 0xFFFF complements, zero gives zero, any other the register itself (polynomial 0x8408). */
  lemma CscWritten(seed: Ushort, m: seq<Byte>)
    ensures CscValue(0xFFFF, m) == Xor(Register(0x8408, 0xFFFF, m), 0xFFFF)
    ensures CscValue(0, m) == 0
    ensures seed != 0 && seed != 0xFFFF ==> CscValue(seed, m) == Register(0x8408, seed, m)
  {
    hide Register;
  }

  /** The residue of an accepted frame: 0xF0B8 for the seed 0xFFFF, zero for any other but zero. */
  lemma ResidueWritten(seed: Ushort, frame: seq<Byte>)
    requires |frame| > 2
    ensures Accepts(0xFFFF, frame) <==> Register(0x8408, 0xFFFF, frame) == 0xF0B8
    ensures seed != 0 && seed != 0xFFFF ==> (Accepts(seed, frame) <==> Register(0x8408, seed, frame) == 0)
  {
    hide Register, Accepts;
    AcceptsIsResidue(0xFFFF, frame);
    if seed != 0 && seed != 0xFFFF {
      AcceptsIsResidue(seed, frame);
    }
  }

  lemma CheckSums16()
    ensures Xor(0xFFFF, 0x31) == 0xFFCE && Xor(0x2F8D, 0x32) == 0x2FBF && Xor(0x4D53, 0x33) == 0x4D60
    ensures Xor(0x634B, 0x34) == 0x637F && Xor(0x8B13, 0x35) == 0x8B26 && Xor(0x44BF, 0x36) == 0x4489
    ensures Xor(0x198D, 0x37) == 0x19BA && Xor(0x1AC8, 0x38) == 0x1AF0 && Xor(0xF795, 0x39) == 0xF7AC
  {
  }

  lemma CheckOctets16()
    ensures Octet(POLY16, 0xFFCE) == 0x2F8D && Octet(POLY16, 0x2FBF) == 0x4D53 && Octet(POLY16, 0x4D60) == 0x634B
    ensures Octet(POLY16, 0x637F) == 0x8B13 && Octet(POLY16, 0x8B26) == 0x44BF && Octet(POLY16, 0x4489) == 0x198D
    ensures Octet(POLY16, 0x19BA) == 0x1AC8 && Octet(POLY16, 0x1AF0) == 0xF795 && Octet(POLY16, 0xF7AC) == 0x6F91
  {
  }

  lemma CheckRegister16(m: seq<Byte>)
    requires m == [0x31, 0x32, 0x33, 0x34, 0x35, 0x36, 0x37, 0x38, 0x39]
    ensures Register(POLY16, 0xFFFF, m) == 0x6F91
  {
    hide *;
    CheckSums16();
    CheckOctets16();
    EmptyRegister(POLY16, 0xFFFF, m[..0]);
    Fed(POLY16, 0xFFFF, m, 0, 0xFFFF, 0xFFCE, 0x2F8D);
    Fed(POLY16, 0xFFFF, m, 1, 0x2F8D, 0x2FBF, 0x4D53);
    Fed(POLY16, 0xFFFF, m, 2, 0x4D53, 0x4D60, 0x634B);
    Fed(POLY16, 0xFFFF, m, 3, 0x634B, 0x637F, 0x8B13);
    Fed(POLY16, 0xFFFF, m, 4, 0x8B13, 0x8B26, 0x44BF);
    Fed(POLY16, 0xFFFF, m, 5, 0x44BF, 0x4489, 0x198D);
    Fed(POLY16, 0xFFFF, m, 6, 0x198D, 0x19BA, 0x1AC8);
    Fed(POLY16, 0xFFFF, m, 7, 0x1AC8, 0x1AF0, 0xF795);
    Fed(POLY16, 0xFFFF, m, 8, 0xF795, 0xF7AC, 0x6F91);
    assert m[..9] == m;
  }

  lemma CheckSums32()
    ensures Xor(0xFFFFFFFF, 0x31) == 0xFFFFFFCE && Xor(0x7C231048, 0x32) == 0x7C23107A
    ensures Xor(0xB0ACBB32, 0x33) == 0xB0ACBB01
    ensures Xor(0x77B79C2D, 0x34) == 0x77B79C19 && Xor(0x641C1F5C, 0x35) == 0x641C1F69
    ensures Xor(0x340AC5E3, 0x36) == 0x340AC5D5
    ensures Xor(0xF68D2C9E, 0x37) == 0xF68D2CA9 && Xor(0xAFFC9660, 0x38) == 0xAFFC9658
    ensures Xor(0x651F2550, 0x39) == 0x651F2569
  {
  }

  lemma CheckOctets32()
    ensures Octet(POLY32, 0xFFFFFFCE) == 0x7C231048 && Octet(POLY32, 0x7C23107A) == 0xB0ACBB32
    ensures Octet(POLY32, 0xB0ACBB01) == 0x77B79C2D
    ensures Octet(POLY32, 0x77B79C19) == 0x641C1F5C && Octet(POLY32, 0x641C1F69) == 0x340AC5E3
    ensures Octet(POLY32, 0x340AC5D5) == 0xF68D2C9E
    ensures Octet(POLY32, 0xF68D2CA9) == 0xAFFC9660 && Octet(POLY32, 0xAFFC9658) == 0x651F2550
    ensures Octet(POLY32, 0x651F2569) == 0x340BC6D9
  {
  }

  lemma CheckRegister32(m: seq<Byte>)
    requires m == [0x31, 0x32, 0x33, 0x34, 0x35, 0x36, 0x37, 0x38, 0x39]
    ensures Register(POLY32, 0xFFFFFFFF, m) == 0x340BC6D9
  {
    hide *;
    CheckSums32();
    CheckOctets32();
    EmptyRegister(POLY32, 0xFFFFFFFF, m[..0]);
    Fed(POLY32, 0xFFFFFFFF, m, 0, 0xFFFFFFFF, 0xFFFFFFCE, 0x7C231048);
    Fed(POLY32, 0xFFFFFFFF, m, 1, 0x7C231048, 0x7C23107A, 0xB0ACBB32);
    Fed(POLY32, 0xFFFFFFFF, m, 2, 0xB0ACBB32, 0xB0ACBB01, 0x77B79C2D);
    Fed(POLY32, 0xFFFFFFFF, m, 3, 0x77B79C2D, 0x77B79C19, 0x641C1F5C);
    Fed(POLY32, 0xFFFFFFFF, m, 4, 0x641C1F5C, 0x641C1F69, 0x340AC5E3);
    Fed(POLY32, 0xFFFFFFFF, m, 5, 0x340AC5E3, 0x340AC5D5, 0xF68D2C9E);
    Fed(POLY32, 0xFFFFFFFF, m, 6, 0xF68D2C9E, 0xF68D2CA9, 0xAFFC9660);
    Fed(POLY32, 0xFFFFFFFF, m, 7, 0xAFFC9660, 0xAFFC9658, 0x651F2550);
    Fed(POLY32, 0xFFFFFFFF, m, 8, 0x651F2550, 0x651F2569, 0x340BC6D9);
    assert m[..9] == m;
  }

  /**
    The check values of the two CRCs, those of the text "123456789": 0x906E for the complemented CRC-16
    with seed 0xFFFF, 0xCBF43926 for the CRC-32 with seed 0xFFFFFFFF.
   */
  lemma CheckValues(m: seq<Byte>)
    requires m == [0x31, 0x32, 0x33, 0x34, 0x35, 0x36, 0x37, 0x38, 0x39]
    ensures CscValue(0xFFFF, m) == 0x906E
    ensures Xor(Register(0xEDB8_8320, 0xFFFF_FFFF, m), 0xFFFF_FFFF) == 0xCBF43926
  {
    CheckRegister16(m);
    CheckRegister32(m);
    hide Register;
    CscWritten(1, m);
    assert Xor(0x6F91, 0xFFFF) == 0x906E && Xor(0x340BC6D9, 0xFFFF_FFFF) == 0xCBF43926;
  }
}
