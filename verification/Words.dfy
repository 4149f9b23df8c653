/**
  Machine words: a 64-bit word as the polynomial of its set bits, and the C operators on words as
  operations on polynomials.  Also the bitwise reference step of the two CRCs.
 */
module Words {
  import Gf2

  type Byte = b: bv64 | b < 0x100

  // ----- the C operators on unsigned words

  function Xor(a: bv64, b: bv64): bv64 {
    a ^ b
  }

  function Shr8(x: bv64): bv64 {
    x >> 8
  }

  function LowByte(x: bv64): Byte {
    x & 0xFF
  }

  // ----- bits

  predicate BitAt(x: bv64, i: bv64)
    requires i <= 64
  {
    (x >> i) & 1 != x & 0
  }

  /** The natural number `k` as a shift distance; all distances from 64 up are one. */
  function Index(k: nat): (i: bv64)
    ensures i <= 64
  {
    match k
    case 0 => 0 case 1 => 1 case 2 => 2 case 3 => 3 case 4 => 4 case 5 => 5 case 6 => 6 case 7 => 7
    case 8 => 8 case 9 => 9 case 10 => 10 case 11 => 11 case 12 => 12 case 13 => 13 case 14 => 14 case 15 => 15
    case 16 => 16 case 17 => 17 case 18 => 18 case 19 => 19 case 20 => 20 case 21 => 21 case 22 => 22 case 23 => 23
    case 24 => 24 case 25 => 25 case 26 => 26 case 27 => 27 case 28 => 28 case 29 => 29 case 30 => 30 case 31 => 31
    case 32 => 32 case 33 => 33 case 34 => 34 case 35 => 35 case 36 => 36 case 37 => 37 case 38 => 38 case 39 => 39
    case 40 => 40 case 41 => 41 case 42 => 42 case 43 => 43 case 44 => 44 case 45 => 45 case 46 => 46 case 47 => 47
    case 48 => 48 case 49 => 49 case 50 => 50 case 51 => 51 case 52 => 52 case 53 => 53 case 54 => 54 case 55 => 55
    case 56 => 56 case 57 => 57 case 58 => 58 case 59 => 59 case 60 => 60 case 61 => 61 case 62 => 62 case 63 => 63
    case _ => 64
  }

  predicate Bit(x: bv64, k: nat) {
    BitAt(x, Index(k))
  }

  /** The exponents of the bits set in `x`. */
  function Bits(x: bv64): Gf2.Poly {
    set k: nat | k < 64 && Bit(x, k)
  }

  lemma IndexNext(k: nat)
    requires k < 64
    ensures Index(k) < 64 && Index(k + 1) == Index(k) + 1
  {
    match k {
      case 0 => case 1 => case 2 => case 3 => case 4 => case 5 => case 6 => case 7 =>
      case 8 => case 9 => case 10 => case 11 => case 12 => case 13 => case 14 => case 15 =>
      case 16 => case 17 => case 18 => case 19 => case 20 => case 21 => case 22 => case 23 =>
      case 24 => case 25 => case 26 => case 27 => case 28 => case 29 => case 30 => case 31 =>
      case 32 => case 33 => case 34 => case 35 => case 36 => case 37 => case 38 => case 39 =>
      case 40 => case 41 => case 42 => case 43 => case 44 => case 45 => case 46 => case 47 =>
      case 48 => case 49 => case 50 => case 51 => case 52 => case 53 => case 54 => case 55 =>
      case 56 => case 57 => case 58 => case 59 => case 60 => case 61 => case 62 => case 63 =>
    }
  }

  lemma BitAtXor(a: bv64, b: bv64, i: bv64)
    requires i <= 64
    ensures BitAt(a ^ b, i) <==> (BitAt(a, i) <==> !BitAt(b, i))
  {
  }

  lemma BitXor(a: bv64, b: bv64, k: nat)
    ensures Bit(a ^ b, k) <==> (Bit(a, k) <==> !Bit(b, k))
  {
    hide BitAt, Index;
    BitAtXor(a, b, Index(k));
  }

  lemma BitAtShift(x: bv64, i: bv64)
    requires i < 64
    ensures BitAt(x >> 1, i) <==> BitAt(x, i + 1)
  {
  }

  lemma BitAtEnd(x: bv64)
    ensures !BitAt(x, 64)
  {
  }

  lemma BitShift(x: bv64, k: nat)
    ensures Bit(x >> 1, k) <==> Bit(x, k + 1)
  {
    hide BitAt;
    if k < 64 {
      IndexNext(k);
      BitAtShift(x, Index(k));
    } else {
      BitAtEnd(x);
      BitAtEnd(x >> 1);
    }
  }

  lemma BitLowByte(x: bv64, k: nat)
    ensures Bit(x & 0xFF, k) <==> k < 8 && Bit(x, k)
  {
    match k {
      case 0 => case 1 => case 2 => case 3 => case 4 => case 5 => case 6 => case 7 =>
      case 8 => case 9 => case 10 => case 11 => case 12 => case 13 => case 14 => case 15 =>
      case 16 => case 17 => case 18 => case 19 => case 20 => case 21 => case 22 => case 23 =>
      case 24 => case 25 => case 26 => case 27 => case 28 => case 29 => case 30 => case 31 =>
      case 32 => case 33 => case 34 => case 35 => case 36 => case 37 => case 38 => case 39 =>
      case 40 => case 41 => case 42 => case 43 => case 44 => case 45 => case 46 => case 47 =>
      case 48 => case 49 => case 50 => case 51 => case 52 => case 53 => case 54 => case 55 =>
      case 56 => case 57 => case 58 => case 59 => case 60 => case 61 => case 62 => case 63 =>
      case _ =>
    }
  }

  // ----- the operators

  lemma BitsXor(a: bv64, b: bv64)
    ensures Bits(Xor(a, b)) == Gf2.Sum(Bits(a), Bits(b))
  {
    assert Xor(a, b) == a ^ b;
    hide Bit, Xor;
    forall k: nat | k < 64 ensures k in Bits(a ^ b) <==> k in Gf2.Sum(Bits(a), Bits(b)) {
      BitXor(a, b, k);
    }
  }

  lemma BitsShift(x: bv64)
    ensures Bits(x >> 1) == Gf2.Shift(Bits(x))
  {
    hide Bit;
    forall k: nat | k < 64 ensures k in Bits(x >> 1) <==> k in Gf2.Shift(Bits(x)) {
      BitShift(x, k);
      if k == 63 {
        TopBit(x, 64);
      }
    }
  }

  lemma TopBit(x: bv64, k: nat)
    requires k >= 64
    ensures !Bit(x, k)
  {
    BitAtEnd(x);
  }

  lemma BitsShift8(x: bv64)
    ensures Bits(Shr8(x)) == Gf2.ShiftBy(Bits(x), 8)
  {
    BitsShift4(x);
    BitsShift4(x >> 4);
    hide Bits, Gf2.ShiftBy;
    assert (x >> 4) >> 4 == x >> 8;
    Gf2.ShiftByAdd(Bits(x), 4, 4);
  }

  lemma BitsShift4(x: bv64)
    ensures Bits(x >> 4) == Gf2.ShiftBy(Bits(x), 4)
  {
    BitsShift2(x);
    BitsShift2(x >> 2);
    hide Bits, Gf2.ShiftBy;
    assert (x >> 2) >> 2 == x >> 4;
    Gf2.ShiftByAdd(Bits(x), 2, 2);
  }

  lemma BitsShift2(x: bv64)
    ensures Bits(x >> 2) == Gf2.ShiftBy(Bits(x), 2)
  {
    BitsShift(x);
    BitsShift(x >> 1);
    hide Bits;
    assert (x >> 1) >> 1 == x >> 2;
    assert Gf2.ShiftBy(Bits(x), 2) == Gf2.Shift(Gf2.Shift(Bits(x)));
  }

  lemma NoLowByte(x: bv64)
    requires Bits(x) == {}
    ensures x & 0xFF == 0 && Bits(Shr8(x)) == {}
  {
    assert !Bit(x, 0) && !Bit(x, 1) && !Bit(x, 2) && !Bit(x, 3) by {
      assert 0 !in Bits(x) && 1 !in Bits(x) && 2 !in Bits(x) && 3 !in Bits(x);
    }
    assert !Bit(x, 4) && !Bit(x, 5) && !Bit(x, 6) && !Bit(x, 7) by {
      assert 4 !in Bits(x) && 5 !in Bits(x) && 6 !in Bits(x) && 7 !in Bits(x);
    }
    BitsShift8(x);
  }

  /** Byte by byte: a word without bits has only zero bytes. */
  lemma NoBitsIsZero(x: bv64)
    requires Bits(x) == {}
    ensures x == 0
  {
    hide Bits;
    var x1 := Shr8(x);
    var x2 := Shr8(x1);
    var x3 := Shr8(x2);
    var x4 := Shr8(x3);
    var x5 := Shr8(x4);
    var x6 := Shr8(x5);
    var x7 := Shr8(x6);
    NoLowByte(x);
    NoLowByte(x1);
    NoLowByte(x2);
    NoLowByte(x3);
    NoLowByte(x4);
    NoLowByte(x5);
    NoLowByte(x6);
    NoLowByte(x7);
  }

  lemma BitsEqual(a: bv64, b: bv64)
    requires Bits(a) == Bits(b)
    ensures a == b
  {
    hide Bits, Xor;
    BitsXor(a, b);
    Gf2.SumSelf(Bits(a));
    NoBitsIsZero(Xor(a, b));
    XorZero(a, b);
  }

  lemma XorZero(a: bv64, b: bv64)
    requires Xor(a, b) == 0
    ensures a == b
  {
  }

  lemma BitsLowByte(x: bv64)
    ensures Bits(LowByte(x)) == Gf2.Low(Bits(x), 8)
  {
    hide Bit;
    forall k: nat | k < 64 ensures k in Bits(x & 0xFF) <==> k in Gf2.Low(Bits(x), 8) {
      BitLowByte(x, k);
    }
  }

  // ----- the bitwise step: section 8 of RFC 1952, Appendix C of RFC 1662

  function Step(poly: bv64, r: bv64): bv64 {
    if r & 1 != r & 0 then poly ^ (r >> 1) else r >> 1
  }

  /** Eight steps: what one message byte does to the register once it has been xored in. */
  function Octet(poly: bv64, r: bv64): bv64 {
    Step(poly, Step(poly, Step(poly, Step(poly, Step(poly, Step(poly, Step(poly, Step(poly, r))))))))
  }

  lemma BitsStep(poly: bv64, r: bv64)
    ensures Bits(Step(poly, r)) == Gf2.Step(Bits(poly), Bits(r))
  {
    assert r & 1 != r & 0 <==> 0 in Bits(r) by {
      assert BitAt(r, 0) <==> (r >> 0) & 1 != r & 0;
    }
    assert Xor(poly, r >> 1) == poly ^ (r >> 1);
    hide Bit, Xor;
    BitsShift(r);
    BitsXor(poly, r >> 1);
  }

  lemma BitsOctet(poly: bv64, r: bv64)
    ensures Bits(Octet(poly, r)) == Gf2.Steps(Bits(poly), Bits(r), 8)
  {
    hide Bits, Step, Gf2.Step;
    var r1 := Step(poly, r);
    var r2 := Step(poly, r1);
    var r3 := Step(poly, r2);
    var r4 := Step(poly, r3);
    var r5 := Step(poly, r4);
    var r6 := Step(poly, r5);
    var r7 := Step(poly, r6);
    BitsStep(poly, r);
    BitsStep(poly, r1);
    BitsStep(poly, r2);
    BitsStep(poly, r3);
    BitsStep(poly, r4);
    BitsStep(poly, r5);
    BitsStep(poly, r6);
    BitsStep(poly, r7);
    assert Gf2.Steps(Bits(poly), Bits(r), 8) == Gf2.Steps(Bits(poly), Bits(r4), 4);
  }

  /** Only the low byte feeds back during eight steps, which is what makes a lookup table possible. */
  lemma OctetSplit(poly: bv64, r: bv64)
    ensures Octet(poly, r) == Xor(Octet(poly, LowByte(r)), Shr8(r))
  {
    hide Bits, Octet, Xor, Shr8, LowByte;
    var low := LowByte(r);
    var sum := Xor(Octet(poly, low), Shr8(r));
    BitsOctet(poly, r);
    BitsOctet(poly, low);
    BitsLowByte(r);
    BitsShift8(r);
    BitsXor(Octet(poly, low), Shr8(r));
    Gf2.StepsSplit(Bits(poly), Bits(r), 8);
    BitsEqual(Octet(poly, r), sum);
  }

  // ----- consequences used by the CRC code

  lemma XorEqual(a: bv64, b: bv64, c: bv64)
    ensures Xor(a, b) == c <==> b == Xor(a, c)
  {
    hide Bits, Xor;
    BitsXor(a, b);
    BitsXor(a, c);
    if Gf2.Sum(Bits(a), Bits(b)) == Bits(c) {
      Gf2.SumCancel(Bits(a), Bits(b), Bits(c));
      BitsEqual(b, Xor(a, c));
    }
    if Gf2.Sum(Bits(a), Bits(c)) == Bits(b) {
      Gf2.SumCancel(Bits(a), Bits(c), Bits(b));
      BitsEqual(c, Xor(a, b));
    }
  }

  lemma OctetXor(poly: bv64, a: bv64, b: bv64)
    ensures Octet(poly, Xor(a, b)) == Xor(Octet(poly, a), Octet(poly, b))
  {
    hide Bits, Octet, Xor;
    BitsXor(a, b);
    BitsXor(Octet(poly, a), Octet(poly, b));
    BitsOctet(poly, a);
    BitsOctet(poly, b);
    BitsOctet(poly, Xor(a, b));
    Gf2.StepsSum(Bits(poly), Bits(a), Bits(b), 8);
    BitsEqual(Octet(poly, Xor(a, b)), Xor(Octet(poly, a), Octet(poly, b)));
  }

  lemma BitsByte(b: Byte)
    ensures Gf2.Below(Bits(b), 8)
  {
    assert b & 0xFF == b;
    BitsLowByte(b);
  }

  lemma LowByteXor(x: bv64, b: Byte)
    ensures LowByte(Xor(x, b)) == Xor(LowByte(x), b)
  {
    hide Bits, Xor, LowByte, Gf2.Sum, Gf2.Low;
    BitsByte(b);
    BitsXor(x, b);
    BitsXor(LowByte(x), b);
    BitsLowByte(x);
    BitsLowByte(Xor(x, b));
    Gf2.LowSum(Bits(x), Bits(b), 8);
    BitsEqual(LowByte(Xor(x, b)), Xor(LowByte(x), b));
  }

  lemma Shr8Xor(x: bv64, b: Byte)
    ensures Shr8(Xor(x, b)) == Shr8(x)
  {
    hide Bits, Xor, Shr8, Gf2.Sum, Gf2.ShiftBy;
    BitsByte(b);
    BitsXor(x, b);
    BitsShift8(x);
    BitsShift8(Xor(x, b));
    Gf2.ShiftBySum(Bits(x), Bits(b), 8);
    BitsEqual(Shr8(Xor(x, b)), Shr8(x));
  }
}
