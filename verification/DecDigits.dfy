/**
  Decimal digits: dec_put and dec8_encode (src/encode.c:30-80, src/encode.c:204-231), dec8_decode
  (src/decode.c:549-578) and decb (src/objutils.c:295-306).
 */
module DecDigits {
  import opened Radix
  import opened MemFind
  import opened Codec
  import opened DigitRuns

  // ----- numerals

  /** decN. */
  function DecN(x: int): byte {
    if 0 <= x <= 9 then x + 48 else 63
  }

  /** The decimal digits of `v` without a leading zero; nothing at all for zero. */
  function Numeral(v: nat): (t: seq<byte>)
    ensures forall k | 0 <= k < |t| :: IsDec8(t[k])
  {
    var d := Reverse(Digits(v, 10));
    seq(|d|, k requires 0 <= k < |d| => DecN(d[k]))
  }

  lemma DecsNumeral(v: nat)
    ensures DigitsOf(Decimal, Numeral(v)) == Reverse(Digits(v, 10))
  {
  }

  /** Reading back what was printed, whatever follows the digits; zero is the empty numeral. */
  lemma PrintParse(v: nat, rest: seq<byte>)
    requires rest == [] || !IsDec8(rest[0])
    ensures var t := Numeral(v) + rest; t[..RunLength(Decimal, t, 0)] == Numeral(v)
    ensures NumberOf(Decimal, Numeral(v)) == v
    ensures Numeral(v) == [] <==> v == 0
    ensures v > 0 ==> Numeral(v)[0] != 48
  {
    NumeralValue(v);
    NumeralForm(v);
    hide *;
    NumeralIsGroup(v, rest);
    RunOf(Decimal, Numeral(v), rest);
    var t := Numeral(v) + rest;
    assert t[..|Numeral(v)|] == Numeral(v);
  }

  lemma NumeralIsGroup(v: nat, rest: seq<byte>)
    ensures IsGroup(Decimal, Numeral(v))
    ensures rest != [] ==> (Decimal.IsDigit(rest[0]) <==> IsDec8(rest[0]))
  {
  }

  lemma NumeralValue(v: nat)
    ensures NumberOf(Decimal, Numeral(v)) == v
  {
    DecsNumeral(v);
    BigIsReversedValue(Digits(v, 10), 10);
    DigitsValue(v, 10);
  }

  lemma NumeralForm(v: nat)
    ensures Numeral(v) == [] <==> v == 0
    ensures v > 0 ==> Numeral(v)[0] != 48
  {
  }

  /** Numeral and number determine each other, but for leading zeros. */
  lemma NumeralOfValue(g: seq<byte>)
    requires forall k | 0 <= k < |g| :: IsDec8(g[k])
    ensures Numeral(NumberOf(Decimal, g)) == g <==> g == [] || g[0] != 48
  {
    PrintParse(NumberOf(Decimal, g), []);
    if g == [] || g[0] != 48 {
      DigitsOfBig(DigitsOf(Decimal, g), 10);
      DecsNumeral(NumberOf(Decimal, g));
      hide Numeral;
      SameDigits(Numeral(NumberOf(Decimal, g)), g);
    }
  }

  /** What decb returns for a text of digits, as the argument of dec_put: 64 bits, then 32. */
  function Parsed(g: seq<byte>): u32 {
    NumberOf(Decimal, g) % U64 % U32
  }

  /**
    dec_put prints what decb has read of a text of digits exactly if the text does not start with a zero
    and its number fits 32 bits.
   */
  lemma ParsePrint(g: seq<byte>)
    requires forall k | 0 <= k < |g| :: IsDec8(g[k])
    ensures Numeral(Parsed(g)) == g <==> (g == [] || g[0] != 48) && NumberOf(Decimal, g) < U32
  {
    NumeralOfValue(g);
    NumeralValue(Parsed(g));
    Truncated(NumberOf(Decimal, g));
    hide *;
  }

  /** The first number too large: 4294967296 is printed as nothing. */
  lemma ParsePrintFails()
    ensures var g := Numeral(U32); g != [] && g[0] != 48 && Numeral(Parsed(g)) == []
  {
    hide Numeral, NumberOf;
    NumeralForm(U32);
    NumeralForm(0);
    NumeralValue(U32);
  }

  lemma Truncated(v: nat)
    ensures v % U64 % U32 == v <==> v < U32
  {
  }

  lemma SameDigits(a: seq<byte>, b: seq<byte>)
    requires DigitsOf(Decimal, a) == DigitsOf(Decimal, b)
    requires forall k | 0 <= k < |a| :: IsDec8(a[k])
    requires forall k | 0 <= k < |b| :: IsDec8(b[k])
    ensures a == b
  {
    forall k | 0 <= k < |a| ensures a[k] == b[k] {
      assert DigitsOf(Decimal, a)[k] == DigitsOf(Decimal, b)[k];
    }
  }

  /** decb: the number a text starts with, in 64 bits. */
  method DecB(p: seq<byte>) returns (x: u64)
    ensures x == NumberOf(Decimal, p[..RunLength(Decimal, p, 0)]) % U64
  {
    x := 0;
    assert p[0..0] == [];
    for i := 0 to |p|
      invariant i <= RunLength(Decimal, p, 0)
      invariant x == NumberOf(Decimal, p[0..i]) % U64
    {
      hide NumberOf, RunLength;
      if !IsDec8(p[i]) {
        assert p[0..i] == p[..RunLength(Decimal, p, 0)];
        break;
      }
      NumberSnoc(Decimal, p, 0, i);
      ModStep(NumberOf(Decimal, p[0..i]), 10, Dec8(p[i]), U64);
      x := (x as int * 10 + Dec8(p[i])) % U64;
    }
  }

  // ----- dec_put

  /** One more digit, least significant: nothing is printed as long as there are only zeros. */
  lemma NumeralSnoc(w: nat, d: nat)
    requires d < 10
    ensures Numeral(w * 10 + d) == if w == 0 && d == 0 then [] else Numeral(w) + [DecN(d)]
  {
    var v := w * 10 + d;
    if v > 0 {
      DivUnique(v, w, d, 10);
      assert Digits(v, 10) == [d] + Digits(w, 10);
      assert Reverse([d] + Digits(w, 10)) == Reverse(Digits(w, 10)) + [d];
    }
  }

  lemma NumeralLength(v: nat, w: nat)
    requires v <= w
    ensures |Numeral(v)| <= |Numeral(w)|
  {
    DigitsLengthMonotone(v, w, 10);
  }

  /** One digit of dec_put, the last one of `a`: printed if it is not zero or something has been printed. */
  method PutDigit(dst: Find, cpos: u64, d: nat, ghost a: nat, ghost vx: nat)
    requires d == a % 10 && a <= vx && dst.item != null && cpos + |Numeral(vx)| <= dst.item.Length < U64
    requires cpos <= dst.cpos <= dst.item.Length && dst.item[cpos..dst.cpos] == Numeral(a / 10)
    modifies dst`cpos, dst.item
    ensures dst.item[..cpos] == old(dst.item[..cpos])
    ensures cpos <= dst.cpos <= dst.item.Length && dst.item[cpos..dst.cpos] == Numeral(a)
  {
    hide Numeral, DecN;
    DigitCases(a, d, vx);
    var pdst := dst.item;
    if d != 0 || cpos != dst.cpos {
      pdst[dst.cpos] := DecN(d);
      dst.cpos := dst.cpos + 1;
      assert pdst[cpos..dst.cpos] == Numeral(a / 10) + [DecN(d)];
    }
  }

  lemma DigitCases(a: nat, d: nat, vx: nat)
    requires d == a % 10 && a <= vx
    ensures |Numeral(a)| <= |Numeral(vx)|
    ensures Numeral(a) == if Numeral(a / 10) == [] && d == 0 then [] else Numeral(a / 10) + [DecN(d)]
  {
    hide Numeral, DecN;
    NumeralLength(a, vx);
    NumeralForm(a / 10);
    NumeralSnoc(a / 10, d);
  }

  /** dec_put: the numeral of a 32-bit value is appended. */
  method DecPut(dst: Find, vx: u32)
    requires dst.item != null && dst.cpos + |Numeral(vx)| <= dst.item.Length < U64
    modifies dst`cpos, dst.item
    ensures dst.cpos == old(dst.cpos) + |Numeral(vx)|
    ensures dst.item[..dst.cpos] == old(dst.item[..dst.cpos]) + Numeral(vx)
  {
    hide Numeral;
    var a1 := vx / 10;
    var a2 := a1 / 10;
    var a3 := a2 / 10;
    var a4 := a3 / 10;
    var a5 := a4 / 10;
    var cpos := dst.cpos;
    ghost var before := dst.item[..cpos];
    PutUpper(dst, cpos, a5, vx);
    PutDigit(dst, cpos, a4 % 10, a4, vx);
    PutDigit(dst, cpos, a3 % 10, a3, vx);
    PutDigit(dst, cpos, a2 % 10, a2, vx);
    PutDigit(dst, cpos, a1 % 10, a1, vx);
    PutDigit(dst, cpos, vx % 10, vx, vx);
    assert dst.item[..dst.cpos] == dst.item[..cpos] + dst.item[cpos..dst.cpos];
  }

  /** The five upper digits of dec_put: those of the hundred thousands. */
  method PutUpper(dst: Find, cpos: u64, a5: nat, ghost vx: u32)
    requires a5 < 100000 && a5 <= vx && dst.item != null && cpos + |Numeral(vx)| <= dst.item.Length < U64
    requires dst.cpos == cpos
    modifies dst`cpos, dst.item
    ensures dst.item[..cpos] == old(dst.item[..cpos])
    ensures cpos <= dst.cpos <= dst.item.Length && dst.item[cpos..dst.cpos] == Numeral(a5)
  {
    hide Numeral;
    var a6 := a5 / 10;
    var a7 := a6 / 10;
    var a8 := a7 / 10;
    var a9 := a8 / 10;
    NumeralForm(a9 / 10);
    PutDigit(dst, cpos, a9, a9, vx);
    PutDigit(dst, cpos, a8 % 10, a8, vx);
    PutDigit(dst, cpos, a7 % 10, a7, vx);
    PutDigit(dst, cpos, a6 % 10, a6, vx);
    PutDigit(dst, cpos, a5 % 10, a5, vx);
  }

  // ----- dec8_encode

  function Separator(i: nat): seq<byte> {
    if i > 0 then [44, 32] else []
  }

  /** The text of the bytes from index `i` on; a zero byte leaves nothing between its separators. */
  function TextFrom(s: seq<byte>, i: nat): (t: seq<byte>)
    decreases |s| - i
  {
    if i >= |s| then [] else Separator(i) + Numeral(s[i]) + TextFrom(s, i + 1)
  }

  lemma TextUnfold(s: seq<byte>, i: nat)
    requires i < |s|
    ensures TextFrom(s, i) == Separator(i) + (Numeral(s[i]) + TextFrom(s, i + 1))
    ensures |Numeral(s[i])| <= 3
  {
    Regroup(Separator(i), Numeral(s[i]), TextFrom(s, i + 1));
    ShortNumeral(s[i]);
  }

  lemma ShortNumeral(b: byte)
    ensures |Numeral(b)| <= 3
  {
    NumeralSnoc(b / 10 / 10, b / 10 % 10);
    NumeralSnoc(b / 10, b % 10);
    NumeralSnoc(0, b / 10 / 10);
    NumeralForm(0);
    hide Numeral;
  }

  /** One turn of dec8_encode. */
  method EncodeByte(src: seq<byte>, i: nat, dst: Find)
    requires i < |src| && dst.item != null && dst.cpos + 5 <= dst.item.Length < U64
    modifies dst`cpos, dst.item
    ensures dst.cpos <= old(dst.cpos) + 5
    ensures var before := old(dst.item[..dst.cpos]) + TextFrom(src, i);
      dst.item[..dst.cpos] + TextFrom(src, i + 1) == before
  {
    hide TextFrom, Numeral;
    TextUnfold(src, i);
    if 0 != i {
      Append(dst, 44);
      Append(dst, 32);
    }
    DecPut(dst, src[i]);
  }

  /** dec8_encode, with the buffer it allocates. */
  method Dec8Encode(src: seq<byte>) returns (dst: Find?)
    requires |src| * 5 + 1 < U64
    ensures dst == null <==> src == []
    ensures dst != null ==> fresh(dst) && Returns(dst, TextFrom(src, 0))
  {
    hide TextFrom;
    if src == [] {
      return null;
    }
    dst := new Find(|src| * 5 + 1, NOBLOCKSIZE);
    for i := 0 to |src|
      invariant fresh(dst) && dst.item != null && fresh(dst.item) && dst.item.Length == |src| * 5 + 1
      invariant dst.cpos <= 5 * i && dst.item[..dst.cpos] + TextFrom(src, i) == TextFrom(src, 0)
    {
      EncodeByte(src, i, dst);
    }
    TextEnd(src);
    Finish(dst, TextFrom(src, 0));
  }

  lemma TextEnd(s: seq<byte>)
    ensures TextFrom(s, |s|) == []
  {
  }

  /** The bytes that are not zero. */
  function NonZero(s: seq<byte>): (r: seq<byte>)
    ensures |r| <= |s|
  {
    if s == [] then [] else (if s[0] != 0 then [s[0]] else []) + NonZero(s[1..])
  }

  lemma SkipSeparator(i: nat, t: seq<byte>)
    ensures Bytes(Decimal, Separator(i) + t) == Bytes(Decimal, t)
  {
    var u := Separator(i) + t;
    if i > 0 {
      assert u[1..] == [32] + t && u[1..][1..] == t;
    } else {
      assert u == t;
    }
  }

  lemma OneNumeral(b: byte, rest: seq<byte>)
    requires rest == [] || !IsDec8(rest[0])
    ensures Bytes(Decimal, Numeral(b) + rest) == (if b != 0 then [b] else []) + Bytes(Decimal, rest)
  {
    hide *;
    PrintParse(b, rest);
    if b == 0 {
      assert Numeral(b) + rest == rest;
    } else {
      NumeralIsGroup(b, rest);
      FirstGroup(Decimal, Numeral(b), rest);
    }
  }

  lemma TextStart(s: seq<byte>, i: nat)
    requires i > 0
    ensures TextFrom(s, i) == [] || !IsDec8(TextFrom(s, i)[0])
  {
  }

  lemma {:induction false} DecodeText(s: seq<byte>, i: nat)
    requires i <= |s|
    ensures Bytes(Decimal, TextFrom(s, i)) == NonZero(s[i..])
    decreases |s| - i
  {
    if i < |s| {
      DecodeText(s, i + 1);
      TextUnfold(s, i);
      TextStart(s, i + 1);
      assert s[i..][1..] == s[i + 1..];
      hide Bytes, TextFrom, Numeral, Separator;
      SkipSeparator(i, Numeral(s[i]) + TextFrom(s, i + 1));
      OneNumeral(s[i], TextFrom(s, i + 1));
    }
  }

  lemma {:induction false} NonZeroAll(s: seq<byte>)
    ensures NonZero(s) == s <==> 0 !in s
    ensures |NonZero(s)| == |s| ==> 0 !in s
  {
    if s != [] {
      NonZeroAll(s[1..]);
      assert s == [s[0]] + s[1..];
      if s[0] != 0 {
        assert NonZero(s)[1..] == NonZero(s[1..]);
      }
    }
  }

  /** dec8_decode of dec8_encode drops the zero bytes, so it is the identity exactly where there is none. */
  lemma RoundTrip(s: seq<byte>)
    ensures Bytes(Decimal, TextFrom(s, 0)) == NonZero(s)
    ensures Bytes(Decimal, TextFrom(s, 0)) == s <==> 0 !in s
  {
    DecodeText(s, 0);
    assert s[0..] == s;
    NonZeroAll(s);
  }

  // ----- the text, written out

  /** A numeral digit by digit: "0" is character 48, and a number below ten that is not zero has one digit. */
  lemma NumeralDigits(w: nat, d: nat)
    requires d < 10
    ensures Numeral(0) == []
    ensures w * 10 + d > 0 ==> Numeral(w * 10 + d) == Numeral(w) + [48 + d]
  {
    NumeralForm(0);
    NumeralSnoc(w, d);
    hide Numeral;
  }

  /** One more byte appends 44, 32 (a comma and a space) and its numeral; the first one only its numeral. */
  lemma TextSnoc(s: seq<byte>, b: byte)
    ensures s == [] ==> TextFrom(s + [b], 0) == Numeral(b)
    ensures s != [] ==> TextFrom(s + [b], 0) == TextFrom(s, 0) + [44, 32] + Numeral(b)
  {
    hide Numeral;
    if s != [] {
      LastByte(s, b, 0);
    } else {
      TextEnd([b]);
    }
  }

  lemma {:induction false} LastByte(s: seq<byte>, b: byte, i: nat)
    requires i < |s|
    ensures TextFrom(s + [b], i) == TextFrom(s, i) + ([44, 32] + Numeral(b))
    decreases |s| - i
  {
    hide Numeral;
    var t := s + [b];
    if i == |s| - 1 {
      TextEnd(t);
      TextEnd(s);
    } else {
      LastByte(s, b, i + 1);
    }
  }

  // ----- dec8_decode

  /** One turn of the decoder: `isok` says that the last character was a digit. */
  method DecodeDigit(src: seq<byte>, i: nat, dst: Find, isok: bool, ghost start: nat, ghost n: nat)
    returns (isok': bool, ghost start': nat, ghost n': nat)
    requires i < |src| && dst.item != null && |Bytes(Decimal, src)| <= dst.item.Length < U64
    requires dst.cpos == Wrap(n - 1) && (isok <==> start < i) && Decoding(Decimal, src, start, i, n, dst.item[..])
    modifies dst`cpos, dst.item
    ensures n' <= dst.item.Length && dst.cpos == Wrap(n' - 1) && start' <= i + 1 && (isok' <==> start' < i + 1)
    ensures Decoding(Decimal, src, start', i + 1, n', dst.item[..])
  {
    hide Decoding, Bytes, NumberOf, InGroup, IsGroup, Dec8, IsDec8, Wrap;
    var pdst := dst.item;
    ghost var before := pdst[..];
    DecodingFits(Decimal, src, start, i, n, before);
    Wraps(n);
    start', n' := start, n;
    var ch := src[i];
    var isnum := IsDec8(ch);
    if isnum {
      if !isok {
        BeginGroup(Decimal, src, start, i, n, before);
        start' := i;
        dst.cpos := Wrap(dst.cpos + 1);
        n' := n + 1;
      } else {
        ContinueGroup(Decimal, src, start, i, n, before);
      }
      pdst[dst.cpos] := (pdst[dst.cpos] as int * 10 + Dec8(ch)) % 256;
      assert pdst[..] == before[n' - 1 := pdst[n' - 1]];
    } else {
      EndRun(Decimal, src, start, i, n, before);
      start' := i + 1;
    }
    isok' := isnum;
  }

  /**
    dec8_decode.  Unlike the other codecs it leaves the terminator out of the size, so the payload is
    `item[..size]`, and puts the end on its last byte.  A text of one digit alone, whose terminator
    would not fit, is excluded.
   */
  method Dec8Decode(src: seq<byte>) returns (dst: Find?)
    requires |src| < U64 && !(|src| == 1 && IsDec8(src[0]))
    ensures dst == null <==> src == []
    ensures dst != null ==> fresh(dst) && dst.item != null && |Bytes(Decimal, src)| < dst.item.Length
    ensures dst != null ==> dst.cpos == 0 && dst.size == |Bytes(Decimal, src)| && dst.epos == Wrap(dst.size - 1)
    ensures dst != null ==> dst.item[..dst.size] == Bytes(Decimal, src) && dst.item[dst.size] == 0
  {
    hide Decoding, Bytes;
    if src == [] {
      return null;
    }
    TextHasRoom(Decimal, src);
    dst := new Find(|src|, NOBLOCKSIZE);
    dst.cpos := Wrap(-1);
    var isok := false;
    ghost var start: nat, n: nat := 0, 0;
    Begin(Decimal, src, dst.item[..]);
    for i := 0 to |src|
      invariant fresh(dst) && dst.item != null && fresh(dst.item) && dst.item.Length == |src|
      invariant dst.cpos == Wrap(n - 1) && start <= i && (isok <==> start < i) && n <= |src|
      invariant Decoding(Decimal, src, start, i, n, dst.item[..])
    {
      isok, start, n := DecodeDigit(src, i, dst, isok, start, n);
    }
    GroupDone(Decimal, src, start, |src|, n, dst.item[..]);
    assert dst.item[..][..n] == dst.item[..n];
    BytesEnd(Decimal, src);
    Wraps(n);
    var pdst := dst.item;
    dst.cpos := Wrap(dst.cpos + 1);
    pdst[dst.cpos] := 0;
    dst.size := dst.cpos;
    dst.epos := Wrap(dst.cpos - 1);
    dst.cpos := 0;
  }
}
