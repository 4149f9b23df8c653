/**
  Binary digits: bin8_encode, bin16_encode and bin32_encode (src/encode.c:82-202), which differ only
  in how many bytes they write between separators, and the one decoder for all of them, bin_decode
  (src/decode.c:517-547).
 */
module BinDigits {
  import opened Radix
  import opened MemFind
  import opened Codec
  import opened DigitRuns

  // ----- what the encoders compute

  /** binN. */
  function BinN(bit: int): byte {
    if bit != 0 then 49 else 48
  }

  /** The eight digits of a byte, most significant first. */
  function Bits(b: byte): (t: seq<byte>)
    ensures |t| == 8
  {
    [BinN(b / 128 % 2), BinN(b / 64 % 2), BinN(b / 32 % 2), BinN(b / 16 % 2),
     BinN(b / 8 % 2), BinN(b / 4 % 2), BinN(b / 2 % 2), BinN(b % 2)]
  }

  /** A comma and a space before every byte whose index is a positive multiple of `k`. */
  function Separator(i: nat, k: nat): seq<byte>
    requires k > 0
  {
    if i > 0 && i % k == 0 then [44, 32] else []
  }

  /** The text of the bytes from index `i` on. */
  function TextFrom(s: seq<byte>, i: nat, k: nat): (t: seq<byte>)
    requires k > 0
    ensures i <= |s| ==> |t| <= 10 * (|s| - i)
    decreases |s| - i
  {
    if i >= |s| then [] else Separator(i, k) + Bits(s[i]) + TextFrom(s, i + 1, k)
  }

  // ----- round trip

  /** One more digit of a number read so far up to its half. */
  lemma BitStep(t: seq<byte>, n: nat, w: nat)
    requires n < |t| && NumberOf(Binary, t[0..n]) == w / 2 && t[n] == BinN(w % 2)
    ensures NumberOf(Binary, t[0..n + 1]) == w
  {
    NumberSnoc(Binary, t, 0, n);
  }

  /** The eight digits of a byte spell it. */
  lemma BitsValue(b: byte)
    ensures NumberOf(Binary, Bits(b)) == b
  {
    hide *;
    var t := Bits(b);
    assert t[0..8] == t;
    BitsAt(b);
    NumberSnoc(Binary, t, 0, 0);
    BitStep(t, 0, b / 128);
    BitStep(t, 1, b / 64);
    BitStep(t, 2, b / 32);
    BitStep(t, 3, b / 16);
    BitStep(t, 4, b / 8);
    BitStep(t, 5, b / 4);
    BitStep(t, 6, b / 2);
    BitStep(t, 7, b);
  }

  lemma BitsAt(b: byte)
    ensures var t := Bits(b);
      && t[0] == BinN(b / 128 % 2) && t[1] == BinN(b / 64 % 2) && t[2] == BinN(b / 32 % 2)
      && t[3] == BinN(b / 16 % 2) && t[4] == BinN(b / 8 % 2) && t[5] == BinN(b / 4 % 2)
      && t[6] == BinN(b / 2 % 2) && t[7] == BinN(b % 2)
  {
  }

  lemma BitsDigits(b: byte)
    ensures IsGroup(Binary, Bits(b))
  {
  }

  lemma SkipSeparator(i: nat, k: nat, t: seq<byte>)
    requires k > 0
    ensures Bytes(Binary, Separator(i, k) + t) == Bytes(Binary, t)
  {
    var u := Separator(i, k) + t;
    if i > 0 && i % k == 0 {
      assert u[0..] == u && u[2..] == t;
      SkipCharacter(Binary, u, 0);
      SkipCharacter(Binary, u, 1);
    } else {
      assert u == t;
    }
  }

  /**
    bin_decode undoes each of the three encoders on every input, because separators fall on byte
    boundaries only: nothing is known of `k`, not even that it divides the length.
   */
  lemma {:induction false} RoundTrip(s: seq<byte>, i: nat, k: nat)
    requires i <= |s| && k > 0
    ensures Bytes(Binary, TextFrom(s, i, k)) == s[i..]
    decreases |s| - i
  {
    if i < |s| {
      RoundTrip(s, i + 1, k);
      var rest := TextFrom(s, i + 1, k);
      OneByte(s[i], rest);
      hide Bytes, TextFrom, Bits, Separator;
      SkipSeparator(i, k, Bits(s[i]) + rest);
      TextUnfold(s, i, k);
    }
  }

  lemma TextUnfold(s: seq<byte>, i: nat, k: nat)
    requires i < |s| && k > 0
    ensures TextFrom(s, i, k) == Separator(i, k) + (Bits(s[i]) + TextFrom(s, i + 1, k))
  {
    Regroup(Separator(i, k), Bits(s[i]), TextFrom(s, i + 1, k));
  }

  lemma OneByte(b: byte, rest: seq<byte>)
    ensures Bytes(Binary, Bits(b) + rest) == [b] + Bytes(Binary, rest)
  {
    BitsValue(b);
    BitsDigits(b);
    hide Bits, NumberOf, Bytes, IsGroup;
    FirstGroup(Binary, Bits(b), rest);
  }

  // ----- the text, written out

  /** Where the digits of byte `i` begin: eight characters for each byte before it, two for each separator. */
  function Place(i: nat, k: nat): nat
    requires k > 0
  {
    8 * i + 2 * (i / k)
  }

  lemma NextPlace(i: nat, k: nat)
    requires k > 0
    ensures (i + 1) / k == if (i + 1) % k == 0 then i / k + 1 else i / k
  {
    var q, r := i / k, i % k;
    assert i == k * q + r;
    if r + 1 == k {
      assert i + 1 == k * (q + 1) + 0;
      DivUnique(i + 1, q + 1, 0, k);
    } else {
      DivUnique(i + 1, q, r + 1, k);
    }
  }

  lemma {:induction false} TextSplit(s: seq<byte>, i: nat, k: nat) returns (before: seq<byte>)
    requires i <= |s| && k > 0
    ensures TextFrom(s, 0, k) == before + TextFrom(s, i, k)
    ensures i < |s| ==> |before| + |Separator(i, k)| == Place(i, k)
    ensures i == |s| > 0 ==> |before| == Place(i - 1, k) + 8
    decreases i
  {
    hide Bits, TextFrom;
    if i == 0 {
      before := [];
      DivUnique(0, 0, 0, k);
      assert [] + TextFrom(s, 0, k) == TextFrom(s, 0, k);
    } else {
      var b := TextSplit(s, i - 1, k);
      TextUnfold(s, i - 1, k);
      before := b + Separator(i - 1, k) + Bits(s[i - 1]);
      Regroup(b + Separator(i - 1, k), Bits(s[i - 1]), TextFrom(s, i, k));
      Regroup(b, Separator(i - 1, k), Bits(s[i - 1]) + TextFrom(s, i, k));
      NextPlace(i - 1, k);
    }
  }

  /**
    The text character by character: the eight bits of each byte, the highest first, as 48 or 49, and
    44, 32 (a comma and a space) before every byte whose index is a positive multiple of `k`.
   */
  lemma TextCharacters(s: seq<byte>, i: nat, k: nat)
    requires i < |s| && k > 0
    ensures var t, p := TextFrom(s, 0, k), Place(i, k);
      && p + 8 <= |t| && (i == |s| - 1 ==> |t| == p + 8)
      && t[p..p + 8] == [48 + s[i] / 128 % 2, 48 + s[i] / 64 % 2, 48 + s[i] / 32 % 2, 48 + s[i] / 16 % 2,
                         48 + s[i] / 8 % 2, 48 + s[i] / 4 % 2, 48 + s[i] / 2 % 2, 48 + s[i] % 2]
      && (i > 0 && i % k == 0 ==> p >= 2 && t[p - 2] == 44 && t[p - 1] == 32)
  {
    BitsWritten(s[i]);
    hide Bits, TextFrom, Place;
    var before := TextSplit(s, i, k);
    TextUnfold(s, i, k);
    if i == |s| - 1 {
      TextEnd(s, k);
    }
    SeparatorWritten(i, k);
    hide Separator;
    Pieces(TextFrom(s, 0, k), before, Separator(i, k), Bits(s[i]), TextFrom(s, i + 1, k));
  }

  lemma SeparatorWritten(i: nat, k: nat)
    requires k > 0
    ensures i > 0 && i % k == 0 ==> Separator(i, k) == [44, 32]
  {
  }

  lemma Pieces(t: seq<byte>, a: seq<byte>, b: seq<byte>, c: seq<byte>, d: seq<byte>)
    requires t == a + (b + (c + d)) && |c| == 8
    ensures var p := |a| + |b|;
      && p + 8 <= |t| && t[p..p + 8] == c && (d == [] ==> |t| == p + 8)
      && (|b| == 2 ==> p >= 2 && t[p - 2] == b[0] && t[p - 1] == b[1])
  {
  }

  lemma BitsWritten(b: byte)
    ensures Bits(b) == [48 + b / 128 % 2, 48 + b / 64 % 2, 48 + b / 32 % 2, 48 + b / 16 % 2,
                        48 + b / 8 % 2, 48 + b / 4 % 2, 48 + b / 2 % 2, 48 + b % 2]
  {
  }

  // ----- the encoders

  method PutFour(dst: Find, a: byte, b: byte, c: byte, d: byte)
    requires dst.item != null && dst.cpos + 4 <= dst.item.Length < U64
    modifies dst`cpos, dst.item
    ensures dst.cpos == old(dst.cpos) + 4
    ensures dst.item[..dst.cpos] == old(dst.item[..dst.cpos]) + [a, b, c, d]
  {
    Append(dst, a);
    Append(dst, b);
    Append(dst, c);
    Append(dst, d);
  }

  method PutBits(dst: Find, b: byte)
    requires dst.item != null && dst.cpos + 8 <= dst.item.Length < U64
    modifies dst`cpos, dst.item
    ensures dst.cpos == old(dst.cpos) + 8
    ensures dst.item[..dst.cpos] == old(dst.item[..dst.cpos]) + Bits(b)
  {
    hide *;
    ghost var t := Bits(b);
    BitsAt(b);
    assert t == [t[0], t[1], t[2], t[3]] + [t[4], t[5], t[6], t[7]];
    PutFour(dst, BinN(b / 128 % 2), BinN(b / 64 % 2), BinN(b / 32 % 2), BinN(b / 16 % 2));
    PutFour(dst, BinN(b / 8 % 2), BinN(b / 4 % 2), BinN(b / 2 % 2), BinN(b % 2));
  }

  method PutSeparator(dst: Find)
    requires dst.item != null && dst.cpos + 2 <= dst.item.Length < U64
    modifies dst`cpos, dst.item
    ensures dst.cpos == old(dst.cpos) + 2
    ensures dst.item[..dst.cpos] == old(dst.item[..dst.cpos]) + [44, 32]
  {
    Append(dst, 44);
    Append(dst, 32);
  }

  /** One turn of an encoder, the separator if it is due and eight digits. */
  method EncodeByte(src: seq<byte>, i: nat, ghost k: nat, due: bool, dst: Find)
    requires i < |src| && k > 0 && (due <==> i > 0 && i % k == 0)
    requires dst.item != null && dst.cpos + 10 <= dst.item.Length < U64
    modifies dst`cpos, dst.item
    ensures dst.cpos <= old(dst.cpos) + 10
    ensures var before := old(dst.item[..dst.cpos]) + TextFrom(src, i, k);
      dst.item[..dst.cpos] + TextFrom(src, i + 1, k) == before
  {
    hide TextFrom, Bits;
    TextUnfold(src, i, k);
    if due {
      PutSeparator(dst);
    }
    PutBits(dst, src[i]);
  }

  /** bin8_encode, with the buffer it allocates. */
  method Bin8Encode(src: seq<byte>) returns (dst: Find?)
    requires |src| * 10 + 1 < U64
    ensures dst == null <==> src == []
    ensures dst != null ==> fresh(dst) && Returns(dst, TextFrom(src, 0, 1))
  {
    hide TextFrom;
    if src == [] {
      return null;
    }
    dst := new Find(|src| * 10 + 1, NOBLOCKSIZE);
    for i := 0 to |src|
      invariant fresh(dst) && dst.item != null && fresh(dst.item) && dst.item.Length == |src| * 10 + 1
      invariant dst.cpos <= 10 * i && dst.item[..dst.cpos] + TextFrom(src, i, 1) == TextFrom(src, 0, 1)
    {
      EncodeByte(src, i, 1, 0 != i, dst);
    }
    TextEnd(src, 1);
    Finish(dst, TextFrom(src, 0, 1));
  }

  /** bin16_encode for k = 2 and bin32_encode for k = 4. */
  method BinGroupsEncode(src: seq<byte>, k: nat) returns (dst: Find?)
    requires |src| * 10 + 1 < U64 && (k == 2 || k == 4)
    ensures dst == null <==> src == []
    ensures dst != null ==> fresh(dst) && Returns(dst, TextFrom(src, 0, k))
  {
    hide TextFrom;
    if src == [] {
      return null;
    }
    dst := new Find(|src| * 10 + 1, NOBLOCKSIZE);
    EncodeByte(src, 0, k, false, dst);
    for i := 1 to |src|
      invariant fresh(dst) && dst.item != null && fresh(dst.item) && dst.item.Length == |src| * 10 + 1
      invariant dst.cpos <= 10 * i && dst.item[..dst.cpos] + TextFrom(src, i, k) == TextFrom(src, 0, k)
    {
      EncodeByte(src, i, k, 0 == i % k, dst);
    }
    TextEnd(src, k);
    Finish(dst, TextFrom(src, 0, k));
  }

  lemma TextEnd(s: seq<byte>, k: nat)
    requires k > 0
    ensures TextFrom(s, |s|, k) == []
  {
  }

  // ----- the decoder

  /** One turn of the decoder: `isok` counts the digits of the run being read. */
  method DecodeDigit(src: seq<byte>, i: nat, dst: Find, isok: nat, ghost start: nat, ghost n: nat)
    returns (isok': nat, ghost start': nat, ghost n': nat)
    requires i < |src| && dst.item != null && |Bytes(Binary, src)| <= dst.item.Length < U64
    requires dst.cpos == Wrap(n - 1) && InRun(isok, i - start) && Decoding(Binary, src, start, i, n, dst.item[..])
    modifies dst`cpos, dst.item
    ensures n' <= dst.item.Length && dst.cpos == Wrap(n' - 1) && InRun(isok', i + 1 - start')
    ensures Decoding(Binary, src, start', i + 1, n', dst.item[..])
  {
    hide Decoding, Bytes, Bin8, Wrap;
    var pdst := dst.item;
    ghost var before := pdst[..];
    DecodingFits(Binary, src, start, i, n, before);
    Wraps(n);
    start', n' := start, n;
    var ch := src[i];
    if IsBin8(ch) {
      if isok % 8 == 0 {
        BeginGroup(Binary, src, start, i, n, before);
        start' := i;
        dst.cpos := Wrap(dst.cpos + 1);
        n' := n + 1;
      } else {
        ContinueGroup(Binary, src, start, i, n, before);
      }
      isok' := isok + 1;
      pdst[dst.cpos] := (pdst[dst.cpos] as int * 2 + Bin8(ch)) % 256;
      assert pdst[..] == before[n' - 1 := pdst[n' - 1]];
    } else {
      EndRun(Binary, src, start, i, n, before);
      start' := i + 1;
      isok' := 0;
    }
  }

  /** The counter of a run, and how many digits of the last group it has seen. */
  ghost predicate InRun(isok: nat, pending: int) {
    pending == if isok == 0 then 0 else (isok - 1) % 8 + 1
  }

  /**
    bin_decode.  The buffer has the size of the text, so a text of one digit alone, whose terminator
    would not fit, is excluded.
   */
  method BinDecode(src: seq<byte>) returns (dst: Find?)
    requires |src| < U64 && !(|src| == 1 && IsBin8(src[0]))
    ensures dst == null <==> src == []
    ensures dst != null ==> fresh(dst) && Returns(dst, Bytes(Binary, src))
  {
    hide Decoding, Bytes;
    if src == [] {
      return null;
    }
    TextHasRoom(Binary, src);
    dst := new Find(|src|, NOBLOCKSIZE);
    dst.cpos := Wrap(-1);
    var isok: nat := 0;
    ghost var start: nat, n: nat := 0, 0;
    Begin(Binary, src, dst.item[..]);
    for i := 0 to |src|
      invariant fresh(dst) && dst.item != null && fresh(dst.item) && dst.item.Length == |src|
      invariant dst.cpos == Wrap(n - 1) && InRun(isok, i - start) && n <= |src|
      invariant Decoding(Binary, src, start, i, n, dst.item[..])
    {
      isok, start, n := DecodeDigit(src, i, dst, isok, start, n);
    }
    GroupDone(Binary, src, start, |src|, n, dst.item[..]);
    assert dst.item[..][..n] == dst.item[..n];
    BytesEnd(Binary, src);
    Wraps(n);
    dst.cpos := Wrap(dst.cpos + 1);
    Finish(dst, Bytes(Binary, src));
  }
}
