/**
  base85_encode (src/encode.c:602-654) and base85_decode (src/decode.c:842-943), the ASCII85 rule of
  section 7.4.3 of ISO 32000-1: four bytes make five digits from '!', four zero bytes make one 'z', a
  final group of k bytes is padded with zeros and keeps k + 1 digits.
 */
module Base85 {
  import opened Radix
  import opened MemFind
  import opened Codec

  const DEF: byte := 33
  const ZERO: byte := 122

  // ----- 32-bit blocks

  /** The number four bytes spell, most significant first. */
  function Value4(b: seq<int>): int
    requires |b| == 4
  {
    ((b[0] * 256 + b[1]) * 256 + b[2]) * 256 + b[3]
  }

  /** The number five base-85 digits spell, most significant first. */
  function Value5(d: seq<int>): int
    requires |d| == 5
  {
    (((d[0] * 85 + d[1]) * 85 + d[2]) * 85 + d[3]) * 85 + d[4]
  }

  function Four(v: u32): (b: seq<byte>)
    ensures |b| == 4
  {
    [v / 256 / 256 / 256, v / 256 / 256 % 256, v / 256 % 256, v % 256]
  }

  function Five(v: u32): (d: seq<byte>)
    ensures |d| == 5 && forall k | 0 <= k < 5 :: d[k] < 85
  {
    [v / 85 / 85 / 85 / 85, v / 85 / 85 / 85 % 85, v / 85 / 85 % 85, v / 85 % 85, v % 85]
  }

  lemma FiveValue(v: u32)
    ensures Value5(Five(v)) == v
  {
  }

  lemma FourUnique(v: u32, b: seq<byte>)
    requires |b| == 4 && Value4(b) == v
    ensures Four(v) == b
  {
    var v2 := b[0] as int * 256 + b[1];
    var v3 := v2 * 256 + b[2];
    DivUnique(v, v3, b[3], 256);
    DivUnique(v3, v2, b[2], 256);
    DivUnique(v2, b[0], b[1], 256);
  }

  // ----- what the two functions compute

  /** A group brought to `n` places. */
  function Pad(s: seq<byte>, x: byte, n: nat): (p: seq<byte>)
    requires |s| <= n
    ensures |p| == n
  {
    s + Repeat(x, n - |s|)
  }

  lemma BlockInRange(s: seq<byte>)
    requires |s| == 4
    ensures 0 <= Value4(s) < U32
  {
  }

  function Block(s: seq<byte>): u32
    requires |s| <= 4
  {
    BlockInRange(Pad(s, 0, 4));
    Value4(Pad(s, 0, 4))
  }

  function Printable(d: seq<byte>): (t: seq<byte>)
    requires forall k | 0 <= k < |d| :: d[k] < 85
    ensures |t| == |d|
  {
    seq(|d|, k requires 0 <= k < |d| => d[k] + DEF)
  }

  /** The text of one group of one to four bytes. */
  function GroupText(s: seq<byte>): (t: seq<byte>)
    requires 1 <= |s| <= 4
    ensures |t| <= 5
  {
    if |s| == 4 && Block(s) == 0 then [ZERO] else Printable(Five(Block(s)))[..|s| + 1]
  }

  function Text(s: seq<byte>): seq<byte> {
    if s == [] then []
    else if |s| < 4 then GroupText(s)
    else GroupText(s[..4]) + Text(s[4..])
  }

  predicate InRange(g: seq<byte>) {
    forall k | 0 <= k < |g| :: 33 <= g[k] <= 117
  }

  function Digit(g: seq<byte>): (d: seq<byte>)
    requires InRange(g)
    ensures |d| == |g| && forall k | 0 <= k < |d| :: d[k] < 85
  {
    seq(|g|, k requires 0 <= k < |g| => g[k] - DEF)
  }

  /** The value of a group of one to five digits, the missing ones taken to be the largest. */
  function GroupValue(g: seq<byte>): int
    requires InRange(g) && 1 <= |g| <= 5
  {
    Value5(Pad(Digit(g), 84, 5))
  }

  /** The decoder can read a group: its characters are digits and its value fits 32 bits. */
  predicate Readable(g: seq<byte>)
    requires 1 <= |g| <= 5
  {
    InRange(g) && 0 <= GroupValue(g) < U32
  }

  function GroupBytes(g: seq<byte>): seq<byte>
    requires 1 <= |g| <= 5 && Readable(g)
  {
    Four(GroupValue(g))[..|g| - 1]
  }

  function FirstGroup(t: seq<byte>): (g: seq<byte>)
    requires t != []
    ensures 1 <= |g| <= 5 && |g| <= |t| && g == t[..|g|]
  {
    if |t| < 5 then t else t[..5]
  }

  /** The bytes decoded before the end, or before the first group that cannot be read. */
  function Bytes(t: seq<byte>): seq<byte>
    decreases |t|
  {
    if t == [] then []
    else if t[0] == ZERO then Repeat(0, 4) + Bytes(t[1..])
    else
      var g := FirstGroup(t);
      if Readable(g) then GroupBytes(g) + Bytes(t[|g|..]) else []
  }

  /** The whole text can be read. */
  predicate Complete(t: seq<byte>)
    decreases |t|
  {
    t == [] ||
    if t[0] == ZERO then Complete(t[1..])
    else
      var g := FirstGroup(t);
      Readable(g) && Complete(t[|g|..])
  }

  // ----- round trip

  /** Cutting a group off after `k` bytes: the digits dropped only ever change the bytes dropped. */
  lemma TruncatedDigits(v: u32, k: nat, p: seq<byte>)
    requires 1 <= k <= 4 && |p| == 5
    requires forall j | 0 <= j < k + 1 :: p[j] == Five(v)[j]
    requires forall j | k + 1 <= j < 5 :: p[j] == 84
    ensures k == 4 ==> Value5(p) == v
    ensures k == 3 ==> v <= Value5(p) < v + 85
    ensures k == 2 ==> v <= Value5(p) < v + 7225
    ensures k == 1 ==> v <= Value5(p) < v + 614125
  {
    FiveValue(v);
    hide Five;
  }

  /** The bytes kept stay, whatever is added below them. */
  lemma KeptBytes(b: seq<byte>, k: nat, w: int)
    requires 1 <= k <= 4 && |b| == 4 && forall j | k <= j < 4 :: b[j] == 0
    requires k == 4 ==> w == Value4(b)
    requires k == 3 ==> Value4(b) <= w < Value4(b) + 85
    requires k == 2 ==> Value4(b) <= w < Value4(b) + 7225
    requires k == 1 ==> Value4(b) <= w < Value4(b) + 614125
    ensures 0 <= w < U32 && Four(w)[..k] == b[..k]
  {
    BlockInRange(b);
    var e := w - Value4(b);
    var c: seq<byte> := b[..k] + Four(e)[k..];
    SmallBytes(e, k);
    hide Four;
    assert Value4(c) == w;
    FourUnique(w, c);
  }

  /** What is added below the first `k` bytes does not reach into them. */
  lemma SmallBytes(e: u32, k: nat)
    requires 1 <= k <= 4
    requires e < (if k == 4 then 1 else if k == 3 then 85 else if k == 2 then 7225 else 614125)
    ensures var f := Four(e); Value4(f) == e && forall j | 0 <= j < k :: f[j] == 0
  {
  }

  /** One group that is not four zeros: no guard fires and its bytes come back. */
  lemma GroupRoundTrip(s: seq<byte>)
    requires 1 <= |s| <= 4 && (|s| == 4 ==> Block(s) != 0)
    ensures var g := GroupText(s); |g| == |s| + 1 && g[0] != ZERO && Readable(g) && GroupBytes(g) == s
  {
    var v, k, g := Block(s), |s|, GroupText(s);
    PrintableDigits(v, k, g);
    hide Five, Four, Value4, Value5, Printable, Digit;
    var p := Pad(Digit(g), 84, 5);
    TruncatedDigits(v, k, p);
    KeptBytes(Pad(s, 0, 4), k, Value5(p));
  }

  lemma PrintableDigits(v: u32, k: nat, g: seq<byte>)
    requires 1 <= k <= 4 && g == Printable(Five(v))[..k + 1]
    ensures InRange(g) && g[0] != ZERO && Digit(g) == Five(v)[..k + 1]
  {
    hide Five;
  }

  lemma ZeroBlock(s: seq<byte>)
    requires |s| == 4 && Block(s) == 0
    ensures s == Repeat(0, 4)
  {
    assert Pad(s, 0, 4) == s;
  }

  /** base85_decode undoes base85_encode on every input, and reads the whole text. */
  lemma {:induction false} RoundTrip(s: seq<byte>)
    ensures Bytes(Text(s)) == s && Complete(Text(s))
    decreases |s|
  {
    if s == [] {
    } else if |s| < 4 {
      LastGroup(s);
    } else {
      hide Bytes, Complete, GroupText;
      RoundTrip(s[4..]);
      NextGroup(s[..4], Text(s[4..]));
      assert s == s[..4] + s[4..];
    }
  }

  lemma LastGroup(s: seq<byte>)
    requires 1 <= |s| < 4
    ensures Bytes(GroupText(s)) == s && Complete(GroupText(s))
  {
    GroupRoundTrip(s);
    hide GroupText, GroupBytes, Readable, GroupValue;
    var t := GroupText(s);
    assert FirstGroup(t) == t && t[|t|..] == [];
  }

  lemma NextGroup(s: seq<byte>, rest: seq<byte>)
    requires |s| == 4
    ensures Bytes(GroupText(s) + rest) == s + Bytes(rest)
    ensures Complete(GroupText(s) + rest) <==> Complete(rest)
  {
    var t := GroupText(s) + rest;
    if Block(s) == 0 {
      ZeroBlock(s);
      assert t[1..] == rest;
    } else {
      GroupRoundTrip(s);
      hide GroupText, GroupBytes, Readable, GroupValue;
      assert FirstGroup(t) == GroupText(s) && t[5..] == rest;
    }
  }

  // ----- the other direction

  /** What the digits dropped after `k` bytes could add: 85 to the power of their number. */
  function DigitSpan(k: nat): nat
    requires 1 <= k <= 3
  {
    if k == 3 then 85 else if k == 2 then 7225 else 614125
  }

  /** What the bytes dropped could hold: 256 to the power of their number. */
  function ByteSpan(k: nat): nat
    requires 1 <= k <= 3
  {
    if k == 3 then 0x100 else if k == 2 then 0x1_0000 else 0x100_0000
  }

  /** A group the encoder writes: four zeros are not spelt out, and a last group has the least digits it can. */
  predicate CanonicalGroup(g: seq<byte>)
    requires 1 <= |g| <= 5 && Readable(g)
  {
    if |g| == 5 then GroupValue(g) != 0
    else |g| > 1 && GroupValue(g) % ByteSpan(|g| - 1) < DigitSpan(|g| - 1)
  }

  predicate Canonical(t: seq<byte>)
    decreases |t|
  {
    t == [] ||
    if t[0] == ZERO then Canonical(t[1..])
    else
      var g := FirstGroup(t);
      Readable(g) && CanonicalGroup(g) && Canonical(t[|g|..])
  }

  lemma FiveUnique(v: u32, d: seq<byte>)
    requires |d| == 5 && (forall k | 0 <= k < 5 :: d[k] < 85) && Value5(d) == v
    ensures Five(v) == d
  {
    var v2 := d[0] as int * 85 + d[1];
    var v3 := v2 * 85 + d[2];
    var v4 := v3 * 85 + d[3];
    DivUnique(v, v4, d[4], 85);
    DivUnique(v4, v3, d[3], 85);
    DivUnique(v3, v2, d[2], 85);
    DivUnique(v2, d[0], d[1], 85);
  }

  /** The number the first `k + 1` digits spell. */
  function Head(v: u32, k: nat): nat
    requires 1 <= k <= 3
  {
    if k == 3 then v / 85 else if k == 2 then v / 85 / 85 else v / 85 / 85 / 85
  }

  lemma HeadDigits(v: u32, w: u32, k: nat)
    requires 1 <= k <= 3
    ensures Five(v)[..k + 1] == Five(w)[..k + 1] <==> Head(v, k) == Head(w, k)
  {
    FiveValue(v);
    FiveValue(w);
    var d, e := Five(v), Five(w);
    assert forall j | 0 <= j < k + 1 :: d[..k + 1][j] == d[j] && e[..k + 1][j] == e[j];
    HeadOf(d, v, k);
    HeadOf(e, w, k);
    hide Five, Head;
    if Head(v, k) == Head(w, k) {
      SameHead(d, e, k);
    }
  }

  function Spelt(d: seq<byte>, k: nat): nat
    requires |d| == 5 && 1 <= k <= 3
  {
    var two := d[0] as int * 85 + d[1];
    if k == 1 then two else if k == 2 then two * 85 + d[2] else (two * 85 + d[2]) * 85 + d[3]
  }

  lemma HeadOf(d: seq<byte>, v: u32, k: nat)
    requires |d| == 5 && 1 <= k <= 3 && (forall j | 0 <= j < 5 :: d[j] < 85) && Value5(d) == v
    ensures Head(v, k) == Spelt(d, k)
  {
    DivUnique(v, Spelt(d, 3), d[4], 85);
    DivUnique(Spelt(d, 3), Spelt(d, 2), d[3], 85);
    DivUnique(Spelt(d, 2), Spelt(d, 1), d[2], 85);
  }

  lemma SplitPair(a: nat, b: nat, c: nat, d: nat)
    requires a * 85 + b == c * 85 + d && b < 85 && d < 85
    ensures a == c && b == d
  {
  }

  lemma SameHead(d: seq<byte>, e: seq<byte>, k: nat)
    requires |d| == 5 && |e| == 5 && 1 <= k <= 3
    requires (forall j | 0 <= j < 5 :: d[j] < 85) && (forall j | 0 <= j < 5 :: e[j] < 85)
    requires Spelt(d, k) == Spelt(e, k)
    ensures d[..k + 1] == e[..k + 1]
  {
    if k == 3 {
      SplitPair(Spelt(d, 2), d[3], Spelt(e, 2), e[3]);
    }
    if k >= 2 {
      SplitPair(Spelt(d, 1), d[2], Spelt(e, 1), e[2]);
    }
    SplitPair(d[0], d[1], e[0], e[1]);
  }

  lemma HeadDiv(v: u32, k: nat)
    requires 1 <= k <= 3
    ensures Head(v, k) == v / DigitSpan(k)
  {
  }

  /** The bytes kept, brought back to four places, are the number without what the others held. */
  lemma TopBytes(v: u32, k: nat)
    requires 1 <= k <= 3
    ensures Block(Four(v)[..k]) == v - v % ByteSpan(k)
  {
    FourSum(v);
    hide Four;
  }

  lemma FourSum(v: u32)
    ensures var b := Four(v);
      && v == ((b[0] as int * 256 + b[1]) * 256 + b[2]) * 256 + b[3]
      && v % 256 == b[3] && v % 0x1_0000 == b[2] as int * 256 + b[3]
      && v % 0x100_0000 == (b[1] as int * 256 + b[2]) * 256 + b[3]
  {
  }

  /** Dropping less than what the digits span keeps the digits, dropping more does not. */
  lemma DigitsKept(v: nat, p: nat, r: nat)
    requires p > 0 && r <= v && v % p == p - 1
    ensures (v - r) / p == v / p <==> r < p
  {
    var q := v / p;
    assert v == p * q + (p - 1);
    if r < p {
      DivUnique(v - r, q, p - 1 - r, p);
    } else {
      var w := (v - r) / p;
      assert v - r == p * w + (v - r) % p;
      assert v - r < p * q;
      if w >= q {
        MulMonotone(p, q, w);
      }
    }
  }

  /** The digits taken for the missing ones are the last of all. */
  lemma PaddedValue(g: seq<byte>)
    requires 2 <= |g| <= 4 && Readable(g)
    ensures Five(GroupValue(g)) == Pad(Digit(g), 84, 5)
    ensures GroupValue(g) % DigitSpan(|g| - 1) == DigitSpan(|g| - 1) - 1
  {
    var d := Pad(Digit(g), 84, 5);
    FiveUnique(GroupValue(g), d);
    hide Five;
    var v := GroupValue(g);
    if |g| == 4 {
      DivUnique(v, Spelt(d, 3), 84, 85);
    } else if |g| == 3 {
      DivUnique(v, Spelt(d, 2), 7224, 7225);
    } else {
      DivUnique(v, Spelt(d, 1), 614124, 614125);
    }
  }

  lemma PartialGroup(g: seq<byte>)
    requires 2 <= |g| <= 4 && Readable(g)
    ensures GroupText(GroupBytes(g)) == g <==> CanonicalGroup(g)
  {
    var v, k := GroupValue(g), |g| - 1;
    var b := GroupBytes(g);
    PaddedValue(g);
    TopBytes(v, k);
    HeadDigits(v, Block(b), k);
    HeadDiv(v, k);
    HeadDiv(Block(b), k);
    hide Five, Four, Head, Block, GroupValue, Readable;
    DigitsKept(v, DigitSpan(k), v % ByteSpan(k));
    PrintedAgain(Five(Block(b)), g);
    GroupTextIs(b);
    assert Five(v)[..k + 1] == Digit(g);
  }

  lemma PrintedAgain(d: seq<byte>, g: seq<byte>)
    requires |d| == 5 && (forall j | 0 <= j < 5 :: d[j] < 85) && InRange(g) && 1 <= |g| <= 5
    ensures Printable(d)[..|g|] == g <==> d[..|g|] == Digit(g)
  {
    assert forall j | 0 <= j < |g| :: Printable(d)[..|g|][j] == d[j] + DEF && d[..|g|][j] == d[j];
    assert forall j | 0 <= j < |g| :: g[j] == Digit(g)[j] + DEF;
  }

  lemma WholeGroup(g: seq<byte>)
    requires |g| == 5 && g[0] != ZERO && Readable(g)
    ensures GroupText(GroupBytes(g)) == g <==> CanonicalGroup(g)
  {
    var v := GroupValue(g);
    assert Pad(Digit(g), 84, 5) == Digit(g);
    FiveUnique(v, Digit(g));
    FourSum(v);
    PrintedAgain(Five(v), g);
    hide Five, Four;
    var b := GroupBytes(g);
    assert b == Four(v) && Pad(b, 0, 4) == b;
  }

  lemma TextOfFour(b: seq<byte>, rest: seq<byte>)
    requires |b| == 4
    ensures Text(b + rest) == GroupText(b) + Text(rest)
  {
    hide GroupText;
    assert (b + rest)[..4] == b && (b + rest)[4..] == rest;
  }

  lemma ZeroGroup()
    ensures GroupText(Repeat(0, 4)) == [ZERO]
  {
    assert Pad(Repeat(0, 4), 0, 4) == Repeat(0, 4);
  }

  lemma SameTail(a: seq<byte>, b: seq<byte>, c: seq<byte>)
    ensures a + b == a + c <==> b == c
  {
    assert (a + b)[|a|..] == b && (a + c)[|a|..] == c;
  }

  lemma BytesFirst(t: seq<byte>)
    requires |t| >= 5 && t[0] != ZERO && Readable(t[..5])
    ensures Bytes(t) == GroupBytes(t[..5]) + Bytes(t[5..])
  {
    hide Readable, GroupBytes;
    assert FirstGroup(t) == t[..5];
  }

  /** The step of the proof below for a group in front of others. */
  lemma WholeGroupFirst(t: seq<byte>)
    requires |t| >= 5 && t[0] != ZERO && Readable(t[..5])
    requires Text(Bytes(t[5..])) == t[5..] <==> Canonical(t[5..])
    ensures Text(Bytes(t)) == t <==> CanonicalGroup(t[..5]) && Canonical(t[5..])
  {
    hide *;
    var g, rest := t[..5], Bytes(t[5..]);
    var b := GroupBytes(g);
    WholeGroup(g);
    FourBytes(g);
    BytesFirst(t);
    TextOfFour(b, rest);
    assert t == g + t[5..];
    if CanonicalGroup(g) {
      SameTail(g, Text(rest), t[5..]);
    } else {
      assert (GroupText(b) + Text(rest))[0] != t[0];
    }
  }

  lemma FourBytes(g: seq<byte>)
    requires |g| == 5 && g[0] != ZERO && Readable(g)
    ensures |GroupBytes(g)| == 4 && |GroupText(GroupBytes(g))| >= 1
    ensures !CanonicalGroup(g) ==> GroupText(GroupBytes(g))[0] != g[0]
  {
    if !CanonicalGroup(g) {
      assert GroupBytes(g) == Repeat(0, 4);
      ZeroGroup();
    }
  }

  lemma LastGroupOnly(t: seq<byte>)
    requires 1 <= |t| < 5 && t[0] != ZERO && Readable(t)
    ensures Text(Bytes(t)) == t <==> CanonicalGroup(t)
  {
    hide Readable, GroupValue, GroupText, Four;
    assert t[|t|..] == [] && Bytes(t) == GroupBytes(t);
    if |t| > 1 {
      PartialGroup(t);
    }
  }

  /** base85_encode undoes base85_decode exactly on the canonical texts. */
  lemma {:induction false} EncodeDecode(t: seq<byte>)
    ensures Text(Bytes(t)) == t <==> Canonical(t)
    decreases |t|
  {
    hide Readable, GroupBytes, GroupText, CanonicalGroup;
    if t == [] {
    } else if t[0] == ZERO {
      EncodeDecode(t[1..]);
      ZeroGroup();
      TextOfFour(Repeat(0, 4), Bytes(t[1..]));
      assert t == [ZERO] + t[1..];
      SameTail([ZERO], Text(Bytes(t[1..])), t[1..]);
    } else if !Readable(FirstGroup(t)) {
      assert Bytes(t) == [];
    } else if |t| < 5 {
      LastGroupOnly(t);
      assert t[|t|..] == [];
    } else {
      EncodeDecode(t[5..]);
      WholeGroupFirst(t);
    }
  }

  // ----- the guards

  /** The two tests made before the last digit is added stop exactly the groups that exceed 32 bits. */
  lemma GuardsExact(d: seq<int>, block: int)
    requires |d| == 5 && (forall k | 0 <= k < 5 :: 0 <= d[k] < 85)
    requires block == ((d[0] * 85 + d[1]) * 85 + d[2]) * 85 + d[3]
    ensures Value5(d) < U32 <==> block <= (U32 - 1) / 85 && block * 85 <= U32 - 1 - d[4]
  {
  }

  // ----- the characters, written out

  /** Four zero bytes are the text "z", character 122. */
  lemma ZeroText(s: seq<byte>)
    ensures Text([0, 0, 0, 0] + s) == [122] + Text(s)
  {
    var zeros: seq<byte> := [0, 0, 0, 0];
    assert zeros == Repeat(0, 4);
    ZeroGroup();
    TextOfFour(zeros, s);
  }

  lemma ZeroBytes(t: seq<byte>)
    ensures Bytes([122] + t) == [0, 0, 0, 0] + Bytes(t)
  {
    assert ([122] + t)[1..] == t;
    assert Repeat(0, 4) == [0, 0, 0, 0];
  }

  /** Four other bytes are five characters from "!", character 33, on: the base-85 digits of their number. */
  lemma FullText(a: byte, b: byte, c: byte, d: byte, s: seq<byte>)
    requires [a, b, c, d] != [0, 0, 0, 0]
    ensures var v := a as int * 0x100_0000 + b as int * 0x1_0000 + c as int * 0x100 + d;
      Text([a, b, c, d] + s) == [33 + v / 52200625, 33 + v / 614125 % 85, 33 + v / 7225 % 85,
                                 33 + v / 85 % 85, 33 + v % 85] + Text(s)
  {
    hide *;
    var g: seq<byte> := [a, b, c, d];
    BlockWritten(g, a, b, c, d);
    TextOfFour(g, s);
    GroupTextIs(g);
    FiveDigits(Block(g));
  }

  /** One, two or three bytes at the end are the first two, three or four characters of their zero-filled group. */
  lemma LastText(s: seq<byte>, a: byte, b: byte, c: byte, v: int)
    requires 1 <= |s| <= 3
    requires a == s[0] && b == (if |s| > 1 then s[1] else 0) && c == (if |s| > 2 then s[2] else 0)
    requires v == a as int * 0x100_0000 + b as int * 0x1_0000 + c as int * 0x100
    ensures Text(s) == [33 + v / 52200625, 33 + v / 614125 % 85, 33 + v / 7225 % 85, 33 + v / 85 % 85][..|s| + 1]
  {
    hide *;
    BlockWritten(s, a, b, c, 0);
    LastDigits(s, v);
  }

  lemma LastDigits(s: seq<byte>, v: u32)
    requires 1 <= |s| <= 3 && v == Block(s)
    ensures Text(s) == [33 + v / 52200625, 33 + v / 614125 % 85, 33 + v / 7225 % 85, 33 + v / 85 % 85][..|s| + 1]
  {
    hide *;
    LastIs(s);
    GroupTextIs(s);
    FirstDigits(v, |s| + 1);
  }

  lemma FirstDigits(v: u32, n: nat)
    requires n <= 4
    ensures Printable(Five(v))[..n] ==
      [33 + v / 52200625, 33 + v / 614125 % 85, 33 + v / 7225 % 85, 33 + v / 85 % 85][..n]
  {
    hide *;
    FiveDigits(v);
    FirstOfFive(33 + v / 52200625, 33 + v / 614125 % 85, 33 + v / 7225 % 85, 33 + v / 85 % 85, 33 + v % 85, n);
  }

  lemma FirstOfFive(a: int, b: int, c: int, d: int, e: int, n: nat)
    requires n <= 4
    ensures [a, b, c, d, e][..n] == [a, b, c, d][..n]
  {
    hide *;
  }

  lemma LastIs(s: seq<byte>)
    requires 1 <= |s| <= 3
    ensures Text(s) == GroupText(s)
  {
    hide GroupText;
  }

  /** The number of a group, the missing bytes taken for zeros. */
  lemma BlockWritten(s: seq<byte>, a: byte, b: byte, c: byte, d: byte)
    requires 1 <= |s| <= 4 && a == s[0] && b == (if |s| > 1 then s[1] else 0)
    requires c == (if |s| > 2 then s[2] else 0) && d == (if |s| > 3 then s[3] else 0)
    ensures Block(s) == a as int * 0x100_0000 + b as int * 0x1_0000 + c as int * 0x100 + d
    ensures Block(s) == 0 ==> a == 0 && b == 0 && c == 0 && d == 0
  {
    assert Pad(s, 0, 4) == [a, b, c, d];
  }

  lemma FiveDigits(v: u32)
    ensures v / 52200625 < 85
    ensures Printable(Five(v)) ==
      [33 + v / 52200625, 33 + v / 614125 % 85, 33 + v / 7225 % 85, 33 + v / 85 % 85, 33 + v % 85]
  {
    DivTwice(v, 85, 85);
    DivTwice(v, 7225, 85);
    DivTwice(v, 614125, 85);
    DivMonotone(v, U32, 52200625);
    PrintableFive(v, 33 + v / 52200625, 33 + v / 614125 % 85, 33 + v / 7225 % 85, 33 + v / 85 % 85, 33 + v % 85);
  }

  /** Group `i` of the input is four zeros. */
  predicate ZerosAt(s: seq<byte>, i: int) {
    0 <= i && 4 * i + 4 <= |s| && s[4 * i..4 * i + 4] == [0, 0, 0, 0]
  }

  /** All characters are "z" or lie between "!" and "u"; "z" occurs exactly if some group is four zeros. */
  lemma {:induction false} TextCharacters(s: seq<byte>)
    ensures forall k | 0 <= k < |Text(s)| :: Text(s)[k] == 122 || 33 <= Text(s)[k] <= 117
    ensures 122 in Text(s) <==> exists i :: ZerosAt(s, i)
    decreases |s|
  {
    if 0 < |s| < 4 {
      GroupCharacters(s);
    } else if |s| >= 4 {
      var g, rest := s[..4], s[4..];
      TextCharacters(rest);
      GroupCharacters(g);
      assert s == g + rest;
      TextOfFour(g, rest);
      hide Text, GroupText;
      FirstOrLater(s);
    }
  }

  lemma FirstOrLater(s: seq<byte>)
    requires |s| >= 4
    ensures (exists i :: ZerosAt(s, i)) <==> s[..4] == [0, 0, 0, 0] || exists i :: ZerosAt(s[4..], i)
  {
    if i :| ZerosAt(s, i) {
      if i == 0 {
        assert s[0..4] == s[..4];
      } else {
        assert s[4..][4 * (i - 1)..4 * (i - 1) + 4] == s[4 * i..4 * i + 4];
        assert ZerosAt(s[4..], i - 1);
      }
    }
    if s[..4] == [0, 0, 0, 0] {
      assert s[0..4] == s[..4];
      assert ZerosAt(s, 0);
    }
    if i :| ZerosAt(s[4..], i) {
      assert s[4..][4 * i..4 * i + 4] == s[4 * (i + 1)..4 * (i + 1) + 4];
      assert ZerosAt(s, i + 1);
    }
  }

  lemma GroupCharacters(s: seq<byte>)
    requires 1 <= |s| <= 4
    ensures var t := GroupText(s);
      if s == [0, 0, 0, 0] then t == [122] else forall k | 0 <= k < |t| :: 33 <= t[k] <= 117
  {
    GroupTextIs(s);
    hide GroupText, Five;
    if |s| == 4 && Block(s) == 0 {
      ZeroBlock(s);
    }
    if s == [0, 0, 0, 0] {
      assert Pad(s, 0, 4) == s;
    }
  }

  /** The number of a group of characters, the missing ones taken for "u", character 117. */
  function Places(g: seq<byte>): (d: seq<int>)
    requires |g| <= 5
    ensures |d| == 5
  {
    seq(5, k requires 0 <= k < 5 => (if k < |g| then g[k] as int else 117) - 33)
  }

  /**
    One group decoded: characters between "!" and "u" whose number fits 32 bits give its bytes, most
    significant first, one less than there are characters; any other group ends the decoding.
   */
  lemma GroupDecoded(g: seq<byte>, t: seq<byte>)
    requires 1 <= |g| <= 5 && g[0] != 122 && (|g| < 5 ==> t == [])
    ensures var v := Big(Places(g), 85);
      if (forall k | 0 <= k < |g| :: 33 <= g[k] <= 117) && v < 0x1_0000_0000
      then v >= 0 && Bytes(g + t) ==
        [v / 0x100_0000, v / 0x1_0000 % 256, v / 0x100 % 256, v % 256][..|g| - 1] + Bytes(t)
      else Bytes(g + t) == []
  {
    var v := Big(Places(g), 85);
    assert FirstGroup(g + t) == g && (g + t)[|g|..] == t;
    if forall k | 0 <= k < |g| :: 33 <= g[k] <= 117 {
      assert Places(g) == Pad(Digit(g), 84, 5);
      ValueIsBig(Places(g));
      PaddedDigits(g);
      FourIs(v);
    }
    hide GroupValue, Four;
  }

  lemma ValueIsBig(d: seq<int>)
    requires |d| == 5
    ensures Big(d, 85) == Value5(d)
  {
    assert d[..4][..3] == d[..3] && d[..3][..2] == d[..2] && d[..2][..1] == d[..1] && d[..1][..0] == [];
    assert Big(d[..1], 85) == d[0];
    assert Big(d[..2], 85) == d[0] * 85 + d[1];
    assert Big(d[..3], 85) == (d[0] * 85 + d[1]) * 85 + d[2];
  }

  lemma FourIs(v: int)
    ensures 0 <= v < U32 ==> Four(v) == [v / 0x100_0000, v / 0x1_0000 % 256, v / 0x100 % 256, v % 256]
  {
  }

  // ----- the two functions

  /** The bytes of one block; a last block may end early. */
  method ReadBlock(src: seq<byte>, start: nat) returns (block: int, si: nat)
    requires start < |src|
    ensures si == start + (if |src| - start >= 4 then 4 else |src| - start)
    ensures block == Block(src[start..si])
  {
    si := start;
    if |src| - si >= 4 {
      block := src[si] as int * 0x100_0000;
      block := block + src[si + 1] as int * 0x1_0000;
      block := block + src[si + 2] as int * 0x100;
      block := block + src[si + 3];
      si := si + 4;
    } else {
      // at most three bytes are left, so the test for a fourth never holds
      block := src[si] as int * 0x100_0000;
      si := si + 1;
      if si < |src| {
        block := block + src[si] as int * 0x1_0000;
        si := si + 1;
      }
      if si < |src| {
        block := block + src[si] as int * 0x100;
        si := si + 1;
      }
    }
  }

  lemma PrintableFive(v: u32, a: byte, b: byte, c: byte, d: byte, e: byte)
    requires a == v / 85 / 85 / 85 / 85 + DEF && b == v / 85 / 85 / 85 % 85 + DEF && c == v / 85 / 85 % 85 + DEF
    requires d == v / 85 % 85 + DEF && e == v % 85 + DEF
    ensures [a, b, c, d, e] == Printable(Five(v))
  {
  }

  /** Stores the five digits of a block, least significant first, and keeps the first of them. */
  method PutDigits(dst: Find, v: u32, kept: nat)
    requires dst.item != null && dst.cpos + 5 <= dst.item.Length < U64 && kept <= 5
    modifies dst`cpos, dst.item
    ensures dst.cpos == old(dst.cpos) + kept
    ensures dst.item[..dst.cpos] == old(dst.item[..dst.cpos]) + Printable(Five(v))[..kept]
  {
    var pdst, at := dst.item, dst.cpos;
    var block := v;
    pdst[at + 4] := block % 85 + DEF;
    block := block / 85;
    pdst[at + 3] := block % 85 + DEF;
    block := block / 85;
    pdst[at + 2] := block % 85 + DEF;
    block := block / 85;
    pdst[at + 1] := block % 85 + DEF;
    block := block / 85;
    pdst[at] := block + DEF;
    PrintableFive(v, pdst[at], pdst[at + 1], pdst[at + 2], pdst[at + 3], pdst[at + 4]);
    hide Five, Printable;
    assert pdst[at..at + 5] == [pdst[at], pdst[at + 1], pdst[at + 2], pdst[at + 3], pdst[at + 4]];
    assert pdst[..at] == old(dst.item[..dst.cpos]);
    dst.cpos := at + kept;
    assert pdst[at..at + kept] == pdst[at..at + 5][..kept];
    assert pdst[..at + kept] == pdst[..at] + pdst[at..at + kept];
  }

  /** One turn of the encoder: the text of the group at `start` is appended. */
  method EncodeGroup(src: seq<byte>, start: nat, dst: Find) returns (si: nat)
    requires start < |src| && dst.item != null && dst.item.Length < U64
    requires dst.cpos + |Text(src[start..])| + 3 <= dst.item.Length
    modifies dst`cpos, dst.item
    ensures start < si <= |src| && dst.cpos <= dst.item.Length
    ensures dst.item[..dst.cpos] + Text(src[si..]) == old(dst.item[..dst.cpos]) + Text(src[start..])
  {
    hide Text, Five, Block, GroupText, Printable;
    var pdst := dst.item;
    var blocksize := |src| - start;
    ghost var done, group := pdst[..dst.cpos], if blocksize >= 4 then src[start..start + 4] else src[start..];
    var block;
    block, si := ReadBlock(src, start);
    NextText(src, start, group);
    assert src[start..si] == group;
    GroupTextIs(group);
    if block == 0 && blocksize >= 4 {
      Append(dst, ZERO);
    } else {
      PutDigits(dst, block, if blocksize >= 4 then 5 else blocksize + 1);
    }
    Regroup(done, GroupText(group), Text(src[si..]));
  }

  lemma GroupTextIs(s: seq<byte>)
    requires 1 <= |s| <= 4
    ensures var z := |s| == 4 && Block(s) == 0;
      GroupText(s) == if z then [ZERO] else Printable(Five(Block(s)))[..|s| + 1]
  {
  }

  /** base85_encode; five cells are written for every group, so the last one needs room beyond its text. */
  method Encode(src: seq<byte>, capacity: u64) returns (dst: Find?)
    requires src != [] ==> |Text(src)| + 3 <= capacity
    ensures dst == null <==> src == []
    ensures dst != null ==> fresh(dst) && Returns(dst, Text(src))
  {
    hide Text;
    if src == [] {
      return null;
    }
    dst := new Find(capacity, NOBLOCKSIZE);
    var si := 0;
    while si < |src|
      invariant si <= |src| && fresh(dst) && dst.item != null && fresh(dst.item)
      invariant dst.cpos <= dst.item.Length == capacity
      invariant dst.item[..dst.cpos] + Text(src[si..]) == Text(src)
    {
      si := EncodeGroup(src, si, dst);
    }
    NoText(src[si..]);
    Finish(dst, Text(src));
  }

  lemma NoText(s: seq<byte>)
    requires s == []
    ensures Text(s) == [] && Bytes(s) == []
  {
  }

  lemma NextText(src: seq<byte>, si: nat, group: seq<byte>)
    requires si < |src| && group == if |src| - si >= 4 then src[si..si + 4] else src[si..]
    ensures Text(src[si..]) == GroupText(group) + Text(src[si + |group|..])
    ensures |GroupText(group)| >= 1
    ensures |GroupText(group)| == if |group| == 4 && Block(group) == 0 then 1 else |group| + 1
  {
    if |src| - si >= 4 {
      assert src[si..][..4] == group && src[si..][4..] == src[si + 4..];
    } else {
      assert src[si + |group|..] == [];
    }
  }

  /** The test of the characters of a group, each only if it is there. */
  predicate Outside(c: byte) {
    c < 33 || c > 117
  }

  method AnyOutside(src: seq<byte>, si: nat) returns (bad: bool)
    requires si < |src|
    ensures bad <==> !InRange(FirstGroup(src[si..]))
  {
    var blocksize := |src| - si;
    bad := Outside(src[si])
      || (blocksize > 1 && Outside(src[si + 1]))
      || (blocksize > 2 && Outside(src[si + 2]))
      || (blocksize > 3 && Outside(src[si + 3]))
      || (blocksize > 4 && Outside(src[si + 4]));
    ghost var g := FirstGroup(src[si..]);
    assert g[0] == src[si];
    assert forall k | 0 <= k < |g| :: g[k] == src[si + k];
  }

  /** The digits of a group; the last is kept apart until the guards have been passed. */
  method ReadDigits(src: seq<byte>, start: nat) returns (block: int, addend: byte, si: nat)
    requires start < |src| && InRange(FirstGroup(src[start..]))
    ensures var g := FirstGroup(src[start..]);
      si == start + |g| && LeadingDigits(Pad(Digit(g), 84, 5), block, addend)
  {
    hide FirstGroup;
    ghost var g := FirstGroup(src[start..]);
    GroupLength(src[start..]);
    assert forall k | 0 <= k < |g| :: g[k] == src[start + k];
    si := start;
    if |src| - si >= 5 {
      block := src[si] - DEF;
      block := block * 85 + (src[si + 1] - DEF);
      block := block * 85 + (src[si + 2] - DEF);
      block := block * 85 + (src[si + 3] - DEF);
      addend := src[si + 4] - DEF;
      si := si + 5;
    } else {
      block := src[si] - DEF;
      si := si + 1;
      block := block * 85 + if si < |src| then src[si] - DEF else 84;
      si := if si < |src| then si + 1 else si;
      block := block * 85 + if si < |src| then src[si] - DEF else 84;
      si := if si < |src| then si + 1 else si;
      block := block * 85 + if si < |src| then src[si] - DEF else 84;
      si := if si < |src| then si + 1 else si;
      addend := 84;
    }
  }

  ghost predicate LeadingDigits(d: seq<int>, block: int, addend: int)
    requires |d| == 5
  {
    block == ((d[0] * 85 + d[1]) * 85 + d[2]) * 85 + d[3] && addend == d[4]
  }

  /** One group that starts with a digit: it is read exactly when it is `Readable`. */
  method ReadGroup(src: seq<byte>, start: nat) returns (ok: bool, block: int, si: nat)
    requires start < |src|
    ensures ok <==> Readable(FirstGroup(src[start..]))
    ensures ok ==> si == start + |FirstGroup(src[start..])| && block == GroupValue(FirstGroup(src[start..]))
    ensures ok ==> 0 <= block < U32
  {
    var bad := AnyOutside(src, start);
    if bad {
      return false, 0, start;
    }
    hide FirstGroup, Pad, Digit, InRange;
    ghost var d: seq<int> := Pad(Digit(FirstGroup(src[start..])), 84, 5);
    var addend;
    block, addend, si := ReadDigits(src, start);
    PaddedDigits(FirstGroup(src[start..]));
    GuardsExact(d, block);
    if block > (U32 - 1) / 85 {
      return false, block, si;
    }
    block := block * 85;
    if block > U32 - 1 - addend {
      return false, block, si;
    }
    return true, block + addend, si;
  }

  lemma PaddedDigits(g: seq<byte>)
    requires 1 <= |g| <= 5 && InRange(g)
    ensures forall k | 0 <= k < 5 :: Pad(Digit(g), 84, 5)[k] < 85
    ensures GroupValue(g) >= 0
  {
  }

  lemma GroupLength(t: seq<byte>)
    requires t != []
    ensures |FirstGroup(t)| == if |t| >= 5 then 5 else |t|
  {
  }

  /** Stores the four bytes of a block, least significant first, and keeps the first of them. */
  method PutBytes(dst: Find, v: u32, kept: nat)
    requires dst.item != null && dst.cpos + 4 <= dst.item.Length < U64 && kept <= 4
    modifies dst`cpos, dst.item
    ensures dst.cpos == old(dst.cpos) + kept
    ensures dst.item[..dst.cpos] == old(dst.item[..dst.cpos]) + Four(v)[..kept]
  {
    var pdst, at := dst.item, dst.cpos;
    var block := v;
    pdst[at + 3] := block % 256;
    block := block / 256;
    pdst[at + 2] := block % 256;
    block := block / 256;
    pdst[at + 1] := block % 256;
    block := block / 256;
    pdst[at] := block;
    assert pdst[..at] == old(dst.item[..dst.cpos]);
    assert pdst[at..at + 4] == Four(v);
    dst.cpos := at + kept;
    assert pdst[at..at + kept] == pdst[at..at + 4][..kept];
    assert pdst[..at + kept] == pdst[..at] + pdst[at..at + kept];
  }

  /** One turn of the decoder: the bytes of the group at `start` are appended, unless it cannot be read. */
  method DecodeGroup(src: seq<byte>, start: nat, dst: Find) returns (ok: bool, si: nat)
    requires start < |src| && dst.item != null && dst.item.Length < U64
    requires dst.cpos + |Bytes(src[start..])| + 4 <= dst.item.Length
    modifies dst`cpos, dst.item
    ensures dst.cpos <= dst.item.Length
    ensures ok ==> start < si <= |src|
    ensures ok ==> dst.item[..dst.cpos] + Bytes(src[si..]) == old(dst.item[..dst.cpos]) + Bytes(src[start..])
    ensures !ok ==> dst.item[..dst.cpos] == old(dst.item[..dst.cpos]) && Bytes(src[start..]) == []
  {
    hide Bytes, FirstGroup, Readable, GroupValue, Four;
    var pdst := dst.item;
    var blocksize := |src| - start;
    var block: int := 0;
    ghost var done := pdst[..dst.cpos];
    NextBytes(src, start);
    if src[start] == ZERO {
      ok, si := true, start + 1;
      blocksize := 5;
    } else {
      GroupLength(src[start..]);
      ok, block, si := ReadGroup(src, start);
      if !ok {
        return;
      }
    }
    var kept := if blocksize >= 5 then 4 else blocksize - 1;
    PutBytes(dst, block, kept);
    Regroup(done, Four(block)[..kept], Bytes(src[si..]));
  }

  /** base85_decode; four cells are written for every group. */
  method Decode(src: seq<byte>, capacity: u64) returns (dst: Find?)
    requires src != [] ==> |Bytes(src)| + 4 <= capacity
    ensures dst == null <==> src == []
    ensures dst != null ==> fresh(dst) && Returns(dst, Bytes(src))
  {
    hide Bytes;
    if src == [] {
      return null;
    }
    dst := new Find(capacity, NOBLOCKSIZE);
    var si := 0;
    while si < |src|
      invariant si <= |src| && fresh(dst) && dst.item != null && fresh(dst.item)
      invariant dst.cpos <= dst.item.Length == capacity
      invariant dst.item[..dst.cpos] + Bytes(src[si..]) == Bytes(src)
    {
      var ok;
      ok, si := DecodeGroup(src, si, dst);
      if !ok {
        Finish(dst, Bytes(src));
        return;
      }
    }
    NoText(src[si..]);
    Finish(dst, Bytes(src));
  }

  lemma NextBytes(src: seq<byte>, si: nat)
    requires si < |src|
    ensures src[si] == ZERO ==> Bytes(src[si..]) == Four(0)[..4] + Bytes(src[si + 1..])
    ensures var g := FirstGroup(src[si..]);
      && (src[si] != ZERO && Readable(g) ==>
            Bytes(src[si..]) == Four(GroupValue(g))[..|g| - 1] + Bytes(src[si + |g|..]))
      && (src[si] != ZERO && !Readable(g) ==> Bytes(src[si..]) == [])
  {
    hide Readable, GroupValue, FirstGroup;
    var t := src[si..];
    if src[si] == ZERO {
      assert t[1..] == src[si + 1..];
      assert Four(0)[..4] == Repeat(0, 4);
    } else {
      assert t[|FirstGroup(t)|..] == src[si + |FirstGroup(t)|..];
    }
  }
}
