/**
  base64_encode (src/encode.c:557-600) and base64_decode (src/decode.c:808-840), the encoding of
  section 4 of RFC 4648.
 */
module Base64 {
  import opened Radix
  import opened MemFind
  import opened Codec

  const PAD: byte := 61

  // ----- the alphabet

  /** base64_map. */
  function Symbol(d: int): byte
    requires 0 <= d < 64
  {
    if d < 26 then 65 + d               // 'A' .. 'Z'
    else if d < 52 then 97 + (d - 26)   // 'a' .. 'z'
    else if d < 62 then 48 + (d - 52)   // '0' .. '9'
    else if d == 62 then 43             // '+'
    else 47                             // '/'
  }

  /** The place of a character in the alphabet, or 64. */
  function Index(c: byte): (d: byte)
    ensures d <= 64
    ensures d < 64 ==> Symbol(d) == c
    ensures forall k | 0 <= k < d :: Symbol(k) != c
  {
    if 65 <= c <= 90 then c - 65
    else if 97 <= c <= 122 then c - 97 + 26
    else if 48 <= c <= 57 then c - 48 + 52
    else if c == 43 then 62
    else if c == 47 then 63
    else 64
  }

  lemma IndexOfSymbol(d: int)
    requires 0 <= d < 64
    ensures Index(Symbol(d)) == d
  {
  }

  // ----- what the encoder computes, as RFC 4648 puts it

  /** A 24-bit input group, the missing bytes filled with zero bits. */
  function Group24(s: seq<byte>): (v: int)
    requires 1 <= |s| <= 3
    ensures 0 <= v < 0x100_0000
  {
    s[0] as int * 0x1_0000 + (if |s| > 1 then s[1] as int * 0x100 else 0) + (if |s| > 2 then s[2] else 0)
  }

  /** Its four 6-bit values. */
  function Sextets(v: int): (d: seq<byte>)
    requires 0 <= v < 0x100_0000
    ensures |d| == 4 && forall k | 0 <= k < 4 :: d[k] < 64
  {
    [v / 64 / 64 / 64, v / 64 / 64 % 64, v / 64 % 64, v % 64]
  }

  function Symbols(d: seq<byte>): (t: seq<byte>)
    requires forall k | 0 <= k < |d| :: d[k] < 64
    ensures |t| == |d|
  {
    seq(|d|, k requires 0 <= k < |d| => Symbol(d[k]))
  }

  /** One more symbol than there are bytes, and padding up to four characters. */
  function GroupText(s: seq<byte>): (t: seq<byte>)
    requires 1 <= |s| <= 3
    ensures |t| == 4
  {
    Symbols(Sextets(Group24(s)))[..|s| + 1] + Repeat(PAD, 3 - |s|)
  }

  function Text(s: seq<byte>): seq<byte> {
    if s == [] then []
    else if |s| < 3 then GroupText(s)
    else GroupText(s[..3]) + Text(s[3..])
  }

  // ----- what the decoder computes

  function Indices(t: seq<byte>): (q: seq<byte>)
    ensures |q| == |t| && forall k | 0 <= k < |q| :: q[k] == Index(t[k])
  {
    seq(|t|, k requires 0 <= k < |t| => Index(t[k]))
  }

  /** The bytes of four places, modulo 256; a place 64 in the second half drops a byte. */
  function GroupBytes(q: seq<byte>): (b: seq<byte>)
    requires |q| == 4
    ensures 1 <= |b| <= 3
  {
    [(q[0] as int * 4 + q[1] / 16) % 256]
    + (if q[2] != 64 then [(q[1] as int * 16 + q[2] / 4) % 256] else [])
    + (if q[3] != 64 then [(q[2] as int * 64 + q[3]) % 256] else [])
  }

  /** Characters after the last whole group do not matter. */
  function Bytes(t: seq<byte>): seq<byte> {
    if |t| < 4 then [] else GroupBytes(Indices(t[..4])) + Bytes(t[4..])
  }

  // ----- size

  /** The length of the text, and that it fits the buffer together with the terminator. */
  lemma {:induction false} TextSize(s: seq<byte>)
    ensures |Text(s)| == (|s| + 2) / 3 * 4
    ensures |Text(s)| + 1 <= |s| * 4 / 3 + 4
    decreases |s|
  {
    if |s| >= 3 {
      TextSize(s[3..]);
    }
  }

  // ----- round trips

  lemma Separate(s: seq<byte>)
    requires 1 <= |s| <= 3
    ensures var d := Sextets(Group24(s));
      && s[0] == d[0] as int * 4 + d[1] / 16
      && (|s| > 1 ==> s[1] == d[1] % 16 * 16 + d[2] / 4)
      && (|s| > 2 ==> s[2] == d[2] % 4 * 64 + d[3])
  {
  }

  lemma GroupIndices(s: seq<byte>)
    requires 1 <= |s| <= 3
    ensures var q := Indices(GroupText(s));
      && q[..|s| + 1] == Sextets(Group24(s))[..|s| + 1]
      && (forall k | |s| + 1 <= k < 4 :: q[k] == 64)
  {
    hide Sextets, Group24, Symbol, Index;
    var d, t := Sextets(Group24(s)), GroupText(s);
    forall k | 0 <= k < |s| + 1 ensures Index(t[k]) == d[k] {
      IndexOfSymbol(d[k]);
    }
    assert Index(PAD) == 64 by {
      PadIndex();
    }
  }

  lemma PadIndex()
    ensures Index(PAD) == 64
  {
  }

  lemma HighBits(a: nat, c: nat)
    ensures c < 16 ==> (a * 16 + c) % 256 == a % 16 * 16 + c
    ensures c < 64 ==> (a * 64 + c) % 256 == a % 4 * 64 + c
  {
    if c < 16 {
      DivUnique(a * 16 + c, a / 16, a % 16 * 16 + c, 256);
    }
    if c < 64 {
      DivUnique(a * 64 + c, a / 4, a % 4 * 64 + c, 256);
    }
  }

  /** The bytes of four places, without the arithmetic modulo 256. */
  lemma PlainBytes(q: seq<byte>)
    requires |q| == 4 && q[0] < 64 && q[1] < 64 && q[2] <= 64 && q[3] <= 64
    ensures var b := GroupBytes(q);
      && b[0] == q[0] as int * 4 + q[1] / 16
      && (q[2] < 64 ==> |b| > 1 && b[1] == q[1] % 16 * 16 + q[2] / 4)
      && (q[2] < 64 && q[3] < 64 ==> |b| > 2 && b[2] == q[2] % 4 * 64 + q[3])
      && |b| == 1 + (if q[2] < 64 then 1 else 0) + (if q[3] < 64 then 1 else 0)
  {
    HighBits(q[1], q[2] / 4);
    HighBits(q[2], q[3]);
  }

  lemma GroupRoundTrip(s: seq<byte>)
    requires 1 <= |s| <= 3
    ensures GroupBytes(Indices(GroupText(s))) == s
  {
    hide *;
    GroupIndices(s);
    Separate(s);
    var q := Indices(GroupText(s));
    var d := Sextets(Group24(s));
    assert forall k | 0 <= k < |s| + 1 :: q[..|s| + 1][k] == d[k];
    PlainBytes(q);
  }

  lemma TakeGroup(g: seq<byte>, rest: seq<byte>)
    requires |g| == 4
    ensures Bytes(g + rest) == GroupBytes(Indices(g)) + Bytes(rest)
  {
    assert (g + rest)[..4] == g && (g + rest)[4..] == rest;
  }

  /** base64_decode undoes base64_encode on every input, also when up to three characters follow the text. */
  lemma {:induction false} RoundTrip(s: seq<byte>, after: seq<byte>)
    requires |after| < 4
    ensures Bytes(Text(s) + after) == s
    decreases |s|
  {
    if s == [] {
      assert Text(s) + after == after;
    } else if |s| < 3 {
      GroupRoundTrip(s);
      hide GroupText, GroupBytes, Indices;
      TakeGroup(GroupText(s), after);
    } else {
      RoundTrip(s[3..], after);
      GroupRoundTrip(s[..3]);
      hide GroupText, GroupBytes, Indices;
      TakeGroup(GroupText(s[..3]), Text(s[3..]) + after);
      Regroup(GroupText(s[..3]), Text(s[3..]), after);
    }
  }

  /** Whole groups of the alphabet, the last one padded and with zero bits where no byte is left. */
  predicate Canonical(t: seq<byte>) {
    t == [] || (|t| >= 4 && CanonicalGroup(t[..4], |t| == 4) && Canonical(t[4..]))
  }

  predicate CanonicalGroup(g: seq<byte>, last: bool)
    requires |g| == 4
  {
    var q := Indices(g);
    && q[0] < 64 && q[1] < 64
    && ((q[2] < 64 && q[3] < 64)
        || (last && q[2] < 64 && q[2] % 4 == 0 && g[3] == PAD)
        || (last && q[1] % 16 == 0 && g[2] == PAD && g[3] == PAD))
  }

  predicate CanonicalPlaces(q: seq<byte>)
    requires |q| == 4
  {
    && q[0] < 64 && q[1] < 64
    && ((q[2] < 64 && q[3] < 64)
        || (q[2] < 64 && q[2] % 4 == 0 && q[3] == 64)
        || (q[1] % 16 == 0 && q[2] == 64 && q[3] == 64))
  }

  lemma SextetsUnique(v: int, d: seq<byte>)
    requires |d| == 4 && forall k | 0 <= k < 4 :: d[k] < 64
    requires v == ((d[0] as int * 64 + d[1]) * 64 + d[2]) * 64 + d[3]
    ensures 0 <= v < 0x100_0000 && Sextets(v) == d
  {
  }

  /** Bytes put together from places come apart into the same places. */
  lemma Join(q: seq<byte>)
    requires |q| == 4 && CanonicalPlaces(q)
    ensures var b := GroupBytes(q);
      Sextets(Group24(b))[..|b| + 1] == q[..|b| + 1] && forall k | |b| + 1 <= k < 4 :: q[k] == 64
  {
    PlainBytes(q);
    hide GroupBytes, Sextets;
    var d: seq<byte> := [q[0], q[1], if q[2] < 64 then q[2] else 0, if q[3] < 64 then q[3] else 0];
    SextetsUnique(Group24(GroupBytes(q)), d);
  }

  lemma CanonicalIndices(g: seq<byte>, last: bool)
    requires |g| == 4
    ensures CanonicalGroup(g, true) <==> CanonicalPlaces(Indices(g)) && forall k | 0 <= k < 4 :: IsText(g[k])
    ensures CanonicalGroup(g, false) <==> forall k | 0 <= k < 4 :: Indices(g)[k] < 64
  {
    PadIndex();
    hide Index;
  }

  predicate IsText(c: byte) {
    Index(c) < 64 || c == PAD
  }

  lemma TextOfIndices(g: seq<byte>, n: nat)
    requires |g| == 4 && 2 <= n <= 4 && forall k | 0 <= k < 4 :: IsText(g[k])
    requires (forall k | 0 <= k < n :: Indices(g)[k] < 64) && (forall k | n <= k < 4 :: Indices(g)[k] == 64)
    ensures g == Symbols(Indices(g)[..n]) + Repeat(PAD, 4 - n)
  {
    hide Symbol;
  }

  lemma SymbolsPrefix(d: seq<byte>, n: nat)
    requires n <= |d| && forall k | 0 <= k < |d| :: d[k] < 64
    ensures Symbols(d)[..n] == Symbols(d[..n])
  {
    hide Symbol;
  }

  lemma CanonicalShape(g: seq<byte>, last: bool)
    requires |g| == 4 && CanonicalGroup(g, last)
    ensures CanonicalPlaces(Indices(g)) && forall k | 0 <= k < 4 :: IsText(g[k])
    ensures var q, n := Indices(g), |GroupBytes(Indices(g))| + 1;
      && (forall k | 0 <= k < n :: q[k] < 64) && (forall k | n <= k < 4 :: q[k] == 64)
      && (!last ==> n == 4)
  {
    CanonicalIndices(g, last);
    PlainBytes(Indices(g));
    hide IsText, Index, CanonicalGroup, GroupBytes;
  }

  lemma CanonicalGroupText(g: seq<byte>, last: bool)
    requires |g| == 4 && CanonicalGroup(g, last)
    ensures GroupText(GroupBytes(Indices(g))) == g
    ensures !last ==> |GroupBytes(Indices(g))| == 3
  {
    hide *;
    CanonicalShape(g, last);
    var b := GroupBytes(Indices(g));
    Join(Indices(g));
    GroupTextIs(b);
    SymbolsPrefix(Sextets(Group24(b)), |b| + 1);
    TextOfIndices(g, |b| + 1);
  }

  lemma GroupTextIs(s: seq<byte>)
    requires 1 <= |s| <= 3
    ensures GroupText(s) == Symbols(Sextets(Group24(s)))[..|s| + 1] + Repeat(PAD, 3 - |s|)
  {
  }

  lemma GroupTextCanonical(s: seq<byte>)
    requires 1 <= |s| <= 3
    ensures CanonicalGroup(GroupText(s), true) && (|s| == 3 ==> CanonicalGroup(GroupText(s), false))
  {
    hide Sextets, Group24, Symbol, Index;
    GroupIndices(s);
    ZeroBits(s);
    CanonicalIndices(GroupText(s), true);
  }

  /** The bits no byte fills are zero. */
  lemma ZeroBits(s: seq<byte>)
    requires 1 <= |s| <= 3
    ensures |s| == 1 ==> Sextets(Group24(s))[1] % 16 == 0
    ensures |s| == 2 ==> Sextets(Group24(s))[2] % 4 == 0
  {
    hide Sextets;
    if |s| == 1 {
      SextetsUnique(Group24(s), [s[0] / 4, s[0] % 4 * 16, 0, 0]);
    } else if |s| == 2 {
      SextetsUnique(Group24(s), [s[0] / 4, s[0] % 4 * 16 + s[1] / 16, s[1] % 16 * 4, 0]);
    }
  }

  lemma {:induction false} TextCanonical(s: seq<byte>)
    ensures Canonical(Text(s))
    decreases |s|
  {
    if s == [] {
    } else if |s| < 3 {
      GroupTextCanonical(s);
      hide GroupText, CanonicalGroup;
      assert Text(s)[..4] == Text(s) && Text(s)[4..] == [];
    } else {
      GroupTextCanonical(s[..3]);
      TextCanonical(s[3..]);
      hide GroupText, CanonicalGroup;
      assert Text(s)[..4] == GroupText(s[..3]) && Text(s)[4..] == Text(s[3..]);
    }
  }

  /** base64_encode undoes base64_decode exactly on the canonical texts. */
  lemma EncodeDecode(t: seq<byte>)
    ensures Text(Bytes(t)) == t <==> Canonical(t)
  {
    TextCanonical(Bytes(t));
    if Canonical(t) {
      CanonicalText(t);
    }
  }

  lemma {:induction false} CanonicalText(t: seq<byte>)
    requires Canonical(t)
    ensures Text(Bytes(t)) == t
    decreases |t|
  {
    if t != [] {
      CanonicalGroupText(t[..4], |t| == 4);
      CanonicalText(t[4..]);
      hide GroupText, CanonicalGroup, GroupBytes, Indices, Canonical;
      var b := GroupBytes(Indices(t[..4]));
      assert t == t[..4] + t[4..];
      TextFirst(b, Bytes(t[4..]), |t| == 4);
    }
  }

  /** A group in front of other bytes, which there are unless it is the last one. */
  lemma TextFirst(b: seq<byte>, rest: seq<byte>, last: bool)
    requires 1 <= |b| <= 3 && (last ==> rest == []) && (!last ==> |b| == 3)
    ensures Text(b + rest) == GroupText(b) + Text(rest)
  {
    hide GroupText;
    if |b| == 3 {
      assert (b + rest)[..3] == b && (b + rest)[3..] == rest;
    } else {
      assert b + rest == b;
    }
  }

  // ----- the characters, written out

  /** Table 1 of RFC 4648. */
  const ALPHABET := "ABCDEFGHIJKLMNOP" + "QRSTUVWXYZabcdef" + "ghijklmnopqrstuv" + "wxyz0123456789+/"

  lemma AlphabetSymbol(d: int)
    requires 0 <= d < 64
    ensures Symbol(d) as char == ALPHABET[d]
  {
  }

  /** The symbols are those of the alphabet in its order, and the place of a character is where it stands. */
  lemma Alphabet(c: byte)
    ensures |ALPHABET| == 64
    ensures Index(c) < 64 ==> ALPHABET[Index(c)] == c as char
    ensures Index(c) == 64 <==> c as char !in ALPHABET
    ensures forall d | 0 <= d < 64 && ALPHABET[d] == c as char :: Index(c) == d
  {
    hide Index, Symbol, ALPHABET;
    AlphabetLength();
    if Index(c) < 64 {
      AlphabetSymbol(Index(c));
    }
    forall d | 0 <= d < 64 && ALPHABET[d] == c as char ensures Index(c) == d {
      AlphabetSymbol(d);
      IndexOfSymbol(d);
    }
  }

  lemma AlphabetLength()
    ensures |ALPHABET| == 64
  {
  }

  /**
    The k-th group of six bits of the input: two bytes from the one it begins in, zeros beyond the end,
    shifted down so that the six bits are left.
   */
  function SixBits(s: seq<byte>, k: nat): (v: int)
    ensures 0 <= v < 64
  {
    var j := 3 * k / 4;
    var word := (if j < |s| then s[j] as int * 256 else 0) + if j + 1 < |s| then s[j + 1] else 0;
    (match k % 4
     case 0 => word / 1024
     case 1 => word / 16
     case 2 => word / 64
     case _ => word / 256) % 64
  }

  /** The four groups of three bytes. */
  lemma ThreeBytes(a: byte, b: byte, c: byte)
    ensures (a as int * 256 + b) / 1024 % 64 == a / 4
    ensures (a as int * 256 + b) / 16 % 64 == a % 4 * 16 + b / 16
    ensures (b as int * 256 + c) / 64 % 64 == b % 16 * 4 + c / 64
    ensures (c as int * 256) / 256 % 64 == c % 64
  {
    DivUnique(a as int * 256 + b, a / 4, a % 4 * 256 + b, 1024);
    DivUnique(a as int * 256 + b, a as int * 16 + b / 16, b % 16, 16);
    DivUnique(a as int * 16 + b / 16, a / 4, a % 4 * 16 + b / 16, 64);
    DivUnique(b as int * 256 + c, b as int * 4 + c / 64, c % 64, 64);
    DivUnique(b as int * 4 + c / 64, b / 16, b % 16 * 4 + c / 64, 64);
    DivUnique(c as int * 256, c, 0, 256);
  }

  lemma SixBitsOf(s: seq<byte>, a: byte, b: byte, c: byte)
    requires 1 <= |s| <= 3 && a == s[0]
    requires b == (if |s| > 1 then s[1] else 0) && c == (if |s| > 2 then s[2] else 0)
    ensures SixBits(s, 0) == (a as int * 256 + b) / 1024 % 64 && SixBits(s, 1) == (a as int * 256 + b) / 16 % 64
    ensures SixBits(s, 2) == (b as int * 256 + c) / 64 % 64
    ensures |s| == 3 ==> SixBits(s, 3) == (c as int * 256) / 256 % 64
  {
  }

  lemma GroupSixBits(s: seq<byte>, k: nat)
    requires 1 <= |s| <= 3 && k <= |s|
    ensures Sextets(Group24(s))[k] == SixBits(s, k)
  {
    var a, b, c := s[0], if |s| > 1 then s[1] else 0, if |s| > 2 then s[2] else 0;
    hide Sextets, SixBits;
    SextetsUnique(Group24(s), [a / 4, a % 4 * 16 + b / 16, b % 16 * 4 + c / 64, c % 64]);
    hide Group24;
    ThreeBytes(a, b, c);
    SixBitsOf(s, a, b, c);
    assert k == 0 || k == 1 || k == 2 || k == 3;
  }

  /**
    The text character by character: the alphabet at the groups of six bits, as many as it takes, and
    the padding "=", character 61, up to a multiple of four.
   */
  lemma {:induction false} TextCharacters(s: seq<byte>, k: nat)
    requires k < |Text(s)|
    ensures |Text(s)| == (|s| + 2) / 3 * 4
    ensures k < (4 * |s| + 2) / 3 ==> Text(s)[k] as char == ALPHABET[SixBits(s, k)]
    ensures k >= (4 * |s| + 2) / 3 ==> Text(s)[k] == 61
    decreases |s|
  {
    hide Symbol, ALPHABET, SixBits;
    TextSize(s);
    var g := if |s| < 3 then s else s[..3];
    if k < 4 {
      GroupTextIs(g);
      if k <= |g| {
        GroupSixBits(g, k);
        AlphabetSymbol(SixBits(g, k));
        SameSixBits(s, g, k);
      }
    } else {
      TextCharacters(s[3..], k - 4);
      LaterSixBits(s, k);
    }
  }

  lemma SameSixBits(s: seq<byte>, g: seq<byte>, k: nat)
    requires k < 4 && k <= |g| && (if |s| < 3 then g == s else g == s[..3])
    ensures SixBits(s, k) == SixBits(g, k)
  {
  }

  lemma LaterSixBits(s: seq<byte>, k: nat)
    requires |s| >= 3 && k >= 4
    ensures SixBits(s, k) == SixBits(s[3..], k - 4)
  {
  }

  /** Four characters decoded: their places in the alphabet, put together modulo 256; a place 64 drops a byte. */
  lemma FourDecoded(a: byte, b: byte, c: byte, d: byte, t: seq<byte>)
    ensures Bytes([a, b, c, d] + t) ==
      [(Index(a) as int * 4 + Index(b) / 16) % 256]
      + (if Index(c) != 64 then [(Index(b) as int * 16 + Index(c) / 4) % 256] else [])
      + (if Index(d) != 64 then [(Index(c) as int * 64 + Index(d)) % 256] else [])
      + Bytes(t)
  {
    hide Index;
    TakeGroup([a, b, c, d], t);
  }

  // ----- the two functions

  /** Three bytes collected: four symbols. */
  method AppendWhole(dst: Find, tmp: array<byte>)
    requires tmp.Length == 3 && dst.item != null && tmp != dst.item && dst.cpos + 4 <= dst.item.Length < U64
    modifies dst`cpos, dst.item
    ensures dst.cpos == old(dst.cpos) + 4
    ensures dst.item[..dst.cpos] == old(dst.item[..dst.cpos]) + GroupText(tmp[..])
  {
    WholeText(tmp[..]);
    hide GroupText, Symbol;
    Append(dst, Symbol(tmp[0] / 4));
    Append(dst, Symbol(tmp[0] % 4 * 16 + tmp[1] / 16));
    Append(dst, Symbol(tmp[1] % 16 * 4 + tmp[2] / 64));
    Append(dst, Symbol(tmp[2] % 64));
  }

  lemma WholeText(b: seq<byte>)
    requires |b| == 3
    ensures GroupText(b) == [Symbol(b[0] / 4), Symbol(b[0] % 4 * 16 + b[1] / 16),
      Symbol(b[1] % 16 * 4 + b[2] / 64), Symbol(b[2] % 64)]
  {
    SextetsUnique(Group24(b), [b[0] / 4, b[0] % 4 * 16 + b[1] / 16, b[1] % 16 * 4 + b[2] / 64, b[2] % 64]);
    hide Sextets, Group24, Symbol;
  }

  /** One or two bytes left over: the last symbol has zero bits, padding follows. */
  method AppendRest(dst: Find, tmp: array<byte>, j: nat)
    requires 1 <= j <= 2 < tmp.Length
    requires dst.item != null && tmp != dst.item && dst.cpos + 4 <= dst.item.Length < U64
    modifies dst`cpos, dst.item
    ensures dst.cpos == old(dst.cpos) + 4
    ensures dst.item[..dst.cpos] == old(dst.item[..dst.cpos]) + GroupText(tmp[..j])
  {
    RestText(tmp[..j]);
    hide GroupText, Symbol;
    Append(dst, Symbol(tmp[0] / 4));
    if j == 1 {
      Append(dst, Symbol(tmp[0] % 4 * 16));
      Append(dst, PAD);
    } else {
      Append(dst, Symbol(tmp[0] % 4 * 16 + tmp[1] / 16));
      Append(dst, Symbol(tmp[1] % 16 * 4));
    }
    Append(dst, PAD);
  }

  lemma RestText(b: seq<byte>)
    requires 1 <= |b| <= 2
    ensures |b| == 1 ==> GroupText(b) == [Symbol(b[0] / 4), Symbol(b[0] % 4 * 16), PAD, PAD]
    ensures |b| == 2 ==>
      GroupText(b) == [Symbol(b[0] / 4), Symbol(b[0] % 4 * 16 + b[1] / 16), Symbol(b[1] % 16 * 4), PAD]
  {
    if |b| == 1 {
      SextetsUnique(Group24(b), [b[0] / 4, b[0] % 4 * 16, 0, 0]);
    } else {
      SextetsUnique(Group24(b), [b[0] / 4, b[0] % 4 * 16 + b[1] / 16, b[1] % 16 * 4, 0]);
    }
    hide Sextets, Group24, Symbol;
  }

  lemma NextText(src: seq<byte>, i: nat)
    requires i <= |src|
    ensures i + 3 <= |src| ==> Text(src[i..]) == GroupText(src[i..i + 3]) + Text(src[i + 3..])
    ensures i < |src| < i + 3 ==> Text(src[i..]) == GroupText(src[i..])
    ensures i == |src| ==> Text(src[i..]) == []
  {
    if i + 3 <= |src| {
      assert src[i..][..3] == src[i..i + 3] && src[i..][3..] == src[i + 3..];
    }
  }

  /** One turn of the encoder's loop. */
  method EncodeByte(src: seq<byte>, i: nat, dst: Find, tmp: array<byte>, start: nat) returns (j: nat)
    requires i < |src| && start < 3 && start <= i && tmp.Length == 3 && tmp[..start] == src[i - start..i]
    requires dst.item != null && dst.item != tmp && dst.cpos + |Text(src[i - start..])| < dst.item.Length < U64
    modifies dst`cpos, dst.item, tmp
    ensures j < 3 && j <= i + 1 && tmp[..j] == src[i + 1 - j..i + 1] && dst.cpos <= dst.item.Length
    ensures var before := old(dst.item[..dst.cpos]) + Text(src[i - start..]);
      dst.item[..dst.cpos] + Text(src[i + 1 - j..]) == before
  {
    hide Text, GroupText;
    j := start;
    tmp[j] := src[i];
    j := j + 1;
    assert tmp[..j] == src[i + 1 - j..i + 1];
    if j == 3 {
      NextText(src, i - 2);
      assert tmp[..] == src[i - 2..i + 1];
      AppendWhole(dst, tmp);
      j := 0;
    }
  }

  /** base64_encode, with the buffer it allocates. */
  method Encode(src: seq<byte>) returns (dst: Find?)
    requires |src| * 4 < U64 - 16
    ensures dst == null <==> src == []
    ensures dst != null ==> fresh(dst) && Returns(dst, Text(src))
  {
    if src == [] {
      return null;
    }
    TextSize(src);
    dst := new Find(|src| * 4 / 3 + 4, NOBLOCKSIZE);
    EncodeInto(src, dst);
  }

  /** The text of all bytes, in a buffer that has room for it. */
  method EncodeInto(src: seq<byte>, dst: Find)
    requires dst.item != null && dst.cpos == 0 && |Text(src)| < dst.item.Length < U64
    modifies dst, dst.item
    ensures dst.item == old(dst.item) && Returns(dst, Text(src))
  {
    hide Text, GroupText;
    var tmp := new byte[3];
    var j: nat := 0;
    for i := 0 to |src|
      invariant j < 3 && j <= i && tmp[..j] == src[i - j..i]
      invariant dst.item == old(dst.item) && fresh(tmp) && dst.cpos <= dst.item.Length
      invariant dst.item[..dst.cpos] + Text(src[i - j..]) == Text(src)
    {
      j := EncodeByte(src, i, dst, tmp, j);
    }
    EncodeRest(src, dst, tmp, j);
    Finish(dst, Text(src));
  }

  /** What is left in `tmp` after the loop. */
  method EncodeRest(src: seq<byte>, dst: Find, tmp: array<byte>, j: nat)
    requires j < 3 && j <= |src| && tmp.Length == 3 && tmp[..j] == src[|src| - j..]
    requires dst.item != null && dst.item != tmp && dst.cpos + |Text(src[|src| - j..])| < dst.item.Length < U64
    modifies dst`cpos, dst.item
    ensures dst.cpos == old(dst.cpos) + |Text(src[|src| - j..])|
    ensures dst.item[..dst.cpos] == old(dst.item[..dst.cpos]) + Text(src[|src| - j..])
  {
    hide Text, GroupText;
    NextText(src, |src| - j);
    if j > 0 {
      AppendRest(dst, tmp, j);
    }
  }

  /** The linear search through the alphabet. */
  method Search(c: byte) returns (k: byte)
    ensures k == Index(c)
  {
    k := 0;
    while k < 64 && Symbol(k) != c
      invariant k <= Index(c)
    {
      k := k + 1;
    }
  }

  /** Four places collected: one, two or three bytes. */
  method AppendBytes(dst: Find, tmp: array<byte>)
    requires tmp.Length == 4 && dst.item != null && tmp != dst.item
    requires dst.cpos + |GroupBytes(tmp[..])| <= dst.item.Length < U64
    modifies dst`cpos, dst.item
    ensures dst.cpos == old(dst.cpos) + |GroupBytes(tmp[..])|
    ensures dst.item[..dst.cpos] == old(dst.item[..dst.cpos]) + GroupBytes(tmp[..])
  {
    Append(dst, (tmp[0] as int * 4 + tmp[1] / 16) % 256);
    if tmp[2] != 64 {
      Append(dst, (tmp[1] as int * 16 + tmp[2] / 4) % 256);
    }
    if tmp[3] != 64 {
      Append(dst, (tmp[2] as int * 64 + tmp[3]) % 256);
    }
  }

  lemma NextBytes(src: seq<byte>, i: nat)
    requires i <= |src|
    ensures i + 4 <= |src| ==> Bytes(src[i..]) == GroupBytes(Indices(src[i..i + 4])) + Bytes(src[i + 4..])
    ensures |src| < i + 4 ==> Bytes(src[i..]) == []
  {
    if i + 4 <= |src| {
      assert src[i..][..4] == src[i..i + 4] && src[i..][4..] == src[i + 4..];
    }
  }

  /** One turn of the decoder's loop. */
  method DecodeByte(src: seq<byte>, i: nat, dst: Find, tmp: array<byte>, start: nat) returns (j: nat)
    requires i < |src| && start < 4 && start <= i && tmp.Length == 4 && tmp[..start] == Indices(src[i - start..i])
    requires dst.item != null && dst.item != tmp && dst.cpos + |Bytes(src[i - start..])| < dst.item.Length < U64
    modifies dst`cpos, dst.item, tmp
    ensures j < 4 && j <= i + 1 && tmp[..j] == Indices(src[i + 1 - j..i + 1]) && dst.cpos <= dst.item.Length
    ensures var before := old(dst.item[..dst.cpos]) + Bytes(src[i - start..]);
      dst.item[..dst.cpos] + Bytes(src[i + 1 - j..]) == before
  {
    hide Bytes, GroupBytes, Index;
    j := start;
    ghost var was := tmp[..j];
    var k := Search(src[i]);
    tmp[j] := k;
    j := j + 1;
    assert tmp[..j] == was + [k] == Indices(src[i + 1 - j..i + 1]);
    if j == 4 {
      NextBytes(src, i - 3);
      assert tmp[..] == Indices(src[i - 3..i + 1]);
      AppendBytes(dst, tmp);
      j := 0;
    }
  }

  /** base64_decode. */
  method Decode(src: seq<byte>, capacity: u64) returns (dst: Find?)
    requires src != [] ==> |Bytes(src)| < capacity
    ensures dst == null <==> src == []
    ensures dst != null ==> fresh(dst) && Returns(dst, Bytes(src))
  {
    hide Bytes, GroupBytes, Index;
    if src == [] {
      return null;
    }
    dst := new Find(capacity, NOBLOCKSIZE);
    var tmp := new byte[4];
    var j: nat := 0;
    for i := 0 to |src|
      invariant j < 4 && j <= i && tmp[..j] == Indices(src[i - j..i])
      invariant fresh(dst) && dst.item != null && fresh(dst.item) && dst.item != tmp
      invariant dst.item.Length == capacity && dst.cpos <= dst.item.Length
      invariant dst.item[..dst.cpos] + Bytes(src[i - j..]) == Bytes(src)
    {
      j := DecodeByte(src, i, dst, tmp, j);
    }
    NextBytes(src, |src| - j);
    Finish(dst, Bytes(src));
  }
}
