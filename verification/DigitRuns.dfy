/**
  What bin_decode (src/decode.c:517-547) and dec8_decode (src/decode.c:549-578) have in common: a text is
  a series of runs of digits, and every run, or every eight binary digits of one, makes a byte.
 */
module DigitRuns {
  import opened Radix
  import opened MemFind
  import opened Codec

  datatype Notation = Binary | Decimal {

    function Base(): (b: nat)
      ensures 2 <= b <= 10
    {
      if Binary? then 2 else 10
    }

    /** A group of `n` digits takes no more of them. */
    predicate Full(n: nat) {
      Binary? && n == 8
    }

    predicate IsDigit(c: byte) {
      if Binary? then IsBin8(c) else IsDec8(c)
    }

    function Digit(c: byte): (d: int)
      ensures 0 <= d < Base()
    {
      if Binary? then Bin8(c) else Dec8(c)
    }
  }

  /** isbin8. */
  predicate IsBin8(c: byte) {
    c == 48 || c == 49
  }

  /** bin8. */
  function Bin8(c: byte): (bit: byte)
    ensures bit <= 1
  {
    if IsBin8(c) then c - 48 else 0
  }

  /** isdec8. */
  predicate IsDec8(c: byte) {
    48 <= c <= 57
  }

  /** dec8. */
  function Dec8(c: byte): (d: int)
    ensures 0 <= d < 10
  {
    if IsDec8(c) then c - 48 else 0
  }

  /** Binary digits are the characters "0" and "1", decimal ones "0" to "9", each worth its place. */
  lemma DigitCharacters(c: byte)
    ensures Binary.IsDigit(c) <==> 48 <= c <= 49
    ensures Decimal.IsDigit(c) <==> 48 <= c <= 57
    ensures 48 <= c <= 49 ==> Binary.Digit(c) == c - 48
    ensures 48 <= c <= 57 ==> Decimal.Digit(c) == c - 48
    ensures Binary.Base() == 2 && Decimal.Base() == 10
  {
  }

  // ----- numbers

  function DigitsOf(nt: Notation, g: seq<byte>): (d: seq<int>)
    ensures |d| == |g| && forall k | 0 <= k < |d| :: d[k] == nt.Digit(g[k])
  {
    seq(|g|, k requires 0 <= k < |g| => nt.Digit(g[k]))
  }

  /** The number digits spell, most significant first. */
  function NumberOf(nt: Notation, g: seq<byte>): (v: nat) {
    BigBounds(DigitsOf(nt, g), nt.Base());
    Big(DigitsOf(nt, g), nt.Base())
  }

  lemma NumberSnoc(nt: Notation, p: seq<byte>, start: nat, i: nat)
    requires start <= i < |p|
    ensures NumberOf(nt, p[start..i + 1]) == NumberOf(nt, p[start..i]) * nt.Base() + nt.Digit(p[i])
    ensures NumberOf(nt, p[i..i]) == 0
  {
    var d := DigitsOf(nt, p[start..i + 1]);
    assert d[..|d| - 1] == DigitsOf(nt, p[start..i]);
  }

  lemma ModStep(v: nat, base: nat, d: nat, m: nat)
    requires m > 0
    ensures (v % m * base + d) % m == (v * base + d) % m
  {
    var q := v / m;
    assert v * base + d == m * (q * base) + (v % m * base + d) by {
      assert v == m * q + v % m;
      assert v * base == (m * q) * base + v % m * base;
    }
    DivAdd(q * base, v % m * base + d, m);
  }

  // ----- what the decoders compute

  /** How many digits of one group a text starts with, when `done` digits of it have been read. */
  function RunLength(nt: Notation, t: seq<byte>, done: nat): (n: nat)
    ensures n <= |t|
    ensures forall k | 0 <= k < n :: nt.IsDigit(t[k]) && !nt.Full(done + k)
    ensures n < |t| ==> !nt.IsDigit(t[n]) || nt.Full(done + n)
  {
    if t == [] || !nt.IsDigit(t[0]) || nt.Full(done) then 0 else 1 + RunLength(nt, t[1..], done + 1)
  }

  /** Every group of digits makes one byte, modulo 256. */
  function Bytes(nt: Notation, t: seq<byte>): (b: seq<byte>)
    ensures |b| <= |t|
    decreases |t|
  {
    if t == [] then []
    else
      var n := RunLength(nt, t, 0);
      if n == 0 then Bytes(nt, t[1..]) else [NumberOf(nt, t[..n]) % 256] + Bytes(nt, t[n..])
  }

  /** The digits of a group: none follows the eighth binary one. */
  predicate IsGroup(nt: Notation, a: seq<byte>) {
    forall k | 0 <= k < |a| :: nt.IsDigit(a[k]) && !nt.Full(k)
  }

  lemma RunOf(nt: Notation, a: seq<byte>, rest: seq<byte>)
    requires IsGroup(nt, a) && (rest == [] || !nt.IsDigit(rest[0]) || nt.Full(|a|))
    ensures RunLength(nt, a + rest, 0) == |a|
  {
    hide RunLength;
    var t := a + rest;
    assert forall k | 0 <= k < |a| :: t[k] == a[k];
    assert rest != [] ==> t[|a|] == rest[0];
  }

  /** The first group of a text, when what it is made of and what follows are known. */
  lemma FirstGroup(nt: Notation, a: seq<byte>, rest: seq<byte>)
    requires a != [] && IsGroup(nt, a) && (rest == [] || !nt.IsDigit(rest[0]) || nt.Full(|a|))
    ensures Bytes(nt, a + rest) == [NumberOf(nt, a) % 256] + Bytes(nt, rest)
  {
    RunOf(nt, a, rest);
    hide NumberOf, RunLength;
    assert (a + rest)[..|a|] == a && (a + rest)[|a|..] == rest;
  }

  lemma SkipCharacter(nt: Notation, src: seq<byte>, i: nat)
    requires i < |src| && !nt.IsDigit(src[i])
    ensures Bytes(nt, src[i..]) == Bytes(nt, src[i + 1..])
  {
    assert src[i..][1..] == src[i + 1..];
  }

  lemma StartsByte(nt: Notation, t: seq<byte>)
    requires t != [] && nt.IsDigit(t[0])
    ensures Bytes(nt, t) != []
  {
    assert !nt.Full(0);
  }

  lemma BytesEnd(nt: Notation, src: seq<byte>)
    ensures Bytes(nt, src[|src|..]) == []
  {
  }

  /** The size of the text is room enough for the bytes and a terminator, unless the text is a digit alone. */
  lemma {:induction false} TextHasRoom(nt: Notation, t: seq<byte>)
    requires t != []
    ensures |Bytes(nt, t)| < |t| <==> !(|t| == 1 && nt.IsDigit(t[0]))
    ensures 2 * |Bytes(nt, t)| <= |t| + 1
    decreases |t|
  {
    var n := RunLength(nt, t, 0);
    hide NumberOf, RunLength;
    if n == 0 {
      if |t| > 1 {
        TextHasRoom(nt, t[1..]);
      }
    } else if n == 1 && |t| > 1 {
      SkipCharacter(nt, t, 1);
      if |t| > 2 {
        TextHasRoom(nt, t[2..]);
      }
    } else if n < |t| {
      TextHasRoom(nt, t[n..]);
    }
  }

  // ----- decoding step by step

  /**
    The decoder has read `src[..i]` and started `n` bytes; of the group that begins at `start` it has
    read the digits up to `i`.
   */
  ghost predicate Decoding(nt: Notation, src: seq<byte>, start: nat, i: nat, n: nat, buffer: seq<byte>) {
    && start <= i <= |src| && n <= |buffer| && (nt.Binary? ==> i - start <= 8)
    && (forall k | n <= k < |buffer| :: buffer[k] == 0)
    && IsGroup(nt, src[start..i])
    && if start == i then buffer[..n] + Bytes(nt, src[i..]) == Bytes(nt, src) else InGroup(nt, src, start, i, n, buffer)
  }

  ghost predicate InGroup(nt: Notation, src: seq<byte>, start: nat, i: nat, n: nat, buffer: seq<byte>)
    requires start < i <= |src| && n <= |buffer|
  {
    && n > 0
    && buffer[n - 1] == NumberOf(nt, src[start..i]) % 256
    && buffer[..n - 1] + Bytes(nt, src[start..]) == Bytes(nt, src)
  }

  lemma Begin(nt: Notation, src: seq<byte>, buffer: seq<byte>)
    requires forall k | 0 <= k < |buffer| :: buffer[k] == 0
    ensures Decoding(nt, src, 0, 0, 0, buffer)
  {
    assert src[0..] == src && buffer[..0] == [];
  }

  lemma DecodingFits(nt: Notation, src: seq<byte>, start: nat, i: nat, n: nat, buffer: seq<byte>)
    requires Decoding(nt, src, start, i, n, buffer)
    ensures start <= i && n <= |buffer| && (nt.Binary? ==> i - start <= 8)
  {
  }

  /** A group that has ended has its byte in the buffer. */
  lemma GroupDone(nt: Notation, src: seq<byte>, start: nat, i: nat, n: nat, buffer: seq<byte>)
    requires Decoding(nt, src, start, i, n, buffer)
    requires start == i || i == |src| || !nt.IsDigit(src[i]) || nt.Full(i - start)
    ensures buffer[..n] + Bytes(nt, src[i..]) == Bytes(nt, src)
  {
    hide Bytes, NumberOf, IsGroup;
    if start < i {
      NextGroup(nt, src, start, i);
      assert buffer[..n] == buffer[..n - 1] + [buffer[n - 1]];
      Regroup(buffer[..n - 1], [buffer[n - 1]], Bytes(nt, src[i..]));
    }
  }

  lemma NextGroup(nt: Notation, src: seq<byte>, start: nat, i: nat)
    requires start < i <= |src| && IsGroup(nt, src[start..i])
    requires i == |src| || !nt.IsDigit(src[i]) || nt.Full(i - start)
    ensures Bytes(nt, src[start..]) == [NumberOf(nt, src[start..i]) % 256] + Bytes(nt, src[i..])
  {
    hide *;
    assert src[start..] == src[start..i] + src[i..];
    FirstGroup(nt, src[start..i], src[i..]);
  }

  lemma BeginGroup(nt: Notation, src: seq<byte>, start: nat, i: nat, n: nat, buffer: seq<byte>)
    requires Decoding(nt, src, start, i, n, buffer) && i < |src| && nt.IsDigit(src[i])
    requires (start == i || nt.Full(i - start)) && |Bytes(nt, src)| <= |buffer|
    ensures n < |buffer| && buffer[n] == 0
    ensures Decoding(nt, src, i, i + 1, n + 1, buffer[n := nt.Digit(src[i])])
  {
    hide Bytes, NumberOf;
    GroupDone(nt, src, start, i, n, buffer);
    StartsByte(nt, src[i..]);
    NumberSnoc(nt, src, i, i);
    assert buffer[n := nt.Digit(src[i])][..n] == buffer[..n];
  }

  lemma ContinueGroup(nt: Notation, src: seq<byte>, start: nat, i: nat, n: nat, buffer: seq<byte>)
    requires Decoding(nt, src, start, i, n, buffer) && i < |src| && nt.IsDigit(src[i])
    requires start < i && !nt.Full(i - start)
    ensures 0 < n <= |buffer|
    ensures var b := (buffer[n - 1] as int * nt.Base() + nt.Digit(src[i])) % 256;
      Decoding(nt, src, start, i + 1, n, buffer[n - 1 := b])
  {
    hide Bytes, NumberOf;
    NumberSnoc(nt, src, start, i);
    ModStep(NumberOf(nt, src[start..i]), nt.Base(), nt.Digit(src[i]), 256);
    LongerGroup(nt, src, start, i);
    hide IsGroup;
    var b := (buffer[n - 1] as int * nt.Base() + nt.Digit(src[i])) % 256;
    assert buffer[n - 1 := b][..n - 1] == buffer[..n - 1];
  }

  lemma LongerGroup(nt: Notation, src: seq<byte>, start: nat, i: nat)
    requires start <= i < |src| && IsGroup(nt, src[start..i]) && nt.IsDigit(src[i]) && !nt.Full(i - start)
    ensures IsGroup(nt, src[start..i + 1])
  {
    assert src[start..i + 1] == src[start..i] + [src[i]];
  }

  lemma EndRun(nt: Notation, src: seq<byte>, start: nat, i: nat, n: nat, buffer: seq<byte>)
    requires Decoding(nt, src, start, i, n, buffer) && i < |src| && !nt.IsDigit(src[i])
    ensures Decoding(nt, src, i + 1, i + 1, n, buffer)
  {
    GroupDone(nt, src, start, i, n, buffer);
    SkipCharacter(nt, src, i);
    hide Bytes;
  }
}
