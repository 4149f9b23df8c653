/**
  What the calls of the cursor mean to one another and to the bytes: which number a read yields in either
  byte order, what a peek, a step, a move and a reset have to do with a read, what a store leaves behind.
 */
module CursorLaws {
  import opened Radix
  import opened MemFind
  import opened Chunks

  // ----- the number a read yields

  /** Four bytes in either order, written out. */
  lemma FourBytes(a: byte, b: byte, c: byte, d: byte)
    ensures Big([a, b, c, d], 256) == a as int * 0x100_0000 + b as int * 0x1_0000 + c as int * 0x100 + d
    ensures Value([a, b, c, d], 256) == a + b as int * 0x100 + c as int * 0x1_0000 + d as int * 0x100_0000
  {
    var s: seq<int> := [a, b, c, d];
    assert s[..3] == [a, b, c] && s[..3][..2] == [a, b] && [a as int, b][..1] == [a] && [a as int][..0] == [];
    assert s[1..] == [b, c, d] && s[1..][1..] == [c, d] && [c as int, d][1..] == [d] && [d as int][1..] == [];
    assert Big([a], 256) == a && Big([a, b], 256) == a as int * 256 + b;
    assert Value([d], 256) == d && Value([c, d], 256) == c + 256 * d as int;
  }

  lemma SwappedValue(bigEndian: bool, b: seq<byte>)
    ensures Value(Swapped(bigEndian, b), 256) == if bigEndian then Big(b, 256) else Value(b, 256)
  {
    if bigEndian {
      var d: seq<int> := Swapped(true, b);
      BigIsReversedValue(d, 256);
      assert Reverse(d) == b;
    }
  }

  /**
    A typed read, or peek, of a block that is handed out yields its bytes as a number: the first byte
    counts most on a big-endian cursor and least on a little-endian one.
   */
  lemma ReadValue(s: State, k: u64)
    requires s.WellFormed() && s.item.Some? && k > 0 && s.cpos + k < U64 && GetP(s, k).1.Some?
    ensures s.cpos + k <= |s.item.value|
    ensures var b := s.item.value[s.cpos..s.cpos + k];
      var v := if s.bigEndian then Big(b, 256) else Value(b, 256);
      GetU(s, k).1 == v && PeekU(s, k).1 == v
  {
    hide Wrap, Value, Big, Swapped;
    WrapValue(s.cpos + k);
    WrapValue(s.epos + 1);
    SwappedValue(s.bigEndian, s.item.value[s.cpos..s.cpos + k]);
  }

  /** A read or a peek of a block that is not handed out yields zero. */
  lemma NoReadNoValue(s: State, k: u64)
    requires k > 0 && GetP(s, k).1.None?
    ensures GetU(s, k).1 == 0 && PeekU(s, k).1 == 0
  {
  }

  // ----- reads, peeks, steps and moves

  /** A peek hands out what a read would, and lets go of the buffer when a read would; only the position stays. */
  lemma PeekIsRead(s: State, n: u64)
    requires n > 0
    ensures PeekP(s, n).1 == GetP(s, n).1
    ensures s.item.Some? ==> PeekP(s, n).0 == GetP(s, n).0.(cpos := s.cpos)
  {
  }

  /** A step ends where a read of as many bytes does. */
  lemma StepIsRead(s: State, n: u64)
    requires n > 0 && s.item.Some?
    ensures Step(s, n) == GetP(s, n).0
  {
  }

  /** Two steps that stay in scope are one. */
  lemma StepsAdd(s: State, m: u64, n: u64)
    requires s.WellFormed() && s.item.Some? && s.cpos + m <= s.epos && m + n < U64 && s.cpos + m + n < U64
    ensures Step(Step(s, m), n) == Step(s, m + n)
    ensures Step(s, m).cpos == s.cpos + m && Step(s, m).item == s.item
  {
    hide Wrap;
    WrapValue(s.cpos + m);
    WrapValue(s.cpos + m + n);
  }

  /** After a move the next read starts there, for any position in scope and any size that fits. */
  lemma MoveThenRead(s: State, c: u64, n: u64)
    requires s.WellFormed() && s.item.Some? && c <= s.epos && 0 < n && c + n <= s.epos + 1
    ensures Move(s, c).1 == Some(c) && GetP(Move(s, c).0, n).1 == Some(c)
    ensures Move(Move(s, c).0, s.cpos).0 == Move(s, s.cpos).0
  {
    hide Wrap;
    WrapValue(c + n);
    WrapValue(s.epos + 1);
  }

  /** A move out of scope lets go of the buffer and hands out nothing, but the position is set. */
  lemma MoveAway(s: State, c: u64)
    requires c > s.epos
    ensures Move(s, c) == (s.(cpos := c, item := None), None) && Move(s, c).0.Eof()
  {
  }

  /** After a reset the first read starts at the beginning, and the whole size can be read. */
  lemma ResetThenRead(s: State, n: u64)
    requires s.WellFormed() && s.item.Some? && n > 0
    ensures GetP(Reset(s), n).1 == if n <= s.size then Some(0) else None
    ensures Reset(s).epos + 1 == s.size
  {
    hide Wrap;
    WrapMinus(s.size);
    WrapValue(n);
    WrapValue(s.size);
  }

  /** After a shrink what had been written can be read from the beginning, and nothing behind it. */
  lemma ShrinkThenRead(s: State, n: u64)
    requires s.item.Some? && s.cpos > 0 && n > 0
    ensures GetP(Shrink(s), n).1 == if n <= s.cpos then Some(0) else None
  {
    hide Wrap;
    WrapMinus(s.cpos);
    WrapValue(n);
    WrapValue(s.cpos);
  }

  lemma WrapMinus(x: int)
    requires 0 < x < U64
    ensures Wrap(x - 1) == x - 1
  {
  }

  // ----- stores

  lemma Powers()
    ensures Power256(1) == 0x100 && Power256(2) == 0x1_0000 && Power256(4) == U32 && Power256(8) == U64
  {
    assert Power256(3) == 0x100_0000 && Power256(5) == 0x100_0000_0000;
    assert Power256(6) == 0x1_0000_0000_0000 && Power256(7) == 0x100_0000_0000_0000;
  }

  /**
    A typed store that fits leaves its value, cut to its width, as a little-endian number, whatever the
    byte order of the cursor; nothing else changes but the position.
   */
  lemma StoreValue(s: State, v: nat, k: nat)
    requires s.WellFormed() && s.item.Some? && k > 0 && s.cpos + k <= s.epos + 1
    ensures var (s', ok) := SetU(s, v, k);
      && ok && s' == s.(cpos := s.cpos + k, item := s'.item)
      && s'.item.Some? && |s'.item.value| == |s.item.value|
      && Value(s'.item.value[s.cpos..s.cpos + k], 256) == v % Power256(k)
      && forall x | 0 <= x < |s.item.value| && !(s.cpos <= x < s.cpos + k) :: s'.item.value[x] == s.item.value[x]
  {
    hide SetU, LeBytes, Value, Power256;
    SetUStores(s, v, k);
    LeBytesValue(v, k);
    var s' := Stored(s, LeBytes(v, k));
    assert s'.item.value[s.cpos..s.cpos + k] == LeBytes(v, k);
  }

  /** A typed store fails exactly if its last byte is out of scope. */
  lemma StoreSucceeds(s: State, v: nat, k: nat)
    requires s.WellFormed() && s.item.Some? && k > 0
    ensures SetU(s, v, k).1 <==> s.cpos + k <= s.epos + 1
  {
    if s.cpos + k <= s.epos + 1 {
      SetUStores(s, v, k);
    } else {
      StoresStop(s, LeBytes(v, k)[..k - 1]);
    }
  }

  lemma {:induction false} StoresStop(s: State, bs: seq<byte>)
    requires s.WellFormed() && s.item.Some? && s.cpos + |bs| + 1 > s.epos + 1
    ensures !CanPut(PutAll(s, bs))
    decreases |bs|
  {
    if bs != [] {
      StoresStop(Put(s, bs[0]), bs[1..]);
    }
  }

  /** The header of a chunk in the buffer: first the tag, then the length, then the payload. */
  lemma ChunkLayout(c: Chunk)
    requires Writable(c)
    ensures var b := Serial(c);
      && |b| == 8 + |c.payload|
      && Value(b[..4], 256) == c.tag && Value(b[4..8], 256) == |c.payload| && b[8..] == c.payload
  {
    hide LeBytes, Value;
    WordValue(c.tag);
    WordValue(|c.payload|);
    var b := Serial(c);
    assert b[..4] == LeBytes(c.tag, 4) && b[4..8] == LeBytes(|c.payload|, 4) && b[8..] == c.payload;
  }

  /** A chunk header is stored whole exactly if its eight bytes fit; the length is cut to 32 bits. */
  lemma ChunkStored(s: State, mode: u32, n: u64)
    requires s.WellFormed() && s.item.Some?
    ensures SetChunk(s, mode, n).1 <==> s.cpos + 8 <= s.epos + 1
    ensures s.cpos + 8 <= s.epos + 1 ==>
      var s' := SetChunk(s, mode, n).0;
      && s'.cpos == s.cpos + 8 && s'.item.Some? && |s'.item.value| == |s.item.value|
      && Value(s'.item.value[s.cpos..s.cpos + 4], 256) == mode
      && Value(s'.item.value[s.cpos + 4..s.cpos + 8], 256) == n % 0x1_0000_0000
  {
    hide SetU, Value, Power256;
    Powers();
    StoreSucceeds(s, mode, 4);
    if s.cpos + 4 <= s.epos + 1 {
      StoreValue(s, mode, 4);
      var s1 := SetU(s, mode, 4).0;
      StoreSucceeds(s1, n % U32, 4);
      if s.cpos + 8 <= s.epos + 1 {
        StoreValue(s1, n % U32, 4);
        var s2 := SetU(s1, n % U32, 4).0;
        assert s2.item.value[s.cpos..s.cpos + 4] == s1.item.value[s.cpos..s.cpos + 4];
      }
    }
  }

  /** Eight bytes that can be read are a tag and a length, which counts only after a tag that is not zero. */
  lemma ChunkRead(s: State)
    requires s.WellFormed() && s.item.Some? && s.cpos + 8 <= s.epos + 1
    ensures var b, c := s.item.value[s.cpos..s.cpos + 4], s.item.value[s.cpos + 4..s.cpos + 8];
      var tag := if s.bigEndian then Big(b, 256) else Value(b, 256);
      && GetChunk(s).1 == tag
      && GetChunk(s).2 == if tag == 0 then 0 else if s.bigEndian then Big(c, 256) else Value(c, 256)
  {
    hide Wrap, Value, Big, Swapped, ReadAt;
    GetPNoWrap(s, 4);
    var s1 := GetP(s, 4).0;
    GetPNoWrap(s1, 4);
    ReadValue(s, 4);
    ReadValue(s1, 4);
    WordBounds(s.item.value[s.cpos..s.cpos + 4]);
    WordBounds(s.item.value[s.cpos + 4..s.cpos + 8]);
  }

  lemma WordBounds(b: seq<byte>)
    requires |b| == 4
    ensures 0 <= Value(b, 256) < U32 && 0 <= Big(b, 256) < U32
  {
    assert b == [b[0], b[1], b[2], b[3]];
    FourBytes(b[0], b[1], b[2], b[3]);
    hide Value, Big;
  }
}
