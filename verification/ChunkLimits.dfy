/**
  How full a cursor may get: exactly when the chunks written into it read back, when they do not leave
  the byte to spare that fsetp asks for.
 */
module ChunkLimits {
  import opened Radix
  import opened MemFind
  import opened Chunks

  /** No C object reaches half of the address space; reads then cannot wrap around. */
  predicate Sized(s: State) {
    s.WellFormed() && s.item.Some? && s.epos < U64 / 2
  }

  predicate Live(s: State) {
    Sized(s) && s.cpos <= s.epos
  }

  /**
    All chunks fit with a byte to spare; or the last one has no payload, and its tag at least fits: what
    is cut off of its length reads as zero.
   */
  predicate Fits(epos: nat, cs: seq<Chunk>)
    requires cs != []
  {
    |SerialAll(cs)| <= epos || (cs[|cs| - 1].payload == [] && |SerialAll(cs)| <= epos + 5)
  }

  // ----- what a read needs

  lemma ReadNothing(s: State)
    requires s.item.None?
    ensures Read(s).1.tag == 0
  {
  }

  /** A tag needs four bytes, a payload its header and itself; a cursor still live has moved past both. */
  lemma ReadNeeds(s: State)
    requires Live(s)
    ensures var (s', c) := Read(s);
      && (c.tag != 0 ==> s.cpos + 4 <= s.epos + 1)
      && (c.payload != [] ==> s.cpos + 8 + |c.payload| <= s.epos + 1)
      && (s'.item.Some? ==> Live(s') && s'.epos == s.epos && s.cpos + 8 + |c.payload| <= s'.cpos)
  {
    hide GetP, Wrap, ReadAt;
    GetPNoWrap(s, 4);
    var s1 := GetP(s, 4).0;
    if s1.item.Some? {
      GetPNoWrap(s1, 4);
      var (s2, tag, len) := GetChunk(s);
      assert s2 == GetP(s1, 4).0;
      if s2.item.Some? && len > 0 {
        GetPNoWrap(s2, len);
      } else {
        GetPNothing(s2, len);
      }
    } else {
      GetPNothing(s1, 4);
      var (s2, tag, len) := GetChunk(s);
      assert s2 == s1;
      GetPNothing(s2, len);
    }
  }

  lemma GetPNothing(s: State, n: u64)
    requires s.item.None? || n == 0
    ensures GetP(s, n) == (s, None)
  {
  }

  /** Chunks that read back take no more than what there is, but for the length of an empty last one. */
  lemma {:induction false} ReadsNeed(s: State, cs: seq<Chunk>)
    requires Live(s) && cs != [] && (forall c | c in cs :: Writable(c))
    requires ReadAll(s, |cs|).1 == cs
    ensures |SerialAll(cs)| <= s.epos + 1 - s.cpos + if cs[|cs| - 1].payload == [] then 4 else 0
    decreases |cs|
  {
    hide Read, Live, Serial, SerialAll;
    var (s', c) := Read(s);
    var rest := ReadAll(s', |cs| - 1).1;
    assert cs == [c] + rest;
    assert cs[0] == c && Writable(cs[0]);
    ReadNeeds(s);
    SerialCons(cs);
    if rest == [] {
      NoSerial(cs[1..]);
    } else {
      assert cs[1..] == rest && rest[0] == Read(s').1 && Writable(cs[1]);
      if s'.item.None? {
        ReadNothing(s');
      } else {
        ReadsNeed(s', rest);
      }
    }
  }

  lemma NoSerial(cs: seq<Chunk>)
    requires cs == []
    ensures SerialAll(cs) == []
  {
  }

  // ----- what a write does

  /** A write stays in scope and keeps everything but the position and the bytes; the first byte always fits. */
  lemma WriteKeeps(s: State, c: Chunk)
    requires Sized(s) && s.cpos <= s.epos + 1 && Writable(c)
    ensures var s' := Write(s, c);
      && Sized(s') && s' == s.(cpos := s'.cpos, item := s'.item) && s.cpos <= s'.cpos <= s.epos + 1
      && (s.cpos <= s.epos ==> s.cpos < s'.cpos)
  {
    hide PutAll, Put, LeBytes, Wrap;
    PutAllKeeps(s, LeBytes(c.tag, 4));
    var s1 := SetU(s, c.tag, 4).0;
    PutAllKeeps(s1, LeBytes(|c.payload|, 4));
    var s2 := SetChunk(s, c.tag, |c.payload|).0;
    WrapValue(s2.cpos + |c.payload|);
  }

  lemma {:induction false} PutAllKeeps(s: State, bs: seq<byte>)
    requires Sized(s) && s.cpos <= s.epos + 1
    ensures var s' := PutAll(s, bs);
      && Sized(s') && s' == s.(cpos := s'.cpos, item := s'.item) && s.cpos <= s'.cpos <= s.epos + 1
      && (s.cpos <= s.epos && bs != [] ==> s.cpos < s'.cpos)
    decreases |bs|
  {
    if bs != [] {
      PutAllKeeps(Put(s, bs[0]), bs[1..]);
    }
  }

  lemma {:induction false} WriteAllKeeps(s: State, cs: seq<Chunk>)
    requires Sized(s) && s.cpos <= s.epos + 1 && forall c | c in cs :: Writable(c)
    ensures var s' := WriteAll(s, cs);
      && Sized(s') && s' == s.(cpos := s'.cpos, item := s'.item) && s.cpos <= s'.cpos <= s.epos + 1
      && (s.cpos <= s.epos && cs != [] ==> s.cpos < s'.cpos)
    decreases |cs|
  {
    if cs != [] {
      hide Write;
      WriteKeeps(s, cs[0]);
      WriteAllKeeps(Write(s, cs[0]), cs[1..]);
    }
  }

  lemma {:induction false} WriteAllLast(s: State, init: seq<Chunk>, c: Chunk)
    requires s.WellFormed() && (forall d | d in init :: Writable(d)) && Writable(c)
    ensures forall d | d in init + [c] :: Writable(d)
    ensures WriteAll(s, init + [c]) == Write(WriteAll(s, init), c)
    decreases |init|
  {
    hide Write;
    if init == [] {
      assert init + [c] == [c] && [c][1..] == [];
    } else {
      assert (init + [c])[1..] == init[1..] + [c];
      WriteAllLast(Write(s, init[0]), init[1..], c);
    }
  }

  lemma {:induction false} SerialLast(init: seq<Chunk>, c: Chunk)
    ensures SerialAll(init + [c]) == SerialAll(init) + Serial(c)
  {
    hide Serial;
    if init == [] {
      assert init + [c] == [c] && [c][1..] == [];
    } else {
      assert (init + [c])[1..] == init[1..] + [c];
      SerialLast(init[1..], c);
      Regroup(Serial(init[0]), SerialAll(init[1..]), Serial(c));
    }
  }

  /** A payload that would fill the last place is refused: only the header is stored. */
  lemma PayloadRefused(s: State, c: Chunk)
    requires Sized(s) && Writable(c) && c.payload != [] && s.cpos + |Serial(c)| == s.epos + 1
    ensures Write(s, c).cpos == s.cpos + 8
  {
    hide SetU, LeBytes, Wrap;
    SerialLength(c);
    SetUStores(s, c.tag, 4);
    var s1 := Stored(s, LeBytes(c.tag, 4));
    SetUStores(s1, |c.payload|, 4);
    var s2 := Stored(s1, LeBytes(|c.payload|, 4));
    WrapValue(s2.cpos + |c.payload|);
  }

  lemma {:induction false} PutAllConcat(s: State, a: seq<byte>, b: seq<byte>)
    requires s.WellFormed()
    ensures PutAll(s, a + b) == PutAll(PutAll(s, a), b)
    decreases |a|
  {
    hide Put;
    if a == [] {
      assert a + b == b;
    } else {
      assert (a + b)[1..] == a[1..] + b;
      PutAllConcat(Put(s, a[0]), a[1..], b);
    }
  }

  lemma {:induction false} PutAllFull(s: State, bs: seq<byte>)
    requires s.WellFormed() && s.cpos > s.epos
    ensures PutAll(s, bs) == s
    decreases |bs|
  {
    if bs != [] {
      PutAllFull(s, bs[1..]);
    }
  }

  /** Bytes stored one by one, as many of them as fit. */
  lemma PutAllFills(s: State, bs: seq<byte>)
    requires s.WellFormed() && s.item.Some? && s.cpos <= s.epos + 1 <= s.cpos + |bs|
    ensures PutAll(s, bs) == Stored(s, bs[..s.epos + 1 - s.cpos])
  {
    var n := s.epos + 1 - s.cpos;
    hide PutAll;
    assert bs == bs[..n] + bs[n..];
    PutAllConcat(s, bs[..n], bs[n..]);
    PutAllStores(s, bs[..n]);
    PutAllFull(Stored(s, bs[..n]), bs[n..]);
  }

  /** An empty chunk whose tag fits and whose length need not: what is stored of it. */
  lemma EmptyChunkCut(s: State, c: Chunk)
    requires Sized(s) && Writable(c) && c.payload == [] && s.cpos + 4 <= s.epos + 1 <= s.cpos + 8
    ensures Write(s, c) == Stored(s, LeBytes(c.tag, 4) + LeBytes(0, 4)[..s.epos + 1 - s.cpos - 4])
  {
    hide LeBytes;
    SetUStores(s, c.tag, 4);
    var s1 := Stored(s, LeBytes(c.tag, 4));
    PutAllFills(s1, LeBytes(0, 4));
    hide Stored, PutAll;
    StoredTwice(s, LeBytes(c.tag, 4), LeBytes(0, 4)[..s.epos + 1 - s.cpos - 4]);
  }

  // ----- reading back

  lemma {:induction false} ReadAllLast(s: State, n: nat)
    ensures ReadAll(s, n + 1).1 == ReadAll(s, n).1 + [Read(ReadAll(s, n).0).1]
    ensures ReadAll(s, n + 1).0 == Read(ReadAll(s, n).0).0
    decreases n
  {
    hide Read;
    if n > 0 {
      ReadAllLast(Read(s).0, n - 1);
    }
  }

  /** Whole chunks in front of other bytes. */
  lemma {:induction false} ReadAllPrefix(s: State, cs: seq<Chunk>, rest: seq<byte>)
    requires s.WellFormed() && s.item.Some? && s.cpos <= s.epos && !s.bigEndian
    requires (forall c | c in cs :: Writable(c)) && Pending(s) == SerialAll(cs) + rest && rest != []
    ensures s.cpos + |SerialAll(cs)| <= s.epos
    ensures ReadAll(s, |cs|) == (s.(cpos := s.cpos + |SerialAll(cs)|), cs)
    ensures Pending(s.(cpos := s.cpos + |SerialAll(cs)|)) == rest
    decreases |cs|
  {
    hide Read, Serial, SerialAll, Pending;
    if cs == [] {
      NoSerial(cs);
      assert [] + rest == rest;
    } else {
      SerialCons(cs);
      var more := SerialAll(cs[1..]) + rest;
      Regroup(Serial(cs[0]), SerialAll(cs[1..]), rest);
      PendingSplit(s, Serial(cs[0]), more);
      ReadReads(s, cs[0], more);
      var s1 := s.(cpos := s.cpos + |Serial(cs[0])|);
      assert Read(s) == (s1, cs[0]);
      ReadAllPrefix(s1, cs[1..], rest);
      assert cs == [cs[0]] + cs[1..];
      var end := s.cpos + |SerialAll(cs)|;
      assert s1.(cpos := end) == s.(cpos := end);
    }
  }

  /** A tag, followed by as much of a zero length as there was room for, reads as an empty chunk. */
  lemma ReadCut(s: State, c: Chunk, r: nat)
    requires Live(s) && !s.bigEndian && Writable(c) && c.payload == []
    requires r <= 4 && Pending(s) == LeBytes(c.tag, 4) + LeBytes(0, 4)[..r]
    ensures Read(s).1 == c && Read(s).0.Eof()
  {
    hide LeBytes, Wrap, GetP, Pending;
    var z := LeBytes(0, 4)[..r];
    PendingSplit(s, LeBytes(c.tag, 4), z);
    GetU32Reads(s, c.tag, z);
    var s1 := GetU(s, 4).0;
    if r == 0 {
      GetPNothing(s1, 4);
    } else {
      if r == 4 {
        assert z == LeBytes(0, 4) + [];
        GetU32Reads(s1, 0, []);
      } else {
        GetPPast(s1, 4);
      }
    }
    assert GetChunk(s) == (GetU(s1, 4).0, c.tag, 0);
    GetPNothing(GetU(s1, 4).0, 0);
  }

  /** A read that asks for more than there is lets go of the buffer. */
  lemma GetPPast(s: State, n: u64)
    requires s.WellFormed() && s.item.Some? && n > 0 && s.epos + 1 < s.cpos + n < U64
    ensures GetP(s, n).1 == None && GetP(s, n).0.item.None?
  {
    GetPNoWrap(s, n);
  }

  // ----- the exact condition

  /** An empty last chunk may be cut off after its tag. */
  lemma CutTrip(s: State, init: seq<Chunk>, c: Chunk)
    requires Sized(s) && s.cpos == 0 && !s.bigEndian && (forall d | d in init :: Writable(d)) && Writable(c)
    requires c.payload == [] && s.epos + 1 <= |SerialAll(init)| + 8 <= s.epos + 5
    ensures forall d | d in init + [c] :: Writable(d)
    ensures var t := Shrink(WriteAll(s, init + [c])); ReadAll(t, |init| + 1).1 == init + [c]
  {
    hide Write, Read, Serial, SerialAll, LeBytes, WriteAll, ReadAll, Stored, Pending, Live;
    var p := |SerialAll(init)|;
    var r := s.epos + 1 - p - 4;
    var rest := LeBytes(c.tag, 4) + LeBytes(0, 4)[..r];
    CutStored(s, init, c);
    var t := Shrink(WriteAll(s, init + [c]));
    ReadAllPrefix(t, init, rest);
    CutLive(t, p);
    ReadCut(t.(cpos := p), c, r);
    ReadAllLast(t, |init|);
  }

  lemma CutLive(t: State, p: u64)
    requires Sized(t) && p <= t.epos
    ensures Live(t.(cpos := p))
  {
  }

  /** What is stored then, and what there is to read after shrinking. */
  lemma CutStored(s: State, init: seq<Chunk>, c: Chunk)
    requires Sized(s) && s.cpos == 0 && !s.bigEndian && (forall d | d in init :: Writable(d)) && Writable(c)
    requires c.payload == [] && s.epos + 1 <= |SerialAll(init)| + 8 <= s.epos + 5
    ensures forall d | d in init + [c] :: Writable(d)
    ensures var t := Shrink(WriteAll(s, init + [c]));
      && Sized(t) && t.cpos == 0 && t.epos == s.epos && !t.bigEndian
      && Pending(t) == SerialAll(init) + (LeBytes(c.tag, 4) + LeBytes(0, 4)[..s.epos + 1 - |SerialAll(init)| - 4])
  {
    hide Write, Serial, SerialAll, LeBytes, WriteAll;
    WriteAllLast(s, init, c);
    WriteAllStores(s, init);
    EmptyChunkCut(Stored(s, SerialAll(init)), c);
    var rest := LeBytes(c.tag, 4) + LeBytes(0, 4)[..s.epos + 1 - |SerialAll(init)| - 4];
    StoredTwice(s, SerialAll(init), rest);
  }

  /** Chunks that read back do fit. */
  lemma TripFits(s: State, init: seq<Chunk>, c: Chunk)
    requires Sized(s) && s.cpos == 0 && (forall d | d in init :: Writable(d)) && Writable(c)
    requires forall d | d in init + [c] :: Writable(d)
    requires ReadAll(Shrink(WriteAll(s, init + [c])), |init| + 1).1 == init + [c]
    ensures Fits(s.epos, init + [c])
  {
    hide *;
    SizedEnd(s);
    var cs := init + [c];
    var f := WriteAll(s, cs);
    WriteAllKeeps(s, cs);
    ShrinkLive(f);
    ReadsNeed(Shrink(f), cs);
    if c.payload != [] && |SerialAll(cs)| == s.epos + 1 {
      LastRefused(s, init, c);
    }
    FitsIs(s.epos, cs);
  }

  lemma SizedEnd(s: State)
    requires Sized(s)
    ensures s.WellFormed() && s.item.Some? && s.epos + 1 < U64
  {
  }

  lemma FitsIs(epos: nat, cs: seq<Chunk>)
    requires cs != []
    ensures Fits(epos, cs) <==>
      |SerialAll(cs)| <= epos || (cs[|cs| - 1].payload == [] && |SerialAll(cs)| <= epos + 5)
  {
  }

  lemma ShrinkLive(f: State)
    requires Sized(f) && 0 < f.cpos <= f.epos + 1
    ensures Live(Shrink(f)) && Shrink(f).epos == f.cpos - 1 && Shrink(f).cpos == 0
  {
  }

  /** Chunks that would fill the last place with a payload leave their end behind. */
  lemma LastRefused(s: State, init: seq<Chunk>, c: Chunk)
    requires Sized(s) && s.cpos == 0 && (forall d | d in init :: Writable(d)) && Writable(c)
    requires c.payload != [] && |SerialAll(init + [c])| == s.epos + 1
    ensures forall d | d in init + [c] :: Writable(d)
    ensures WriteAll(s, init + [c]).cpos < s.epos + 1
  {
    hide Write, Serial, SerialAll, WriteAll, Stored;
    SerialLast(init, c);
    SerialLength(c);
    WriteAllLast(s, init, c);
    WriteAllStores(s, init);
    StoredPosition(s, SerialAll(init));
    PayloadRefused(WriteAll(s, init), c);
  }

  lemma StoredPosition(s: State, bs: seq<byte>)
    requires Sized(s) && s.cpos + |bs| <= s.epos + 1
    ensures var s' := Stored(s, bs); Sized(s') && s'.cpos == s.cpos + |bs| && s'.epos == s.epos
  {
  }

  /**
    Chunks written from the start of a little-endian cursor and shrunk read back if and only if they
    fit: with a byte to spare, or with an empty last chunk whose length may be cut off.
   */
  lemma RoundTripExactly(s: State, cs: seq<Chunk>)
    requires Sized(s) && s.cpos == 0 && !s.bigEndian && cs != [] && forall c | c in cs :: Writable(c)
    ensures ReadAll(Shrink(WriteAll(s, cs)), |cs|).1 == cs <==> Fits(s.epos, cs)
  {
    hide Write, Read, Serial, SerialAll, WriteAll, ReadAll;
    var init, c := cs[..|cs| - 1], cs[|cs| - 1];
    assert cs == init + [c];
    SerialLast(init, c);
    SerialLength(c);
    if |SerialAll(cs)| <= s.epos {
      RoundTrip(s, cs, |cs|);
    } else if Fits(s.epos, cs) {
      CutTrip(s, init, c);
    } else if ReadAll(Shrink(WriteAll(s, cs)), |cs|).1 == cs {
      TripFits(s, init, c);
    }
  }
}
