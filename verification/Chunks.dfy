/**
  The tag/length chunk stream of src/memfind.c (fsetchunk, fgetchunk), as src/detect.c writes it and
  src/signatures.c reads it: write chunks, shrink, read them back.
 */
module Chunks {
  import opened Radix
  import opened MemFind

  datatype Chunk = Chunk(tag: u32, payload: seq<byte>)

  /** A tag of zero would read as "no chunk", and a length is stored in 32 bits. */
  predicate Writable(c: Chunk) {
    c.tag != 0 && |c.payload| < U32
  }

  /** The chunk as bytes in the buffer. */
  function Serial(c: Chunk): seq<byte> {
    LeBytes(c.tag, 4) + LeBytes(|c.payload|, 4) + c.payload
  }

  function SerialAll(cs: seq<Chunk>): seq<byte> {
    if cs == [] then [] else Serial(cs[0]) + SerialAll(cs[1..])
  }

  // ----- writing

  /** fsetchunk and fsetp; a payload that would wrap around 2^64 is left out, for its store would not end inside. */
  function Write(s: State, c: Chunk): (s': State)
    requires s.WellFormed() && Writable(c)
    ensures s'.WellFormed()
  {
    var s1 := SetChunk(s, c.tag, |c.payload|).0;
    if StoresInside(s1, |c.payload|) then SetP(s1, c.payload).0 else s1
  }

  function WriteAll(s: State, cs: seq<Chunk>): (s': State)
    requires s.WellFormed() && forall c | c in cs :: Writable(c)
    ensures s'.WellFormed()
    decreases |cs|
  {
    if cs == [] then s else WriteAll(Write(s, cs[0]), cs[1..])
  }

  /** The state after `bs` has been stored at the position. */
  function Stored(s: State, bs: seq<byte>): (s': State)
    requires s.WellFormed() && s.item.Some? && s.cpos + |bs| <= s.epos + 1
  {
    s.(item := Some(s.item.value[..s.cpos] + bs + s.item.value[s.cpos + |bs|..]), cpos := s.cpos + |bs|)
  }

  lemma {:induction false} PutAllStores(s: State, bs: seq<byte>)
    requires s.WellFormed() && s.item.Some? && s.cpos + |bs| <= s.epos + 1
    ensures PutAll(s, bs) == Stored(s, bs)
    decreases |bs|
  {
    if bs == [] {
      assert Stored(s, bs).item.value == s.item.value;
    } else {
      PutAllStores(Put(s, bs[0]), bs[1..]);
      assert Stored(s, bs).item.value == Stored(Put(s, bs[0]), bs[1..]).item.value;
    }
  }

  lemma StoredTwice(s: State, a: seq<byte>, b: seq<byte>)
    requires s.WellFormed() && s.item.Some? && s.cpos + |a| + |b| <= s.epos + 1
    ensures Stored(Stored(s, a), b) == Stored(s, a + b)
  {
    assert Stored(Stored(s, a), b).item.value == Stored(s, a + b).item.value;
  }

  lemma SetUStores(s: State, v: nat, k: nat)
    requires s.WellFormed() && s.item.Some? && k > 0 && s.cpos + k <= s.epos + 1
    ensures SetU(s, v, k) == (Stored(s, LeBytes(v, k)), true)
  {
    var bytes := LeBytes(v, k);
    PutAllStores(s, bytes);
    PutAllStores(s, bytes[..k - 1]);
  }

  lemma WriteStores(s: State, c: Chunk)
    requires s.WellFormed() && s.item.Some? && Writable(c) && s.cpos + |Serial(c)| <= s.epos
    ensures Write(s, c) == Stored(s, Serial(c))
  {
    hide SetU, LeBytes;
    var tag, len := LeBytes(c.tag, 4), LeBytes(|c.payload|, 4);
    SetUStores(s, c.tag, 4);
    var s1 := Stored(s, tag);
    SetUStores(s1, |c.payload|, 4);
    StoredTwice(s, tag, len);
    var s2 := Stored(s, tag + len);
    assert SetChunk(s, c.tag, |c.payload|).0 == s2;
    if c.payload == [] {
      assert tag + len + c.payload == tag + len;
    } else {
      assert Write(s, c) == Stored(s2, c.payload);
      hide Stored;
      StoredTwice(s, tag + len, c.payload);
    }
  }

  lemma {:induction false} WriteAllStores(s: State, cs: seq<Chunk>)
    requires s.WellFormed() && s.item.Some? && (forall c | c in cs :: Writable(c))
    requires s.cpos + |SerialAll(cs)| <= s.epos
    ensures WriteAll(s, cs) == Stored(s, SerialAll(cs))
    decreases |cs|
  {
    if cs == [] {
      assert Stored(s, []).item.value == s.item.value;
    } else {
      WriteStores(s, cs[0]);
      WriteAllStores(Write(s, cs[0]), cs[1..]);
      StoredTwice(s, Serial(cs[0]), SerialAll(cs[1..]));
    }
  }

  // ----- reading

  /** fgetchunk and fgetp; the payload is what the returned pointer points at. */
  function Read(s: State): (State, Chunk) {
    var (s1, tag, len) := GetChunk(s);
    var (s2, p) := GetP(s1, len);
    var payload := if p.Some? && s.item.Some? && p.value + len <= |s.item.value|
                   then s.item.value[p.value..p.value + len] else [];
    (s2, Chunk(tag, payload))
  }

  /** The bytes still to be read, as long as the cursor is live. */
  function Pending(s: State): seq<byte>
    requires s.WellFormed() && s.item.Some? && s.cpos <= s.epos
  {
    s.item.value[s.cpos..s.epos + 1]
  }

  lemma WordValue(v: u32)
    ensures Value(LeBytes(v, 4), 256) == v
  {
    LeBytesValue(v, 4);
    hide LeBytes, Value;
    assert Power256(2) == 0x1_0000;
    assert Power256(4) == U32;
  }

  /** What is pending, read up to `a`. */
  lemma PendingSplit(s: State, a: seq<byte>, b: seq<byte>)
    requires s.WellFormed() && s.item.Some? && s.cpos <= s.epos && Pending(s) == a + b
    ensures s.cpos + |a| + |b| == s.epos + 1 && s.cpos + |a| < U64
    ensures s.item.value[s.cpos..s.cpos + |a|] == a
    ensures b != [] ==> Pending(s.(cpos := s.cpos + |a|)) == b
  {
    assert |Pending(s)| == |a| + |b|;
    assert s.item.value[s.cpos..s.cpos + |a|] == Pending(s)[..|a|];
    if b != [] {
      assert Pending(s.(cpos := s.cpos + |a|)) == Pending(s)[|a|..];
    }
  }

  /** A 32-bit word read at the front of what is pending. */
  lemma GetU32Reads(s: State, v: u32, rest: seq<byte>)
    requires s.WellFormed() && s.item.Some? && s.cpos <= s.epos && !s.bigEndian
    requires Pending(s) == LeBytes(v, 4) + rest
    ensures s.cpos + 4 < U64
    ensures GetU(s, 4) == (s.(cpos := s.cpos + 4, item := if rest == [] then None else s.item), v)
  {
    PendingSplit(s, LeBytes(v, 4), rest);
    WordValue(v);
    GetPNoWrap(s, 4);
    hide LeBytes, Value, GetP, Wrap, Pending;
    assert GetP(s, 4) == (s.(cpos := s.cpos + 4, item := if rest == [] then None else s.item), Some(s.cpos));
  }

  lemma ReadReads(s: State, c: Chunk, rest: seq<byte>)
    requires s.WellFormed() && s.item.Some? && s.cpos <= s.epos && !s.bigEndian && Writable(c)
    requires Pending(s) == Serial(c) + rest
    ensures s.cpos + |Serial(c)| < U64
    ensures Read(s) == (s.(cpos := s.cpos + |Serial(c)|, item := if rest == [] then None else s.item), c)
  {
    hide LeBytes, GetU;
    var tag, len := LeBytes(c.tag, 4), LeBytes(|c.payload|, 4);
    var body := c.payload + rest;
    assert Pending(s) == tag + (len + body);
    PendingSplit(s, Serial(c), rest);
    PendingSplit(s, tag, len + body);
    GetU32Reads(s, c.tag, len + body);
    var s1 := s.(cpos := s.cpos + 4);
    PendingSplit(s1, len, body);
    GetU32Reads(s1, |c.payload|, body);
    var s2 := s1.(cpos := s1.cpos + 4, item := if body == [] then None else s.item);
    assert GetChunk(s) == (s2, c.tag, |c.payload|);
    if body != [] {
      hide Pending, GetChunk;
      PendingSplit(s2, c.payload, rest);
    }
    hide *;
    ReadRest(s, s2, c, rest);
  }

  lemma ReadRest(s: State, s2: State, c: Chunk, rest: seq<byte>)
    requires s.WellFormed() && s.item.Some? && s.cpos + 8 + |c.payload| + |rest| == s.epos + 1
    requires Writable(c) && s.cpos + 8 < U64
    requires s2 == s.(cpos := s.cpos + 8, item := if c.payload + rest == [] then None else s.item)
    requires GetChunk(s) == (s2, c.tag, |c.payload|)
    requires s.item.value[s.cpos + 8..s.cpos + 8 + |c.payload|] == c.payload
    ensures Read(s) == (s.(cpos := s.cpos + |Serial(c)|, item := if rest == [] then None else s.item), c)
  {
    SerialLength(c);
    hide GetChunk, Serial;
    if |c.payload| == 0 {
      assert c.payload + rest == rest;
      assert GetP(s2, 0) == (s2, None);
    } else {
      assert c.payload + rest != [];
      assert GetP(s2, |c.payload|).1 == Some(s.cpos + 8);
    }
  }

  // ----- the round trip

  function ReadAll(s: State, n: nat): (State, seq<Chunk>)
    decreases n
  {
    if n == 0 then (s, [])
    else
      var (s1, c) := Read(s);
      var (s2, cs) := ReadAll(s1, n - 1);
      (s2, [c] + cs)
  }

  /** With more than one chunk pending, a read returns the first and leaves the others pending. */
  lemma ReadFirst(s: State, cs: seq<Chunk>)
    requires s.WellFormed() && s.item.Some? && s.cpos <= s.epos && !s.bigEndian
    requires |cs| > 1 && (forall c | c in cs :: Writable(c)) && Pending(s) == SerialAll(cs)
    ensures var (s1, c) := Read(s);
      && c == cs[0] && s1.WellFormed() && s1.item.Some? && s1.cpos <= s1.epos && !s1.bigEndian
      && Pending(s1) == SerialAll(cs[1..])
  {
    hide *;
    var rest := SerialAll(cs[1..]);
    SerialCons(cs);
    SerialCons(cs[1..]);
    ReadReads(s, cs[0], rest);
    PendingSplit(s, Serial(cs[0]), rest);
    StillWellFormed(s, s.cpos + |Serial(cs[0])|);
  }

  lemma StillWellFormed(s: State, c: u64)
    requires s.WellFormed()
    ensures s.(cpos := c).WellFormed()
  {
  }

  lemma SerialCons(cs: seq<Chunk>)
    requires cs != []
    ensures SerialAll(cs) == Serial(cs[0]) + SerialAll(cs[1..]) && |Serial(cs[0])| == 8 + |cs[0].payload|
  {
    SerialLength(cs[0]);
  }

  /** The read that returns the last pending chunk reaches the end. */
  lemma ReadLast(s: State, cs: seq<Chunk>)
    requires s.WellFormed() && s.item.Some? && s.cpos <= s.epos && !s.bigEndian
    requires |cs| == 1 && (forall c | c in cs :: Writable(c)) && Pending(s) == SerialAll(cs)
    ensures Read(s).0.Eof() && Read(s).1 == cs[0]
  {
    hide Read, Serial;
    SerialLength(cs[0]);
    ReadReads(s, cs[0], SerialAll(cs[1..]));
  }

  lemma ReadAllCons(s: State, cs: seq<Chunk>, n: nat)
    requires |cs| >= 1 && 0 < n <= |cs| && Read(s).1 == cs[0]
    requires ReadAll(Read(s).0, n - 1).1 == cs[1..][..n - 1]
    ensures ReadAll(s, n).1 == cs[..n] && ReadAll(s, n).0 == ReadAll(Read(s).0, n - 1).0
  {
    assert cs[..n] == [cs[0]] + cs[1..][..n - 1];
    hide Read;
  }

  /** Reading `n` of the pending chunks returns them in order; the end is reached with the last one. */
  lemma {:induction false} ReadAllReads(s: State, cs: seq<Chunk>, n: nat)
    requires s.WellFormed() && s.item.Some? && s.cpos <= s.epos && !s.bigEndian
    requires cs != [] && (forall c | c in cs :: Writable(c))
    requires Pending(s) == SerialAll(cs) && n <= |cs|
    ensures ReadAll(s, n).1 == cs[..n]
    ensures ReadAll(s, n).0.Eof() <==> n == |cs|
    decreases n
  {
    hide Read, Serial, ReadAll, Pending, SerialAll, Writable;
    if n == 0 {
      ReadNone(s);
    } else {
      if |cs| > 1 {
        ReadFirst(s, cs);
        ReadAllReads(Read(s).0, cs[1..], n - 1);
      } else {
        ReadLast(s, cs);
        ReadNone(Read(s).0);
      }
      ReadAllCons(s, cs, n);
    }
  }

  lemma ReadNone(s: State)
    ensures ReadAll(s, 0) == (s, [])
  {
  }

  lemma SerialLength(c: Chunk)
    ensures |Serial(c)| == 8 + |c.payload|
  {
  }

  /**
    Every nonempty list of chunks, written from the start of a little-endian cursor with at least one
    byte to spare and shrunk, reads back in order, and end-of-file shows exactly after the last chunk.
   */
  lemma RoundTrip(s: State, cs: seq<Chunk>, n: nat)
    requires s.WellFormed() && s.item.Some? && s.cpos == 0 && !s.bigEndian
    requires cs != [] && (forall c | c in cs :: Writable(c)) && n <= |cs|
    requires |SerialAll(cs)| + 1 <= s.epos + 1
    ensures var r := ReadAll(Shrink(WriteAll(s, cs)), n);
      r.1 == cs[..n] && (r.0.Eof() <==> n == |cs|)
  {
    hide WriteAll, Serial, ReadAll;
    WriteAllStores(s, cs);
    SerialLength(cs[0]);
    var t := Shrink(Stored(s, SerialAll(cs)));
    assert Pending(t) == SerialAll(cs);
    ReadAllReads(t, cs, n);
  }
}
