/**
  The cursor of src/memfind.c: a buffer with a position, an inclusive end and a sticky end state.

  `State` is the value of a cursor and the functions on it say what each call does; `Find` is the
  mutable `find_t` itself, whose methods are proved to do exactly that.  `cpos` and `epos` are
  `uint64_t`, so sums wrap around explicitly.  A returned pointer is the offset it points at.
 */
module MemFind {
  import opened Radix

  const U64: int := 0x1_0000_0000_0000_0000
  const U32: int := 0x1_0000_0000

  type u64 = x: int | 0 <= x < 0x1_0000_0000_0000_0000
  type u32 = x: int | 0 <= x < 0x1_0000_0000

  function Wrap(x: int): u64 {
    x % U64
  }

  datatype Option<+T> = None | Some(value: T)

  datatype State = State(cpos: u64, epos: u64, size: u64, blocksize: u64, bigEndian: bool, item: Option<seq<byte>>) {

    /** The inclusive end lies inside the buffer, or there is no buffer any more. */
    predicate WellFormed() {
      item.Some? ==> epos < size <= |item.value| < U64
    }

    /** fiseof. */
    predicate Eof() {
      item.Some? ==> cpos > epos
    }
  }

  // ----- little-endian words

  /** The `k` low bytes of `v`, least significant first: MODE_GET0, MODE_GET1, ... */
  function LeBytes(v: nat, k: nat): (b: seq<byte>)
    ensures |b| == k
    decreases k
  {
    if k == 0 then [] else [v % 256] + LeBytes(v / 256, k - 1)
  }

  function Power256(k: nat): (p: nat)
    ensures p > 0
  {
    if k == 0 then 1 else 256 * Power256(k - 1)
  }

  /** The bytes spell the value, as far as they go. */
  lemma {:induction false} LeBytesValue(v: nat, k: nat)
    ensures Value(LeBytes(v, k), 256) == v % Power256(k)
    decreases k
  {
    if k == 0 {
      DivUnique(v, v, 0, 1);
    } else {
      var p := Power256(k - 1);
      LeBytesValue(v / 256, k - 1);
      SplitMod(v, p);
      assert LeBytes(v, k)[1..] == LeBytes(v / 256, k - 1);
    }
  }

  lemma SplitMod(v: nat, p: nat)
    requires p > 0
    ensures v % (256 * p) == v % 256 + 256 * (v / 256 % p)
  {
    var q, r := v / 256, v % 256;
    var q1, r1 := q / p, q % p;
    assert q == p * q1 + r1;
    assert v == (256 * p) * q1 + (r + 256 * r1);
    DivUnique(v, q1, r + 256 * r1, 256 * p);
  }

  /** endian_u8 .. endian_u64 on the bytes of a value: a big-endian cursor reads them the other way round. */
  function Swapped(bigEndian: bool, b: seq<byte>): (r: seq<byte>)
    ensures |r| == |b|
  {
    if bigEndian then Reverse(b) else b
  }

  /** The unsigned value of `k` bytes at a pointer into the buffer. */
  function ReadAt(s: State, at: nat, k: nat): (v: int)
  {
    if s.item.Some? && at + k <= |s.item.value|
    then Value(Swapped(s.bigEndian, s.item.value[at..at + k]), 256)
    else 0
  }

  lemma WrapValue(x: int)
    requires 0 <= x < 2 * U64
    ensures Wrap(x) == if x < U64 then x else x - U64
  {
  }

  // ----- reading and moving

  /** fgetp: hands out the next `n` bytes; reaching or passing the end clears the buffer pointer. */
  function GetP(s: State, n: u64): (State, Option<nat>) {
    if s.item.None? || n == 0 then (s, None)
    else
      var c := Wrap(s.cpos + n);
      if c <= s.epos then (s.(cpos := c), Some(s.cpos))
      else (s.(cpos := c, item := None), if c == Wrap(s.epos + 1) then Some(s.cpos) else None)
  }

  /** fgetp as long as the position does not wrap around. */
  lemma GetPNoWrap(s: State, n: u64)
    requires s.WellFormed() && s.item.Some? && n > 0 && s.cpos + n < U64
    ensures var c := s.cpos + n;
      GetP(s, n) == if c <= s.epos then (s.(cpos := c), Some(s.cpos))
                    else (s.(cpos := c, item := None), if c == s.epos + 1 then Some(s.cpos) else None)
  {
    WrapValue(s.cpos + n);
    WrapValue(s.epos + 1);
  }

  /** A block that is handed out by fgetp, or likewise by fpeekp, has not wrapped around. */
  predicate ReadsInside(s: State, n: u64) {
    GetP(s, n).1.Some? ==> s.cpos + n < U64
  }

  /** fpeekp. */
  function PeekP(s: State, n: u64): (State, Option<nat>) {
    if s.item.None? then (s, None)
    else
      var c := Wrap(s.cpos + n);
      if c <= s.epos then (s, Some(s.cpos))
      else (s.(item := None), if c == Wrap(s.epos + 1) then Some(s.cpos) else None)
  }

  /** fgetu8, fgetu16, fgetu32 and fgetu64, for k = 1, 2, 4 and 8. */
  function GetU(s: State, k: u64): (State, int) {
    var (s', p) := GetP(s, k);
    (s', if p.Some? then ReadAt(s, p.value, k) else 0)
  }

  /** fpeeku8 .. fpeeku64. */
  function PeekU(s: State, k: u64): (State, int) {
    var (s', p) := PeekP(s, k);
    (s', if p.Some? then ReadAt(s, p.value, k) else 0)
  }

  /** fmove: the position is set even when it is out of scope. */
  function Move(s: State, c: u64): (State, Option<nat>) {
    if c <= s.epos then (s.(cpos := c), if s.item.Some? then Some(c) else None)
    else (s.(cpos := c, item := None), None)
  }

  /** fstep, and fnext for n = blocksize. */
  function Step(s: State, n: u64): State {
    Move(s, Wrap(s.cpos + n)).0
  }

  /** freset: the position and the end go back, a cleared buffer pointer does not. */
  function Reset(s: State): State {
    s.(cpos := 0, epos := Wrap(s.size - 1))
  }

  /** fshrink: what has been written becomes what can be read. */
  function Shrink(s: State): State {
    s.(cpos := 0, epos := Wrap(s.cpos - 1))
  }

  // ----- writing

  /** Stores one byte if the position is in scope; otherwise nothing happens. */
  function Put(s: State, b: byte): (s': State)
    requires s.WellFormed()
    ensures s'.WellFormed()
  {
    if s.item.Some? && s.cpos <= s.epos
    then s.(item := Some(s.item.value[s.cpos := b]), cpos := s.cpos + 1)
    else s
  }

  /** True iff one more byte can be stored. */
  predicate CanPut(s: State) {
    s.item.Some? && s.cpos <= s.epos
  }

  /** Stores bytes one after the other, each on its own terms. */
  function PutAll(s: State, bs: seq<byte>): (s': State)
    requires s.WellFormed()
    ensures s'.WellFormed()
    ensures s' == s.(cpos := s'.cpos, item := s'.item) && (s.item.None? ==> s' == s)
    ensures s.item.Some? ==> s'.item.Some? && |s'.item.value| == |s.item.value|
    decreases |bs|
  {
    if bs == [] then s else PutAll(Put(s, bs[0]), bs[1..])
  }

  /** fsetu8 .. fsetu64 for k = 1 .. 8; the call succeeds iff its last byte could be stored. */
  function SetU(s: State, v: nat, k: nat): (r: (State, bool))
    requires s.WellFormed() && k > 0
    ensures r.0.WellFormed()
  {
    var bytes := LeBytes(v, k);
    (PutAll(s, bytes), CanPut(PutAll(s, bytes[..k - 1])))
  }

  /** fsetu8byoffset .. fsetu64byoffset. */
  function SetUAt(s: State, at: u64, v: nat, k: nat): (r: (State, bool))
    requires s.WellFormed() && k > 0
    ensures r.0.WellFormed()
  {
    SetU(s.(cpos := at), v, k)
  }

  /** A block that is stored does not wrap around, as it otherwise would end outside the buffer. */
  predicate StoresInside(s: State, n: nat) {
    s.item.Some? && 0 < n && Wrap(s.cpos + n) <= s.epos ==> s.cpos + n < U64
  }

  /** fsetp: all or nothing, and the last position in scope is never filled. */
  function SetP(s: State, q: seq<byte>): (r: (State, bool))
    requires s.WellFormed() && |q| < U64 && StoresInside(s, |q|)
    ensures r.0.WellFormed()
  {
    if s.item.Some? && q != [] && Wrap(s.cpos + |q|) <= s.epos
    then (s.(item := Some(s.item.value[..s.cpos] + q + s.item.value[s.cpos + |q|..]), cpos := s.cpos + |q|), true)
    else (s, false)
  }

  /** fsetchunk: a tag and a length, the second only once the first has been stored whole. */
  function SetChunk(s: State, mode: u32, chunksize: u64): (r: (State, bool))
    requires s.WellFormed()
    ensures r.0.WellFormed()
  {
    var (s', ok) := SetU(s, mode, 4);
    if ok then SetU(s', chunksize % U32, 4) else (s', false)
  }

  /** fgetchunk: the tag, and the length unless the tag is zero. */
  function GetChunk(s: State): (State, u32, u32) {
    var (s1, mode) := GetU(s, 4);
    var (s2, size) := GetU(s1, 4);
    (s2, mode % U32, if mode % U32 != 0 then size % U32 else 0)
  }

  // ----- the cursor object

  class Find {
    var cpos: u64
    var epos: u64
    var size: u64
    var blocksize: u64
    var bigEndian: bool
    var item: array?<byte>

    function View(): State
      reads this, item
    {
      State(cpos, epos, size, blocksize, bigEndian, if item == null then None else Some(item[..]))
    }

    /** fxalloc: a zeroed buffer of its own, positioned at the start. */
    constructor (size: u64, blocksize: u64)
      requires size > 0
      ensures View() == State(0, size - 1, size, blocksize, false, Some(seq(size, i => 0)))
      ensures item != null && fresh(item) && item.Length == size
    {
      this.cpos := 0;
      this.epos := size - 1;
      this.size := size;
      this.blocksize := blocksize;
      this.bigEndian := false;
      var buffer := new byte[size](i => 0);
      this.item := buffer;
      new;
      assert item[..] == seq(size, i => 0);
    }

    method FIsEof() returns (eof: bool)
      ensures eof == View().Eof()
    {
      return if item != null then cpos > epos else true;
    }

    method FGetP(n: u64) returns (p: Option<nat>)
      modifies this
      ensures (View(), p) == GetP(old(View()), n)
    {
      if item != null && 0 < n {
        var p0 := cpos;
        cpos := Wrap(cpos + n);
        if cpos <= epos {
          return Some(p0);
        } else {
          item := null;
        }
        if cpos == Wrap(epos + 1) {
          return Some(p0);
        }
      }
      return None;
    }

    method FPeekP(n: u64) returns (p: Option<nat>)
      modifies this
      ensures (View(), p) == PeekP(old(View()), n)
    {
      if item != null {
        if Wrap(cpos + n) <= epos {
          return Some(cpos);
        } else {
          item := null;
        }
        if Wrap(cpos + n) == Wrap(epos + 1) {
          return Some(cpos);
        }
      }
      return None;
    }

    method FStep(n: u64)
      modifies this
      ensures View() == Step(old(View()), n)
    {
      cpos := Wrap(cpos + n);
      if !(cpos <= epos) {
        item := null;
      }
    }

    method FNext()
      modifies this
      ensures View() == Step(old(View()), old(blocksize))
    {
      cpos := Wrap(cpos + blocksize);
      if !(cpos <= epos) {
        item := null;
      }
    }

    method FMove(c: u64) returns (p: Option<nat>)
      modifies this
      ensures (View(), p) == Move(old(View()), c)
    {
      cpos := c;
      if cpos <= epos {
        return if item != null then Some(cpos) else None;
      } else {
        item := null;
      }
      return None;
    }

    method FReset()
      modifies this`cpos, this`epos
      ensures View() == Reset(old(View()))
    {
      epos := Wrap(size - 1);
      cpos := 0;
    }

    method FShrink()
      modifies this`cpos, this`epos
      ensures View() == Shrink(old(View()))
    {
      epos := Wrap(cpos - 1);
      cpos := 0;
    }

    /**
      fgetu8 .. fgetu64, for k = 1, 2, 4, 8: the bytes are those the pointer still points at after the
      cursor itself may have let go of the buffer.
     */
    method FGetU(k: u64) returns (v: int)
      requires View().WellFormed() && ReadsInside(View(), k)
      modifies this
      ensures (View(), v) == GetU(old(View()), k)
    {
      var buffer := item;
      var p := FGetP(k);
      if p.Some? && buffer != null {
        return Value(Swapped(bigEndian, buffer[p.value..p.value + k]), 256);
      }
      return 0;
    }

    method FPeekU(k: u64) returns (v: int)
      requires View().WellFormed() && k > 0 && ReadsInside(View(), k)
      modifies this
      ensures (View(), v) == PeekU(old(View()), k)
    {
      var buffer := item;
      var p := FPeekP(k);
      if p.Some? && buffer != null {
        return Value(Swapped(bigEndian, buffer[p.value..p.value + k]), 256);
      }
      return 0;
    }

    /** The guarded store all fsetu* functions repeat. */
    method PutByte(b: byte) returns (ok: bool)
      requires View().WellFormed()
      modifies this`cpos, item
      ensures View() == Put(old(View()), b) && ok == CanPut(old(View()))
    {
      if item != null && cpos <= epos {
        item[cpos] := b;
        cpos := cpos + 1;
        return true;
      }
      return false;
    }

    method FSetU8(v: nat) returns (ok: bool)
      requires View().WellFormed()
      modifies this`cpos, item
      ensures (View(), ok) == SetU(old(View()), v, 1)
    {
      UnfoldSetU(View(), v, 1);
      ok := PutByte(v % 256);
    }

    method FSetU16(v: nat) returns (ok: bool)
      requires View().WellFormed()
      modifies this`cpos, item
      ensures (View(), ok) == SetU(old(View()), v, 2)
    {
      UnfoldSetU(View(), v, 2);
      ok := PutByte(v % 256);
      UnfoldSetU(View(), v / 256, 1);
      ok := PutByte(v / 256 % 256);
    }

    method FSetU32(v: nat) returns (ok: bool)
      requires View().WellFormed()
      modifies this`cpos, item
      ensures (View(), ok) == SetU(old(View()), v, 4)
    {
      hide SetU, Put, CanPut;
      UnfoldSetU(View(), v, 4);
      ok := PutByte(v % 256);
      UnfoldSetU(View(), v / 256, 3);
      ok := PutByte(v / 256 % 256);
      UnfoldSetU(View(), v / 256 / 256, 2);
      ok := PutByte(v / 256 / 256 % 256);
      UnfoldSetU(View(), v / 256 / 256 / 256, 1);
      ok := PutByte(v / 256 / 256 / 256 % 256);
    }

    method FSetU64(v: nat) returns (ok: bool)
      requires View().WellFormed()
      modifies this`cpos, item
      ensures (View(), ok) == SetU(old(View()), v, 8)
    {
      hide SetU, Put, CanPut;
      LowFour(v, 8);
      ok := FSetU32(v / 256 / 256 / 256 / 256);
    }

    /** The four low bytes of a value of `k` bytes. */
    method LowFour(v: nat, ghost k: nat)
      requires View().WellFormed() && k > 4
      modifies this`cpos, item
      ensures View().WellFormed() && item == old(item)
      ensures SetU(View(), v / 256 / 256 / 256 / 256, k - 4) == SetU(old(View()), v, k)
    {
      hide SetU, Put, CanPut;
      UnfoldSetU(View(), v, k);
      var _ := PutByte(v % 256);
      UnfoldSetU(View(), v / 256, k - 1);
      var _ := PutByte(v / 256 % 256);
      UnfoldSetU(View(), v / 256 / 256, k - 2);
      var _ := PutByte(v / 256 / 256 % 256);
      UnfoldSetU(View(), v / 256 / 256 / 256, k - 3);
      var _ := PutByte(v / 256 / 256 / 256 % 256);
    }

    method FSetP(q: seq<byte>) returns (ok: bool)
      requires View().WellFormed() && |q| < U64 && StoresInside(View(), |q|)
      modifies this`cpos, item
      ensures (View(), ok) == SetP(old(View()), q)
    {
      if item != null && q != [] {
        if Wrap(cpos + |q|) <= epos {
          ghost var before := item[..];
          forall j | 0 <= j < |q| {
            item[cpos + j] := q[j];
          }
          assert item[..] == before[..cpos] + q + before[cpos + |q|..];
          cpos := cpos + |q|;
          return true;
        }
      }
      return false;
    }

    method FSetU8ByOffset(offset: u64, v: nat) returns (ok: bool)
      requires View().WellFormed()
      modifies this`cpos, item
      ensures (View(), ok) == SetUAt(old(View()), offset, v, 1)
    {
      cpos := offset;
      ok := FSetU8(v);
    }

    method FSetU16ByOffset(offset: u64, v: nat) returns (ok: bool)
      requires View().WellFormed()
      modifies this`cpos, item
      ensures (View(), ok) == SetUAt(old(View()), offset, v, 2)
    {
      cpos := offset;
      ok := FSetU16(v);
    }

    method FSetU32ByOffset(offset: u64, v: nat) returns (ok: bool)
      requires View().WellFormed()
      modifies this`cpos, item
      ensures (View(), ok) == SetUAt(old(View()), offset, v, 4)
    {
      cpos := offset;
      ok := FSetU32(v);
    }

    method FSetU64ByOffset(offset: u64, v: nat) returns (ok: bool)
      requires View().WellFormed()
      modifies this`cpos, item
      ensures (View(), ok) == SetUAt(old(View()), offset, v, 8)
    {
      cpos := offset;
      ok := FSetU64(v);
    }

    method FSetChunk(mode: u32, chunksize: u64) returns (ok: bool)
      requires View().WellFormed()
      modifies this`cpos, item
      ensures (View(), ok) == SetChunk(old(View()), mode, chunksize)
    {
      ok := FSetU32(mode);
      if ok {
        ok := FSetU32(chunksize % U32);
      }
    }

    method FGetChunk() returns (mode: u32, chunksize: u32)
      requires View().WellFormed() && ReadsInside(View(), 4) && ReadsInside(GetP(View(), 4).0, 4)
      modifies this
      ensures (View(), mode, chunksize) == GetChunk(old(View()))
    {
      var word := FGetU(4);
      mode := word % U32;
      word := FGetU(4);
      chunksize := if mode != 0 then word % U32 else 0;
    }
  }

  lemma PutAllCons(s: State, b: byte, rest: seq<byte>)
    requires s.WellFormed()
    ensures PutAll(s, [b] + rest) == PutAll(Put(s, b), rest)
  {
    hide Put;
    assert ([b] + rest)[1..] == rest;
  }

  lemma PutAllNone(s: State, bs: seq<byte>)
    requires s.WellFormed() && bs == []
    ensures PutAll(s, bs) == s
  {
  }

  lemma LeBytesCons(v: nat, k: nat)
    requires k > 0
    ensures LeBytes(v, k) == [v % 256] + LeBytes(v / 256, k - 1)
  {
  }

  /** A typed store is so many guarded byte stores, one after the other. */
  lemma UnfoldSetU(s: State, v: nat, k: nat)
    requires s.WellFormed() && k > 0
    ensures k == 1 ==> SetU(s, v, k) == (Put(s, v % 256), CanPut(s))
    ensures k > 1 ==> SetU(s, v, k) == SetU(Put(s, v % 256), v / 256, k - 1)
  {
    hide Put, PutAll, CanPut, LeBytes;
    var b, rest := v % 256, LeBytes(v / 256, k - 1);
    LeBytesCons(v, k);
    PutAllCons(s, b, rest);
    if k == 1 {
      PutAllNone(s, LeBytes(v, k)[..0]);
      PutAllNone(Put(s, b), rest);
    } else {
      assert LeBytes(v, k)[..k - 1] == [b] + rest[..k - 2];
      PutAllCons(s, b, rest[..k - 2]);
    }
  }
}
