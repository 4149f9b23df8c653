/**
  ecapply_relocs (src/elfcode-memfind.c:5-81): the relocations of one section applied to its bytes.

  Which type number means what depends on the machine; here the six groups of types are parameters.
  Reading the relocation records is not part of the model: `entries` holds what reading gives.
 */
module Relocs {
  import opened Radix
  import opened MemFind

  /** One relocation; `symbol` is the value of its symbol, if that could be read. */
  datatype Rela = Rela(offset: u64, kind: u32, symbol: Option<u64>, addend: u64)

  /** The type numbers of the groups, in the order in which they are tried. */
  datatype Types = Types(sym32: set<u32>, sym64: set<u32>,
                         shex8: set<u32>, shex16: set<u32>, shex32: set<u32>, shex64: set<u32>)

  /** One section header, with the relocations its entries hold; the stream of entries may fail to open. */
  datatype Section = Section(info: u32, kind: u32, size: u64, entsize: u64, symbols: bool,
                             entries: Option<seq<Option<Rela>>>)

  const SHT_RELA: u32 := 4
  const SHT_REL: u32 := 9
  const SHT_RELR: u32 := 19

  /** A typed store of the low `width` bytes of a value. */
  datatype Store = Store(at: u64, value: u64, width: nat) {
    predicate Covers(x: int) {
      at <= x < at + width
    }

    function ByteAt(x: int): byte
      requires Covers(x)
    {
      LeBytes(value, width)[x - at]
    }
  }

  // ----- which stores a file asks for

  /** The store of one relocation: none of unknown type, and none of a value zero. */
  function StoreOf(types: Types, r: Rela): Option<Store> {
    var symbol := if r.symbol.Some? then r.symbol.value else 0;
    if r.kind in types.sym32 then Nonzero(r.offset, symbol, 4)
    else if r.kind in types.sym64 then Nonzero(r.offset, symbol, 8)
    else if r.kind in types.shex8 then Nonzero(r.offset, r.addend, 1)
    else if r.kind in types.shex16 then Nonzero(r.offset, r.addend, 2)
    else if r.kind in types.shex32 then Nonzero(r.offset, r.addend, 4)
    else if r.kind in types.shex64 then Nonzero(r.offset, r.addend, 8)
    else None
  }

  function Nonzero(at: u64, value: u64, width: nat): Option<Store> {
    if value != 0 then Some(Store(at, value, width)) else None
  }

  function EntryStores(types: Types, entry: Option<Rela>): seq<Store> {
    if entry.None? then []
    else
      var st := StoreOf(types, entry.value);
      if st.None? then [] else [st.value]
  }

  /** The stores of the first `count` entries; an entry past the end of the stream cannot be read. */
  function SectionStores(types: Types, entries: seq<Option<Rela>>, count: nat): seq<Store>
    decreases count
  {
    if count == 0 then []
    else
      var entry := if count <= |entries| then entries[count - 1] else None;
      SectionStores(types, entries, count - 1) + EntryStores(types, entry)
  }

  predicate Applies(section: Option<Section>, index: u32) {
    section.Some? && section.value.info == index
  }

  /** The stores of one section header: those of a RELA section that belongs to `index`, else none. */
  function HeaderStores(types: Types, s0: Option<Section>, index: u32): seq<Store>
    requires Applies(s0, index) ==> s0.value.entsize > 0
  {
    if Applies(s0, index) && s0.value.kind == SHT_RELA && s0.value.symbols && s0.value.entries.Some?
    then SectionStores(types, s0.value.entries.value, s0.value.size / s0.value.entsize)
    else []
  }

  /** All stores for the section `index`, in the order in which they are made. */
  function Stores(types: Types, sections: seq<Option<Section>>, index: u32): seq<Store>
    requires forall s | s in sections && Applies(s, index) :: s.value.entsize > 0
  {
    if sections == [] then []
    else
      var last := sections[|sections| - 1];
      Stores(types, sections[..|sections| - 1], index) + HeaderStores(types, last, index)
  }

  /** Makes one store after the other. */
  function Run(s: State, stores: seq<Store>): (s': State)
    requires s.WellFormed() && forall st | st in stores :: st.width > 0
    ensures s'.WellFormed()
  {
    if stores == [] then s
    else
      var s1 := Run(s, stores[..|stores| - 1]);
      var st := stores[|stores| - 1];
      SetUAt(s1, st.at, st.value, st.width).0
  }

  lemma {:induction false} RunAppend(s: State, a: seq<Store>, b: seq<Store>)
    requires s.WellFormed() && (forall st | st in a :: st.width > 0) && (forall st | st in b :: st.width > 0)
    ensures forall st | st in a + b :: st.width > 0
    ensures Run(s, a + b) == Run(Run(s, a), b)
  {
    if b == [] {
      assert a + b == a;
    } else {
      assert (a + b)[..|a + b| - 1] == a + b[..|b| - 1];
      RunAppend(s, a, b[..|b| - 1]);
    }
  }

  lemma {:induction false} SectionWidths(types: Types, entries: seq<Option<Rela>>, count: nat)
    ensures forall st | st in SectionStores(types, entries, count) :: st.width in {1, 2, 4, 8}
    decreases count
  {
    if count > 0 {
      SectionWidths(types, entries, count - 1);
    }
  }

  lemma {:induction false} Widths(types: Types, sections: seq<Option<Section>>, index: u32)
    requires forall s | s in sections && Applies(s, index) :: s.value.entsize > 0
    ensures forall st | st in Stores(types, sections, index) :: st.width in {1, 2, 4, 8}
  {
    if sections != [] {
      var last := sections[|sections| - 1];
      Widths(types, sections[..|sections| - 1], index);
      if HeaderStores(types, last, index) != [] {
        SectionWidths(types, last.value.entries.value, last.value.size / last.value.entsize);
      }
    }
  }

  // ----- what the stores do to the bytes

  /** Bytes put one after the other, as far as the end allows. */
  lemma {:induction false} PutAllBytes(s: State, bs: seq<byte>)
    requires s.WellFormed() && s.item.Some?
    ensures var s' := PutAll(s, bs);
      && s'.item.Some? && |s'.item.value| == |s.item.value|
      && forall x | 0 <= x < |s.item.value| ::
           s'.item.value[x] == if s.cpos <= x < s.cpos + |bs| && x <= s.epos then bs[x - s.cpos] else s.item.value[x]
    decreases |bs|
  {
    if bs != [] {
      PutAllBytes(Put(s, bs[0]), bs[1..]);
    }
  }

  /** One store changes the bytes it covers, up to the end, and nothing else. */
  lemma StoreBytes(s: State, st: Store, x: nat)
    requires s.WellFormed() && s.item.Some? && st.width > 0 && x < |s.item.value|
    ensures var s' := SetUAt(s, st.at, st.value, st.width).0;
      && s' == s.(cpos := s'.cpos, item := s'.item)
      && s'.item.Some? && |s'.item.value| == |s.item.value|
      && s'.item.value[x] == if st.Covers(x) && x <= s.epos then st.ByteAt(x) else s.item.value[x]
  {
    PutAllBytes(s.(cpos := st.at), LeBytes(st.value, st.width));
  }

  /** The byte the last store that covers a place leaves there. */
  function LastByte(stores: seq<Store>, x: int, before: byte): byte {
    if stores == [] then before
    else
      var st := stores[|stores| - 1];
      if st.Covers(x) then st.ByteAt(x) else LastByte(stores[..|stores| - 1], x, before)
  }

  /** A run keeps the size and the end, and leaves in every place what the last store put there. */
  lemma {:induction false} RunBytes(s: State, stores: seq<Store>, x: nat)
    requires s.WellFormed() && s.item.Some? && (forall st | st in stores :: st.width > 0) && x < |s.item.value|
    ensures var s' := Run(s, stores);
      && s' == s.(cpos := s'.cpos, item := s'.item)
      && s'.item.Some? && |s'.item.value| == |s.item.value|
      && s'.item.value[x] == if x <= s.epos then LastByte(stores, x, s.item.value[x]) else s.item.value[x]
  {
    if stores != [] {
      var rest := stores[..|stores| - 1];
      RunBytes(s, rest, x);
      StoreBytes(Run(s, rest), stores[|stores| - 1], x);
    }
  }

  lemma {:induction false} LastByteNone(stores: seq<Store>, x: int, before: byte)
    requires forall st | st in stores :: !st.Covers(x)
    ensures LastByte(stores, x, before) == before
  {
    if stores != [] {
      LastByteNone(stores[..|stores| - 1], x, before);
    }
  }

  lemma {:induction false} LastByteOnly(stores: seq<Store>, x: int, before: byte, only: Store)
    requires only in stores && only.Covers(x) && forall st | st in stores && st.Covers(x) :: st == only
    ensures LastByte(stores, x, before) == only.ByteAt(x)
  {
    var st := stores[|stores| - 1];
    if !st.Covers(x) {
      assert stores == stores[..|stores| - 1] + [st];
      LastByteOnly(stores[..|stores| - 1], x, before, only);
    }
  }

  /** A byte outside the range of every store, or past the end, stays what it was. */
  lemma Frame(s: State, stores: seq<Store>, x: nat)
    requires s.WellFormed() && s.item.Some? && (forall st | st in stores :: st.width > 0) && x < |s.item.value|
    requires x > s.epos || forall st | st in stores :: !st.Covers(x)
    ensures var s' := Run(s, stores);
      s'.item.Some? && |s'.item.value| == |s.item.value| && s'.item.value[x] == s.item.value[x]
  {
    RunBytes(s, stores, x);
    if x <= s.epos {
      LastByteNone(stores, x, s.item.value[x]);
    }
  }

  // ----- disjoint ranges

  predicate Disjoint(a: Store, b: Store) {
    a.at + a.width <= b.at || b.at + b.width <= a.at
  }

  predicate PairwiseDisjoint(stores: seq<Store>) {
    forall i, j | 0 <= i < j < |stores| :: Disjoint(stores[i], stores[j])
  }

  lemma OnlyOneCovers(stores: seq<Store>, x: int, st: Store, other: Store)
    requires PairwiseDisjoint(stores) && st in stores && other in stores && st.Covers(x) && other.Covers(x)
    ensures st == other
  {
    var i :| 0 <= i < |stores| && stores[i] == st;
    var j :| 0 <= j < |stores| && stores[j] == other;
    assert i == j;
  }

  /** Among disjoint stores each one that ends in scope leaves its bytes, least significant first. */
  lemma LandsWhole(s: State, stores: seq<Store>, st: Store)
    requires s.WellFormed() && s.item.Some? && (forall t | t in stores :: t.width > 0)
    requires PairwiseDisjoint(stores) && st in stores && st.at + st.width - 1 <= s.epos
    ensures var s' := Run(s, stores);
      && s'.item.Some? && |s'.item.value| == |s.item.value|
      && s'.item.value[st.at..st.at + st.width] == LeBytes(st.value, st.width)
  {
    hide Run, LastByte, PairwiseDisjoint;
    var s' := Run(s, stores);
    RunBytes(s, stores, st.at);
    forall x | st.at <= x < st.at + st.width ensures s'.item.value[x] == st.ByteAt(x) {
      RunBytes(s, stores, x);
      forall other | other in stores && other.Covers(x) ensures other == st {
        OnlyOneCovers(stores, x, st, other);
      }
      LastByteOnly(stores, x, s.item.value[x], st);
    }
  }

  /** Places covered by the same stores, one at most, end up with the same byte. */
  lemma SameByte(a: seq<Store>, b: seq<Store>, x: int, before: byte)
    requires multiset(a) == multiset(b) && PairwiseDisjoint(a)
    ensures LastByte(a, x, before) == LastByte(b, x, before)
  {
    assert forall st :: st in a <==> st in multiset(a);
    assert forall st :: st in b <==> st in multiset(b);
    if st :| st in a && st.Covers(x) {
      forall other | other in a && other.Covers(x) ensures other == st {
        OnlyOneCovers(a, x, st, other);
      }
      LastByteOnly(a, x, before, st);
      LastByteOnly(b, x, before, st);
    } else {
      LastByteNone(a, x, before);
      LastByteNone(b, x, before);
    }
  }

  /** Two runs leave the same bytes exactly if in every place in scope their last stores do. */
  lemma SameRun(s: State, a: seq<Store>, b: seq<Store>)
    requires s.WellFormed() && s.item.Some?
    requires (forall st | st in a :: st.width > 0) && (forall st | st in b :: st.width > 0)
    ensures Run(s, a).item == Run(s, b).item <==>
      forall x | 0 <= x <= s.epos :: LastByte(a, x, s.item.value[x]) == LastByte(b, x, s.item.value[x])
  {
    hide Run, LastByte;
    RunBytes(s, a, 0);
    RunBytes(s, b, 0);
    forall x | 0 <= x < |s.item.value|
      ensures Run(s, a).item.value[x] == Run(s, b).item.value[x] <==>
        (x <= s.epos ==> LastByte(a, x, s.item.value[x]) == LastByte(b, x, s.item.value[x]))
    {
      RunBytes(s, a, x);
      RunBytes(s, b, x);
    }
    if forall x | 0 <= x <= s.epos :: LastByte(a, x, s.item.value[x]) == LastByte(b, x, s.item.value[x]) {
      assert Run(s, a).item.value == Run(s, b).item.value;
    }
  }

  /** A run changes the bytes and the position only. */
  lemma {:induction false} RunKeeps(s: State, stores: seq<Store>)
    requires s.WellFormed() && forall st | st in stores :: st.width > 0
    ensures var s' := Run(s, stores);
      s' == s.(cpos := s'.cpos, item := s'.item) && (s.item.None? ==> s'.item.None?)
  {
    if stores != [] {
      RunKeeps(s, stores[..|stores| - 1]);
    }
  }

  /** Disjoint relocations may be applied in any order. */
  lemma OrderIndependent(s: State, a: seq<Store>, b: seq<Store>)
    requires s.WellFormed() && (forall st | st in a :: st.width > 0)
    requires multiset(a) == multiset(b) && PairwiseDisjoint(a)
    ensures forall st | st in b :: st.width > 0
    ensures Reset(Run(s, a)) == Reset(Run(s, b))
  {
    hide Run, LastByte;
    forall st | st in b ensures st.width > 0 {
      assert st in multiset(b);
      assert st in multiset(a);
    }
    RunKeeps(s, a);
    RunKeeps(s, b);
    if s.item.Some? {
      forall x | 0 <= x <= s.epos
        ensures LastByte(a, x, s.item.value[x]) == LastByte(b, x, s.item.value[x])
      {
        SameByte(a, b, x, s.item.value[x]);
      }
      SameRun(s, a, b);
    }
  }

  /** Two stores commute exactly when they agree on every byte in scope that both of them cover. */
  lemma CommuteExactly(s: State, a: Store, b: Store)
    requires s.WellFormed() && s.item.Some? && a.width > 0 && b.width > 0
    ensures Run(s, [a, b]).item == Run(s, [b, a]).item <==>
      forall x | 0 <= x <= s.epos && a.Covers(x) && b.Covers(x) :: a.ByteAt(x) == b.ByteAt(x)
  {
    hide Run, LastByte;
    SameRun(s, [a, b], [b, a]);
    forall x | 0 <= x <= s.epos
      ensures LastByte([a, b], x, s.item.value[x]) == LastByte([b, a], x, s.item.value[x]) <==>
        (a.Covers(x) && b.Covers(x) ==> a.ByteAt(x) == b.ByteAt(x))
    {
      LastOfTwo(a, b, x, s.item.value[x]);
      LastOfTwo(b, a, x, s.item.value[x]);
    }
  }

  lemma LastOfTwo(a: Store, b: Store, x: int, before: byte)
    ensures LastByte([a, b], x, before) ==
      if b.Covers(x) then b.ByteAt(x) else if a.Covers(x) then a.ByteAt(x) else before
  {
    assert [a, b][..1] == [a] && [a][..0] == [];
    assert LastByte([a], x, before) == if a.Covers(x) then a.ByteAt(x) else before;
  }

  // ----- the order of the entries

  /** The stores of all entries of a list. */
  function EntriesStores(types: Types, entries: seq<Option<Rela>>): seq<Store> {
    SectionStores(types, entries, |entries|)
  }

  /** Only the entries that are read matter. */
  lemma {:induction false} FirstEntries(types: Types, entries: seq<Option<Rela>>, count: nat)
    requires count <= |entries|
    ensures SectionStores(types, entries, count) == EntriesStores(types, entries[..count])
    decreases count
  {
    if count > 0 {
      hide EntryStores;
      FirstEntries(types, entries, count - 1);
      FirstEntries(types, entries[..count], count - 1);
      assert entries[..count][..count - 1] == entries[..count - 1];
    }
  }

  lemma EntriesLast(types: Types, entries: seq<Option<Rela>>, last: Option<Rela>)
    ensures EntriesStores(types, entries + [last]) == EntriesStores(types, entries) + EntryStores(types, last)
  {
    hide EntryStores;
    FirstEntries(types, entries + [last], |entries|);
    assert (entries + [last])[..|entries|] == entries;
  }

  lemma {:induction false} EntriesAppend(types: Types, a: seq<Option<Rela>>, b: seq<Option<Rela>>)
    ensures EntriesStores(types, a + b) == EntriesStores(types, a) + EntriesStores(types, b)
    decreases |b|
  {
    if b == [] {
      assert a + b == a;
      assert EntriesStores(types, b) == [];
    } else {
      hide EntriesStores, EntryStores;
      var init, last := b[..|b| - 1], b[|b| - 1];
      assert b == init + [last] && a + b == (a + init) + [last];
      EntriesAppend(types, a, init);
      EntriesLast(types, init, last);
      EntriesLast(types, a + init, last);
    }
  }

  /** Where an entry stands does not matter for which stores there are. */
  lemma EntryAnywhere(types: Types, a: seq<Option<Rela>>, x: Option<Rela>, b: seq<Option<Rela>>)
    ensures multiset(EntriesStores(types, a + [x] + b)) ==
      multiset(EntriesStores(types, a + b)) + multiset(EntryStores(types, x))
  {
    hide EntriesStores, EntryStores;
    EntriesAppend(types, a, b);
    EntriesLast(types, a, x);
    EntriesAppend(types, a + [x], b);
  }

  lemma TakeOut(f: seq<Option<Rela>>, k: nat)
    requires k < |f|
    ensures f == f[..k] + [f[k]] + f[k + 1..]
    ensures multiset(f[..k] + f[k + 1..]) == multiset(f) - multiset{f[k]}
  {
    assert f == f[..k] + [f[k]] + f[k + 1..];
  }

  /** Entries in another order make the same stores in another order. */
  lemma {:induction false} PermutedStores(types: Types, e: seq<Option<Rela>>, f: seq<Option<Rela>>)
    requires multiset(e) == multiset(f)
    ensures multiset(EntriesStores(types, e)) == multiset(EntriesStores(types, f))
    decreases |e|
  {
    if e == [] {
      assert |multiset(f)| == 0;
      assert f == [];
    } else {
      hide EntriesStores, EntryStores;
      assert e[0] in multiset(e);
      var k :| 0 <= k < |f| && f[k] == e[0];
      TakeOut(e, 0);
      TakeOut(f, k);
      PermutedStores(types, e[..0] + e[1..], f[..k] + f[k + 1..]);
      EntryAnywhere(types, e[..0], e[0], e[1..]);
      EntryAnywhere(types, f[..k], f[k], f[k + 1..]);
    }
  }

  /** Relocations whose targets are disjoint may be listed in any order. */
  lemma EntriesInAnyOrder(s: State, types: Types, e: seq<Option<Rela>>, f: seq<Option<Rela>>)
    requires s.WellFormed() && multiset(e) == multiset(f) && PairwiseDisjoint(EntriesStores(types, e))
    ensures (forall st | st in EntriesStores(types, e) :: st.width > 0)
    ensures (forall st | st in EntriesStores(types, f) :: st.width > 0)
    ensures Reset(Run(s, EntriesStores(types, e))) == Reset(Run(s, EntriesStores(types, f)))
  {
    SectionWidths(types, e, |e|);
    SectionWidths(types, f, |f|);
    PermutedStores(types, e, f);
    hide Run, SectionStores;
    OrderIndependent(s, EntriesStores(types, e), EntriesStores(types, f));
  }

  // ----- ecapply_relocs

  /** One relocation record: the types are tried in this order, and a value of zero is not stored. */
  method ApplyEntry(p: Find, types: Types, r0: Option<Rela>)
    requires p.View().WellFormed()
    modifies p`cpos, p.item
    ensures forall st | st in EntryStores(types, r0) :: st.width > 0
    ensures p.View() == Run(old(p.View()), EntryStores(types, r0))
  {
    hide Run, SetUAt;
    ghost var was := p.View();
    RunNone(was);
    if r0.Some? {
      var r := r0.value;
      var m := r.symbol;
      if StoreOf(types, r).Some? {
        RunOne(was, StoreOf(types, r).value);
      }
      if r.kind in types.sym32 {
        if m.Some? && m.value != 0 {
          var _ := p.FSetU32ByOffset(r.offset, m.value);
        }
      } else if r.kind in types.sym64 {
        if m.Some? && m.value != 0 {
          var _ := p.FSetU64ByOffset(r.offset, m.value);
        }
      } else if r.kind in types.shex8 {
        if r.addend != 0 {
          var _ := p.FSetU8ByOffset(r.offset, r.addend);
        }
      } else if r.kind in types.shex16 {
        if r.addend != 0 {
          var _ := p.FSetU16ByOffset(r.offset, r.addend);
        }
      } else if r.kind in types.shex32 {
        if r.addend != 0 {
          var _ := p.FSetU32ByOffset(r.offset, r.addend);
        }
      } else if r.kind in types.shex64 {
        if r.addend != 0 {
          var _ := p.FSetU64ByOffset(r.offset, r.addend);
        }
      }
    }
  }

  lemma RunNone(s: State)
    requires s.WellFormed()
    ensures Run(s, []) == s
  {
  }

  lemma RunOne(s: State, st: Store)
    requires s.WellFormed() && st.width > 0
    ensures Run(s, [st]) == SetUAt(s, st.at, st.value, st.width).0
  {
    assert [st][..0] == [];
  }

  /** The records of one section. */
  method ApplySection(p: Find, types: Types, s0: Section)
    requires p.View().WellFormed() && s0.entsize > 0 && s0.entries.Some?
    modifies p`cpos, p.item
    ensures var stores := SectionStores(types, s0.entries.value, s0.size / s0.entsize);
      (forall st | st in stores :: st.width > 0) && p.View() == Run(old(p.View()), stores)
  {
    var cnt := s0.size / s0.entsize;
    var entries := s0.entries.value;
    ghost var was := p.View();
    RunNone(was);
    hide Run, EntryStores, SectionStores;
    NoStores(types, entries);
    for j := 0 to cnt
      invariant forall st | st in SectionStores(types, entries, j) :: st.width > 0
      invariant p.View() == Run(was, SectionStores(types, entries, j))
    {
      var r0 := if j < |entries| then entries[j] else None;
      ApplyEntry(p, types, r0);
      NextStores(types, entries, j);
      RunAppend(was, SectionStores(types, entries, j), EntryStores(types, r0));
    }
  }

  lemma NoStores(types: Types, entries: seq<Option<Rela>>)
    ensures SectionStores(types, entries, 0) == []
  {
  }

  lemma NextStores(types: Types, entries: seq<Option<Rela>>, j: nat)
    ensures var r0 := if j < |entries| then entries[j] else None;
      SectionStores(types, entries, j + 1) == SectionStores(types, entries, j) + EntryStores(types, r0)
  {
    hide EntryStores;
  }

  /** One section header. */
  method ApplyHeader(p: Find, types: Types, s0: Option<Section>, index: u32)
    requires p.View().WellFormed() && (Applies(s0, index) ==> s0.value.entsize > 0)
    modifies p`cpos, p.item
    ensures forall st | st in HeaderStores(types, s0, index) :: st.width > 0
    ensures p.View() == Run(old(p.View()), HeaderStores(types, s0, index))
  {
    hide Run, SectionStores;
    RunNone(p.View());
    if s0.Some? && index == s0.value.info {
      if s0.value.kind == SHT_REL {
      } else if s0.value.kind == SHT_RELA {
        if s0.value.symbols {
          if s0.value.entries.Some? {
            ApplySection(p, types, s0.value);
          }
        }
      } else if s0.value.kind == SHT_RELR {
      }
    }
  }

  /**
    ecapply_relocs on a 64-bit file: all RELA sections that belong to `index`, then the cursor goes
    back to the start.  A file without a header has no sections.
   */
  method EcApplyRelocs(p: Find, isElf64: bool, types: Types, sections: seq<Option<Section>>, index: u32)
    requires p.View().WellFormed()
    requires forall s | s in sections && Applies(s, index) :: s.value.entsize > 0
    modifies p`cpos, p`epos, p.item
    ensures isElf64 ==>
      var stores := Stores(types, sections, index);
      (forall st | st in stores :: st.width > 0) && p.View() == Reset(Run(old(p.View()), stores))
    ensures !isElf64 ==> p.View() == old(p.View())
  {
    if !isElf64 {
      return;
    }
    ghost var was := p.View();
    for i := 0 to |sections|
      invariant forall st | st in Stores(types, sections[..i], index) :: st.width > 0
      invariant p.View() == Run(was, Stores(types, sections[..i], index))
    {
      hide Run, HeaderStores;
      assert sections[..i + 1][..i] == sections[..i];
      ApplyHeader(p, types, sections[i], index);
      RunAppend(was, Stores(types, sections[..i], index), HeaderStores(types, sections[i], index));
    }
    assert sections[..|sections|] == sections;
    p.FReset();
  }

  // ----- a whole file

  /** Every byte no store covers is what it was. */
  ghost predicate Untouched(s: State, s': State, stores: seq<Store>)
    requires s.item.Some? && s'.item.Some? && |s'.item.value| == |s.item.value|
  {
    forall x | 0 <= x < |s.item.value| && (forall st | st in stores :: !st.Covers(x)) ::
      s'.item.value[x] == s.item.value[x]
  }

  /** Every target in scope reads back as the value stored, as far as its width goes. */
  ghost predicate TargetsHold(s': State, stores: seq<Store>) {
    forall st | st in stores && st.at + st.width <= s'.size ::
      ReadAt(s', st.at, st.width) == st.value % Power256(st.width)
  }

  lemma TargetReads(s: State, stores: seq<Store>, st: Store)
    requires s.WellFormed() && s.item.Some? && !s.bigEndian && (forall t | t in stores :: t.width > 0)
    requires PairwiseDisjoint(stores) && st in stores && st.at + st.width - 1 <= s.epos
    ensures ReadAt(Reset(Run(s, stores)), st.at, st.width) == st.value % Power256(st.width)
  {
    hide Run, PairwiseDisjoint;
    RunKeeps(s, stores);
    LandsWhole(s, stores, st);
    LeBytesValue(st.value, st.width);
  }

  lemma AppliedStores(s: State, stores: seq<Store>)
    requires s.WellFormed() && s.item.Some? && !s.bigEndian && s.epos == s.size - 1
    requires forall st | st in stores :: st.width > 0
    ensures var s' := Reset(Run(s, stores));
      && s'.item.Some? && |s'.item.value| == |s.item.value|
      && s' == s.(cpos := 0, item := s'.item)
      && Untouched(s, s', stores)
      && (PairwiseDisjoint(stores) ==> TargetsHold(s', stores))
  {
    hide Run, PairwiseDisjoint, ReadAt, Power256;
    RunBytes(s, stores, 0);
    var s' := Reset(Run(s, stores));
    forall x | 0 <= x < |s.item.value| && (forall st | st in stores :: !st.Covers(x))
      ensures s'.item.value[x] == s.item.value[x]
    {
      Frame(s, stores, x);
    }
    if PairwiseDisjoint(stores) {
      forall st | st in stores && st.at + st.width <= s'.size
        ensures ReadAt(s', st.at, st.width) == st.value % Power256(st.width)
      {
        TargetReads(s, stores, st);
      }
    }
  }

  /**
    What ecapply_relocs leaves of a buffer: its size, and every byte no applied relocation covers; and
    if those relocations are disjoint, the little-endian value in every target that lies in scope.
   */
  lemma AppliedFile(s: State, types: Types, sections: seq<Option<Section>>, index: u32)
    requires s.WellFormed() && s.item.Some? && !s.bigEndian && s.epos == s.size - 1
    requires forall h | h in sections && Applies(h, index) :: h.value.entsize > 0
    ensures var stores := Stores(types, sections, index);
      (forall st | st in stores :: st.width > 0)
      && var s' := Reset(Run(s, stores));
      && s'.item.Some? && |s'.item.value| == |s.item.value|
      && s' == s.(cpos := 0, item := s'.item)
      && Untouched(s, s', stores)
      && (PairwiseDisjoint(stores) ==> TargetsHold(s', stores))
  {
    hide *;
    Widths(types, sections, index);
    AppliedStores(s, Stores(types, sections, index));
  }
}
