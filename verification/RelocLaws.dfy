/**
  What ecapply_relocs (src/elfcode-memfind.c:5-81) writes where, spelt out: which relocations are read,
  and the number each group of types leaves at its target.
 */
module RelocLaws {
  import opened Radix
  import opened MemFind
  import opened CursorLaws
  import opened Relocs

  /** `r` is one of the first size / entsize entries of a RELA section (type 4) that belongs to `index`. */
  ghost predicate IsRead(sections: seq<Option<Section>>, index: u32, r: Rela) {
    exists i, j :: 0 <= i < |sections| && EntryIs(sections[i], index, j, r)
  }

  predicate EntryIs(section: Option<Section>, index: u32, j: int, r: Rela) {
    && section.Some? && section.value.info == index && section.value.kind == 4 && section.value.symbols
    && section.value.entsize > 0 && section.value.entries.Some?
    && 0 <= j < |section.value.entries.value| && j < section.value.size / section.value.entsize
    && section.value.entries.value[j] == Some(r)
  }

  /** If the `width` bytes at `at` are in the buffer, they are the little-endian number `v`. */
  predicate Holds(buffer: seq<byte>, at: nat, width: nat, v: int) {
    at + width <= |buffer| ==> Value(buffer[at..at + width], 256) == v
  }

  /** The value of the symbol, zero if there is none. */
  function Symbol(r: Rela): u64 {
    if r.symbol.Some? then r.symbol.value else 0
  }

  /** No group knows the type, or the number it asks for is zero. */
  predicate Ignored(types: Types, r: Rela) {
    if r.kind in types.sym32 + types.sym64 then Symbol(r) == 0
    else r.kind in types.shex8 + types.shex16 + types.shex32 + types.shex64 ==> r.addend == 0
  }

  /**
    The number left at the target, by the first group that has the type: the value of the symbol for
    sym32 and sym64, the addend for shex8 to shex64, cut to 4, 8, 1, 2, 4 and 8 bytes.
   */
  ghost predicate Patched(types: Types, r: Rela, buffer: seq<byte>) {
    && (r.kind in types.sym32 && Symbol(r) != 0 ==> Holds(buffer, r.offset, 4, Symbol(r) % 0x1_0000_0000))
    && (r.kind in types.sym64 && r.kind !in types.sym32 && Symbol(r) != 0 ==> Holds(buffer, r.offset, 8, Symbol(r)))
    && (r.kind !in types.sym32 + types.sym64 && r.addend != 0 ==>
        && (r.kind in types.shex8 ==> Holds(buffer, r.offset, 1, r.addend % 0x100))
        && (r.kind in types.shex16 && r.kind !in types.shex8 ==> Holds(buffer, r.offset, 2, r.addend % 0x1_0000))
        && (r.kind in types.shex32 && r.kind !in types.shex8 + types.shex16 ==>
              Holds(buffer, r.offset, 4, r.addend % 0x1_0000_0000))
        && (r.kind in types.shex64 && r.kind !in types.shex8 + types.shex16 + types.shex32 ==>
              Holds(buffer, r.offset, 8, r.addend)))
  }

  /** The bytes a relocation may touch: 4, 8, 1, 2, 4 or 8 from its offset on, by the first group again. */
  predicate Reaches(types: Types, r: Rela, x: int) {
    && !Ignored(types, r)
    && r.offset <= x
    && (if r.kind in types.sym32 then x < r.offset + 4
        else if r.kind in types.sym64 then x < r.offset + 8
        else if r.kind in types.shex8 then x < r.offset + 1
        else if r.kind in types.shex16 then x < r.offset + 2
        else if r.kind in types.shex32 then x < r.offset + 4
        else r.kind in types.shex64 && x < r.offset + 8)
  }

  // ----- one relocation

  lemma StoredOf(types: Types, r: Rela)
    ensures StoreOf(types, r).None? <==> Ignored(types, r)
    ensures StoreOf(types, r).Some? ==>
      forall x :: StoreOf(types, r).value.Covers(x) <==> Reaches(types, r, x)
  {
  }

  /** A buffer whose target holds the bytes of the store is patched as it should be. */
  lemma PatchedByStore(types: Types, r: Rela, buffer: seq<byte>)
    requires StoreOf(types, r).Some?
    requires var st := StoreOf(types, r).value;
      st.at + st.width <= |buffer| ==> buffer[st.at..st.at + st.width] == LeBytes(st.value, st.width)
    ensures Patched(types, r, buffer)
  {
    var st := StoreOf(types, r).value;
    hide LeBytes, Value;
    LeBytesValue(st.value, st.width);
    Powers();
    hide Power256;
    assert st.value % U64 == st.value;
  }

  /** One relocation with its target in scope, and no other: the number it leaves, and what it leaves alone. */
  lemma OneRelocation(s: State, types: Types, r: Rela)
    requires s.WellFormed() && s.item.Some? && s.epos == |s.item.value| - 1
    ensures forall st | st in EntryStores(types, Some(r)) :: st.width > 0
    ensures var s' := Run(s, EntryStores(types, Some(r)));
      && s'.item.Some? && |s'.item.value| == |s.item.value|
      && (Ignored(types, r) ==> s' == s)
      && Patched(types, r, s'.item.value)
      && forall x | 0 <= x < |s.item.value| && !Reaches(types, r, x) :: s'.item.value[x] == s.item.value[x]
  {
    hide LeBytes, Patched, Run;
    StoredOf(types, r);
    if StoreOf(types, r).None? {
      RunNone(s);
      IgnoredPatched(types, r, s.item.value);
    } else {
      var st := StoreOf(types, r).value;
      var stores := EntryStores(types, Some(r));
      assert stores == [st];
      RunBytes(s, stores, 0);
      var s' := Run(s, stores);
      if st.at + st.width <= |s.item.value| {
        LandsWhole(s, stores, st);
      }
      PatchedByStore(types, r, s'.item.value);
      forall x | 0 <= x < |s.item.value| && !Reaches(types, r, x) ensures s'.item.value[x] == s.item.value[x] {
        Frame(s, stores, x);
      }
    }
  }

  lemma IgnoredPatched(types: Types, r: Rela, buffer: seq<byte>)
    requires Ignored(types, r)
    ensures Patched(types, r, buffer)
  {
  }

  // ----- which relocations are read

  lemma {:induction false} SectionHas(types: Types, entries: seq<Option<Rela>>, count: nat, j: nat)
    requires j < count && j < |entries|
    ensures forall st | st in EntryStores(types, entries[j]) :: st in SectionStores(types, entries, count)
    decreases count
  {
    hide EntryStores;
    if j < count - 1 {
      SectionHas(types, entries, count - 1, j);
    }
  }

  lemma {:induction false} SectionOnly(types: Types, entries: seq<Option<Rela>>, count: nat, st: Store) returns (j: nat)
    requires st in SectionStores(types, entries, count)
    ensures j < count && j < |entries| && st in EntryStores(types, entries[j])
    decreases count
  {
    hide EntryStores;
    var entry := if count <= |entries| then entries[count - 1] else None;
    if st in EntryStores(types, entry) {
      j := count - 1;
      NoEntry(types);
    } else {
      j := SectionOnly(types, entries, count - 1, st);
    }
  }

  lemma NoEntry(types: Types)
    ensures EntryStores(types, None) == []
  {
  }

  lemma {:induction false} StoresHave(types: Types, sections: seq<Option<Section>>, index: u32, i: nat, j: nat, r: Rela)
    requires forall h | h in sections && Applies(h, index) :: h.value.entsize > 0
    requires i < |sections| && EntryIs(sections[i], index, j, r)
    ensures forall st | st in EntryStores(types, Some(r)) :: st in Stores(types, sections, index)
    decreases |sections|
  {
    hide EntryStores, SectionStores;
    var n := |sections| - 1;
    if i < n {
      assert sections[..n][i] == sections[i];
      StoresHave(types, sections[..n], index, i, j, r);
    } else {
      var s0 := sections[n].value;
      SectionHas(types, s0.entries.value, s0.size / s0.entsize, j);
    }
  }

  lemma {:induction false} StoresOnly(types: Types, sections: seq<Option<Section>>, index: u32, st: Store)
    returns (i: nat, j: nat, r: Rela)
    requires forall h | h in sections && Applies(h, index) :: h.value.entsize > 0
    requires st in Stores(types, sections, index)
    ensures i < |sections| && EntryIs(sections[i], index, j, r) && st in EntryStores(types, Some(r))
    decreases |sections|
  {
    hide EntryStores, SectionStores;
    var n := |sections| - 1;
    if st in HeaderStores(types, sections[n], index) {
      var s0 := sections[n].value;
      i := n;
      j := SectionOnly(types, s0.entries.value, s0.size / s0.entsize, st);
      NoEntry(types);
      r := s0.entries.value[j].value;
    } else {
      i, j, r := StoresOnly(types, sections[..n], index, st);
      assert sections[..n][i] == sections[i];
    }
  }

  // ----- a whole file

  lemma FileKeeps(s: State, stores: seq<Store>)
    requires s.WellFormed() && s.item.Some? && forall st | st in stores :: st.width > 0
    ensures var s' := Reset(Run(s, stores)); s'.item.Some? && |s'.item.value| == |s.item.value|
    ensures Reset(Run(s, stores)).item == Run(s, stores).item
  {
    hide Run;
    RunBytes(s, stores, 0);
  }

  lemma OneOfMany(s: State, types: Types, sections: seq<Option<Section>>, index: u32, r: Rela)
    requires s.WellFormed() && s.item.Some? && s.epos == s.size - 1 && s.size == |s.item.value|
    requires forall h | h in sections && Applies(h, index) :: h.value.entsize > 0
    requires (forall st | st in Stores(types, sections, index) :: st.width > 0)
    requires PairwiseDisjoint(Stores(types, sections, index)) && IsRead(sections, index, r)
    ensures Run(s, Stores(types, sections, index)).item.Some?
    ensures Patched(types, r, Run(s, Stores(types, sections, index)).item.value)
  {
    hide Run, Stores, StoreOf, LeBytes, Patched, EntryIs, PairwiseDisjoint, Applies;
    var stores := Stores(types, sections, index);
    RunBytes(s, stores, 0);
    var s' := Run(s, stores);
    StoredOf(types, r);
    if StoreOf(types, r).None? {
      IgnoredPatched(types, r, s'.item.value);
    } else {
      var st := StoreOf(types, r).value;
      assert EntryStores(types, Some(r)) == [st];
      var i, j :| 0 <= i < |sections| && EntryIs(sections[i], index, j, r);
      assert j >= 0 by { EntryNat(sections[i], index, j, r); }
      StoresHave(types, sections, index, i, j, r);
      if st.at + st.width <= |s.item.value| {
        LandsWhole(s, stores, st);
      }
      PatchedByStore(types, r, s'.item.value);
    }
  }

  lemma EntryNat(section: Option<Section>, index: u32, j: int, r: Rela)
    requires EntryIs(section, index, j, r)
    ensures j >= 0
  {
  }

  lemma Unreached(s: State, types: Types, sections: seq<Option<Section>>, index: u32, x: nat)
    requires s.WellFormed() && s.item.Some? && x < |s.item.value|
    requires forall h | h in sections && Applies(h, index) :: h.value.entsize > 0
    requires (forall st | st in Stores(types, sections, index) :: st.width > 0)
    requires forall r | IsRead(sections, index, r) :: !Reaches(types, r, x)
    ensures var s' := Run(s, Stores(types, sections, index));
      s'.item.Some? && |s'.item.value| == |s.item.value| && s'.item.value[x] == s.item.value[x]
  {
    hide Run, Stores, StoreOf, EntryIs, Reaches, Applies;
    var stores := Stores(types, sections, index);
    forall st | st in stores ensures !st.Covers(x) {
      var i, j, r := StoresOnly(types, sections, index, st);
      assert IsRead(sections, index, r);
      StoredOf(types, r);
    }
    Frame(s, stores, x);
  }

  /**
    Every relocation that is read leaves its number at its target if the targets are disjoint, and a byte
    no relocation that is read reaches stays what it was, disjoint or not.
   */
  lemma FilePatched(s: State, types: Types, sections: seq<Option<Section>>, index: u32)
    requires s.WellFormed() && s.item.Some? && s.epos == s.size - 1 && s.size == |s.item.value|
    requires forall h | h in sections && Applies(h, index) :: h.value.entsize > 0
    ensures forall st | st in Stores(types, sections, index) :: st.width > 0
    ensures var s' := Reset(Run(s, Stores(types, sections, index)));
      && s'.item.Some? && |s'.item.value| == |s.item.value|
      && (PairwiseDisjoint(Stores(types, sections, index)) ==>
            forall r | IsRead(sections, index, r) :: Patched(types, r, s'.item.value))
      && forall x | 0 <= x < |s.item.value| && (forall r | IsRead(sections, index, r) :: !Reaches(types, r, x)) ::
           s'.item.value[x] == s.item.value[x]
  {
    hide *;
    var stores := Stores(types, sections, index);
    Widths(types, sections, index);
    assert forall st | st in stores :: st.width > 0;
    FileKeeps(s, stores);
    var s' := Reset(Run(s, stores));
    if PairwiseDisjoint(stores) {
      forall r | IsRead(sections, index, r) ensures Patched(types, r, s'.item.value) {
        OneOfMany(s, types, sections, index, r);
      }
    }
    forall x | 0 <= x < |s.item.value| && (forall r | IsRead(sections, index, r) :: !Reaches(types, r, x))
      ensures s'.item.value[x] == s.item.value[x]
    {
      Unreached(s, types, sections, index, x);
    }
  }
}
