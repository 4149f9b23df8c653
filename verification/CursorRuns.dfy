/**
  What whole runs of cursor calls keep: blocks handed out lie inside the buffer, consecutive reads
  are adjacent, and the end state is permanent.
 */
module CursorRuns {
  import opened Radix
  import opened MemFind

  /** The calls that read or move. */
  datatype Call =
    | CallGetP(n: u64)
    | CallPeekP(n: u64)
    | CallGetU(k: u64)
    | CallStep(n: u64)
    | CallNext
    | CallMove(c: u64)
    | CallReset

  /** What a call hands out: a block of bytes and, for a typed read, its value. */
  datatype Outcome = Outcome(block: Option<nat>, len: nat, value: int)

  function Apply(s: State, call: Call): (State, Outcome) {
    match call
    case CallGetP(n) => var (s', p) := GetP(s, n); (s', Outcome(p, n, 0))
    case CallPeekP(n) => var (s', p) := PeekP(s, n); (s', Outcome(p, n, 0))
    case CallGetU(k) => (GetU(s, k).0, Outcome(GetP(s, k).1, k, GetU(s, k).1))
    case CallStep(n) => (Step(s, n), Outcome(None, 0, 0))
    case CallNext => (Step(s, s.blocksize), Outcome(None, 0, 0))
    case CallMove(c) => var (s', p) := Move(s, c); (s', Outcome(p, 0, 0))
    case CallReset => (Reset(s), Outcome(None, 0, 0))
  }

  /** True iff the call's position, as a number, stays a `uint64_t`. */
  predicate NoWrap(s: State, call: Call) {
    match call
    case CallGetP(n) => s.cpos + n < U64
    case CallPeekP(n) => s.cpos + n < U64
    case CallGetU(k) => s.cpos + k < U64
    case _ => true
  }

  function After(s: State, calls: seq<Call>): State
    decreases |calls|
  {
    if calls == [] then s else After(Apply(s, calls[0]).0, calls[1..])
  }

  function Outcomes(s: State, calls: seq<Call>): (r: seq<Outcome>)
    ensures |r| == |calls|
    decreases |calls|
  {
    if calls == [] then []
    else
      var (s', o) := Apply(s, calls[0]);
      [o] + Outcomes(s', calls[1..])
  }

  predicate NoWraps(s: State, calls: seq<Call>)
    decreases |calls|
  {
    calls == [] || (NoWrap(s, calls[0]) && NoWraps(Apply(s, calls[0]).0, calls[1..]))
  }

  /** The block lies between the start of the buffer and the inclusive end. */
  predicate Inside(o: Outcome, epos: u64) {
    o.block.Some? ==> o.block.value + o.len <= epos + 1
  }

  // ----- one call

  /**
    A block that one call hands out lies inside the scope exactly when the position did not wrap,
    which the caller can see beforehand.
   */
  lemma BlockInsideIffNoWrap(s: State, call: Call)
    requires s.WellFormed() && Apply(s, call).1.block.Some?
    ensures Inside(Apply(s, call).1, s.epos) <==> NoWrap(s, call)
  {
    hide Wrap;
    WrapValue(s.epos + 1);
    match call
    case CallGetP(n) => WrapValue(s.cpos + n);
    case CallPeekP(n) => WrapValue(s.cpos + n);
    case CallGetU(k) => WrapValue(s.cpos + k);
    case _ =>
  }

  /** A position can wrap around and still be in scope: then a block of almost 2^64 bytes is handed out. */
  lemma WrappedBlock(b: seq<byte>)
    requires |b| == 16
    ensures var s, call := State(8, 15, 16, 0, false, Some(b)), CallGetP(0xFFFF_FFFF_FFFF_FFFC);
      && s.WellFormed() && !NoWrap(s, call)
      && Apply(s, call).1.block == Some(8) && !Inside(Apply(s, call).1, s.epos)
  {
    WrapValue(8 + 0xFFFF_FFFF_FFFF_FFFC);
  }

  lemma KeepsWellFormed(s: State, call: Call)
    requires s.WellFormed()
    ensures var s' := Apply(s, call).0;
      s'.WellFormed() && s'.size == s.size && (s'.item == s.item || s'.item.None?)
  {
  }

  // ----- whole runs

  /** Every block of a run that never wraps lies inside the buffer, whatever the calls were. */
  lemma {:induction false} BlocksInside(s: State, calls: seq<Call>, k: nat)
    requires s.WellFormed() && NoWraps(s, calls) && k < |calls|
    ensures After(s, calls[..k]).WellFormed()
    ensures Inside(Outcomes(s, calls)[k], After(s, calls[..k]).epos)
    ensures var o := Outcomes(s, calls)[k];
      o.block.Some? ==> s.item.Some? && o.block.value + o.len <= |s.item.value|
    decreases k
  {
    KeepsWellFormed(s, calls[0]);
    if k == 0 {
      if Apply(s, calls[0]).1.block.Some? {
        BlockInsideIffNoWrap(s, calls[0]);
      }
    } else {
      assert calls[..k][1..] == calls[1..][..k - 1];
      BlocksInside(Apply(s, calls[0]).0, calls[1..], k - 1);
    }
  }

  /** Once the buffer pointer is cleared, the end is permanent and every read yields 0 or NULL. */
  lemma {:induction false} EndIsPermanent(s: State, calls: seq<Call>, k: nat)
    requires s.item.None? && k < |calls|
    ensures After(s, calls[..k]).Eof() && After(s, calls[..k]).item.None?
    ensures Outcomes(s, calls)[k].block.None? && Outcomes(s, calls)[k].value == 0
    decreases k
  {
    if k > 0 {
      assert calls[..k][1..] == calls[1..][..k - 1];
      EndIsPermanent(Apply(s, calls[0]).0, calls[1..], k - 1);
    }
  }

  // ----- consecutive reads

  function Reads(sizes: seq<u64>): seq<Call> {
    if sizes == [] then [] else [CallGetP(sizes[0])] + Reads(sizes[1..])
  }

  function Total(sizes: seq<u64>): nat {
    if sizes == [] then 0 else sizes[0] + Total(sizes[1..])
  }

  lemma {:induction false} TotalTake(sizes: seq<u64>, k: nat)
    requires k < |sizes|
    ensures Total(sizes[..k + 1]) == Total(sizes[..k]) + sizes[k]
  {
    if k == 0 {
      assert sizes[..1][1..] == [];
    } else {
      assert sizes[..k + 1][1..] == sizes[1..][..k] && sizes[..k][1..] == sizes[1..][..k - 1];
      TotalTake(sizes[1..], k - 1);
    }
  }

  /**
    Consecutive reads hand out adjacent slices: the k-th starts where the first k ended, and it is
    handed out exactly when it still fits before the end.
   */
  lemma {:induction false} ReadsAreAdjacent(s: State, sizes: seq<u64>, k: nat)
    requires s.WellFormed() && s.item.Some? && s.cpos <= s.epos && k < |sizes|
    requires forall j | 0 <= j < |sizes| :: 0 < sizes[j]
    requires s.cpos + Total(sizes) < U64
    ensures |Reads(sizes)| == |sizes|
    ensures Outcomes(s, Reads(sizes))[k].block
         == if s.cpos + Total(sizes[..k + 1]) <= s.epos + 1 then Some(s.cpos + Total(sizes[..k])) else None
    decreases k
  {
    ReadsLength(sizes);
    GetPNoWrap(s, sizes[0]);
    hide GetP;
    var rest := sizes[1..];
    var s' := GetP(s, sizes[0]).0;
    FirstRead(s, sizes);
    if k == 0 {
      assert sizes[..1][1..] == [] && sizes[..0] == [];
    } else {
      assert sizes[..k + 1][1..] == rest[..k] && sizes[..k][1..] == rest[..k - 1];
      hide Outcomes, Reads;
      if s'.item.Some? {
        ReadsAreAdjacent(s', rest, k - 1);
      } else {
        ReadsLength(rest);
        EndIsPermanent(s', Reads(rest), k - 1);
        TotalAtLeast(rest, k);
      }
    }
  }

  lemma FirstRead(s: State, sizes: seq<u64>)
    requires sizes != []
    ensures |Reads(sizes)| == |sizes| == |Reads(sizes[1..])| + 1
    ensures Outcomes(s, Reads(sizes))[0].block == GetP(s, sizes[0]).1
    ensures Outcomes(s, Reads(sizes))[1..] == Outcomes(GetP(s, sizes[0]).0, Reads(sizes[1..]))
  {
    hide GetP;
    ReadsLength(sizes);
    ReadsLength(sizes[1..]);
    assert Reads(sizes)[1..] == Reads(sizes[1..]);
  }

  lemma {:induction false} ReadsLength(sizes: seq<u64>)
    ensures |Reads(sizes)| == |sizes|
  {
    if sizes != [] {
      ReadsLength(sizes[1..]);
    }
  }

  lemma TotalAtLeast(sizes: seq<u64>, k: nat)
    requires 0 < k <= |sizes| && forall j | 0 <= j < |sizes| :: 0 < sizes[j]
    ensures Total(sizes[..k]) > 0
  {
  }
}
