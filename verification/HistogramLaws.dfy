/**
  The chains of src/dumpelf.c spelt out: the words of the file, where a chain begins, which stretch or
  which path it is, and what the counts mean.
 */
module HistogramLaws {
  import opened Radix
  import opened MemFind
  import opened CursorLaws
  import opened Histogram

  // ----- the words of the file

  /** Four bytes of the file as the host reads them, converted: a big-endian file has its first byte on top. */
  lemma FileWord(b: seq<byte>)
    requires |b| == 4
    ensures 0 <= Value(b, 256) < U32
    ensures Convert(true, Value(b, 256)) == Big(b, 256)
    ensures Convert(false, Value(b, 256)) == Value(b, 256)
  {
    assert b == [b[0], b[1], b[2], b[3]];
    FourBytes(b[0], b[1], b[2], b[3]);
    hide Value, Big;
    var v := Value(b, 256);
    DivUnique(v, b[1] + b[2] as int * 0x100 + b[3] as int * 0x1_0000, b[0], 256);
    DivUnique(v / 256, b[2] + b[3] as int * 0x100, b[1], 256);
    DivUnique(v, b[2] + b[3] as int * 0x100, b[0] + b[1] as int * 0x100, 0x1_0000);
    DivUnique(v / 0x1_0000, b[3], b[2], 256);
    DivUnique(v, b[3], b[0] + b[1] as int * 0x100 + b[2] as int * 0x1_0000, 0x100_0000);
  }

  // ----- GNU chains

  /** The length `n` of the chain that begins at word `x`: up to and with the first odd word. */
  predicate Stretch(be: bool, chain: seq<u32>, x: int, n: nat) {
    && n > 0 && 0 <= x && x + n <= |chain|
    && Convert(be, chain[x + n - 1]) % 2 == 1
    && forall k | x <= k < x + n - 1 :: Convert(be, chain[k]) % 2 == 0
  }

  /** The chain of a bucket begins as many words into the table as its symbol is beyond the offset. */
  lemma GnuChain(be: bool, symbias: u32, chain: seq<u32>, b: u32, n: nat)
    requires |chain| < U32
    ensures var w := Convert(be, b);
      GnuEnds(be, chain, GnuStart(be, symbias, b), n) <==>
        Stretch(be, chain, if symbias <= w then w - symbias else w - symbias + 0x1_0000_0000, n)
  {
    hide Convert, GnuEnds;
    var w := Convert(be, b);
    assert GnuStart(be, symbias, b) == if symbias <= w then w - symbias else w - symbias + 0x1_0000_0000;
    GnuStretch(be, chain, GnuStart(be, symbias, b), n);
  }

  /** The lengths of a table: none for a bucket of zero, else the stretch its symbol begins. */
  lemma GnuTable(be: bool, symbias: u32, bucket: seq<u32>, chain: seq<u32>, k: nat, n: nat)
    requires |chain| < U32 && AllGnuEnd(be, chain, symbias, bucket) && k < |bucket|
    ensures var lengths := GnuLengths(be, chain, symbias, bucket);
      if bucket[k] == 0 then lengths[k] == 0
      else
        var w := Convert(be, bucket[k]);
        lengths[k] == n <==> Stretch(be, chain, if symbias <= w then w - symbias else w - symbias + 0x1_0000_0000, n)
  {
    hide Convert, GnuEnds, GnuStart, Stretch;
    if bucket[k] != 0 {
      var x := GnuStart(be, symbias, bucket[k]);
      var m := GnuLength(be, chain, x);
      assert GnuLengths(be, chain, symbias, bucket)[k] == m;
      GnuChain(be, symbias, chain, bucket[k], n);
      if GnuEnds(be, chain, x, n) {
        GnuUnique(be, chain, x, n, m);
      }
    }
  }

  // ----- SysV chains

  /** `p` is the walk from `x`: symbols inside the table, each followed by its chain word, then one that is not. */
  predicate Walk(be: bool, chain: seq<u32>, nchain: u32, x: u32, p: seq<u32>)
    requires nchain <= |chain|
  {
    && p != [] && p[0] == x
    && (forall i | 0 <= i < |p| - 1 :: 0 < p[i] < nchain && p[i + 1] == Convert(be, chain[p[i]]))
    && (p[|p| - 1] == 0 || p[|p| - 1] >= nchain)
  }

  /** A chain has the length `n` exactly if the walk from its first symbol makes `n` steps. */
  lemma {:induction false} ChainIsWalk(be: bool, chain: seq<u32>, nchain: u32, x: u32, n: nat)
    requires nchain <= |chain|
    ensures ChainEnds(be, chain, nchain, x, n) <==> exists p :: Walk(be, chain, nchain, x, p) && |p| == n + 1
  {
    hide Convert, Walk;
    if ChainEnds(be, chain, nchain, x, n) {
      var p := WalkOf(be, chain, nchain, x, n);
      assert Walk(be, chain, nchain, x, p) && |p| == n + 1;
    }
    if p :| Walk(be, chain, nchain, x, p) && |p| == n + 1 {
      WalkEnds(be, chain, nchain, x, p);
    }
  }

  lemma {:induction false} WalkOf(be: bool, chain: seq<u32>, nchain: u32, x: u32, n: nat) returns (p: seq<u32>)
    requires nchain <= |chain| && ChainEnds(be, chain, nchain, x, n)
    ensures Walk(be, chain, nchain, x, p) && |p| == n + 1
    decreases n
  {
    hide Convert;
    if n == 0 {
      p := [x];
    } else {
      var q := WalkOf(be, chain, nchain, Convert(be, chain[x]), n - 1);
      p := [x] + q;
    }
  }

  lemma {:induction false} WalkEnds(be: bool, chain: seq<u32>, nchain: u32, x: u32, p: seq<u32>)
    requires nchain <= |chain| && Walk(be, chain, nchain, x, p)
    ensures ChainEnds(be, chain, nchain, x, |p| - 1)
    decreases |p|
  {
    hide Convert;
    if |p| > 1 {
      WalkEnds(be, chain, nchain, p[1], p[1..]);
    }
  }

  /** The lengths of a SysV table are those of the walks from its buckets. */
  lemma SysVTable(be: bool, nchain: u32, bucket: seq<u32>, chain: seq<u32>, k: nat, n: nat)
    requires nchain <= |chain| && AllEnd(be, chain, nchain, bucket) && k < |bucket|
    ensures Lengths(be, chain, nchain, bucket)[k] == n <==>
      exists p :: Walk(be, chain, nchain, Convert(be, bucket[k]), p) && |p| == n + 1
  {
    hide Convert, Walk, ChainEnds;
    var x := Convert(be, bucket[k]);
    var m := Lengths(be, chain, nchain, bucket)[k];
    assert m == ChainLength(be, chain, nchain, x);
    ChainIsWalk(be, chain, nchain, x, n);
    if ChainEnds(be, chain, nchain, x, n) {
      LengthUnique(be, chain, nchain, x, n, m);
    }
  }

  // ----- the counts

  /** The count of a length is how often it occurs. */
  lemma {:induction false} CountIsMultiplicity(lengths: seq<nat>, v: nat)
    ensures Count(lengths, v) == multiset(lengths)[v]
  {
    if lengths != [] {
      CountIsMultiplicity(lengths[..|lengths| - 1], v);
      assert lengths == lengths[..|lengths| - 1] + [lengths[|lengths| - 1]];
    }
  }

  /** The table, number by number: a row for every length up to the longest, and empty chains apart. */
  lemma TableRows(lengths: seq<nat>, i: nat)
    requires lengths != []
    ensures var t := TableOf(lengths);
      && (forall k | 0 <= k < |lengths| :: lengths[k] <= |t.rows|) && |t.rows| in lengths
      && t.zeros == multiset(lengths)[0]
      && (i < |t.rows| ==> t.rows[i].length == i + 1 && t.rows[i].number == multiset(lengths)[i + 1])
      && (i < |t.rows| ==> var before := if i == 0 then 0 else t.rows[i - 1].covered;
            t.rows[i].covered == before + t.rows[i].number * (i + 1))
  {
    hide Count, Covered;
    CountIsMultiplicity(lengths, 0);
    CountIsMultiplicity(lengths, i + 1);
    NextLength(lengths, i + 1);
    BelowAll(lengths);
  }
}
