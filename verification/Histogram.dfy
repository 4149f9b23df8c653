/**
  The hash-table histograms of dumpelf (src/dumpelf.c:1564-1674): dump_hash32 and dump_gnuhash1 measure
  the chain of every bucket, dump_gnuhash0 counts the lengths and the symbols covered so far.
 */
module Histogram {
  import opened Radix
  import opened MemFind

  /** ecconvert_u32: the bytes of a word the other way round in a big-endian file. */
  function Convert(bigEndian: bool, w: u32): u32 {
    if bigEndian
    then w % 256 * 0x100_0000 + w / 256 % 256 * 0x1_0000 + w / 0x1_0000 % 256 * 0x100 + w / 0x100_0000
    else w
  }

  // ----- sums, counts and maxima

  function Sum(s: seq<nat>): nat {
    if s == [] then 0 else Sum(s[..|s| - 1]) + s[|s| - 1]
  }

  function Max(s: seq<nat>): (m: nat)
    ensures forall k | 0 <= k < |s| :: s[k] <= m
    ensures m in s || (s == [] && m == 0)
  {
    if s == [] then 0
    else
      var m := Max(s[..|s| - 1]);
      if m < s[|s| - 1] || |s| == 1 then s[|s| - 1] else m
  }

  /** How many chains have the length `v`. */
  function Count(s: seq<nat>, v: nat): (n: nat)
    ensures n <= |s|
  {
    if s == [] then 0 else Count(s[..|s| - 1], v) + if s[|s| - 1] == v then 1 else 0
  }

  /** How many chains are not longer than `v`. */
  function CountUpTo(s: seq<nat>, v: int): (n: nat)
    ensures n <= |s|
  {
    if s == [] then 0 else CountUpTo(s[..|s| - 1], v) + if s[|s| - 1] <= v then 1 else 0
  }

  /** How many symbols lie in chains that are not longer than `v`. */
  function Covered(s: seq<nat>, v: int): nat {
    if s == [] then 0 else Covered(s[..|s| - 1], v) + if s[|s| - 1] <= v then s[|s| - 1] else 0
  }

  /** One length more takes in the chains of exactly that length, and their symbols. */
  lemma {:induction false} NextLength(s: seq<nat>, v: nat)
    ensures CountUpTo(s, v) == CountUpTo(s, v - 1) + Count(s, v)
    ensures Covered(s, v) == Covered(s, v - 1) + Count(s, v) * v
  {
    if s != [] {
      NextLength(s[..|s| - 1], v);
      var n := Count(s[..|s| - 1], v);
      assert (n + 1) * v == n * v + v;
    }
  }

  lemma {:induction false} BelowAll(s: seq<nat>)
    ensures CountUpTo(s, -1) == 0 && Covered(s, -1) == 0 && Covered(s, 0) == 0
  {
    if s != [] {
      BelowAll(s[..|s| - 1]);
    }
  }

  lemma {:induction false} AboveAll(s: seq<nat>, v: nat)
    requires forall k | 0 <= k < |s| :: s[k] <= v
    ensures CountUpTo(s, v) == |s| && Covered(s, v) == Sum(s)
  {
    if s != [] {
      AboveAll(s[..|s| - 1], v);
    }
  }

  // ----- the histogram

  /** One printed line: a length, how many buckets have it, and the symbols covered so far. */
  datatype Row = Row(length: nat, number: nat, covered: nat)

  datatype Table = Table(zeros: nat, rows: seq<Row>, nsyms: nat)

  /** The line for length `i`. */
  function RowOf(lengths: seq<nat>, i: nat): Row {
    Row(i, Count(lengths, i), Covered(lengths, i))
  }

  /** The table for given chain lengths: one row for every length up to the longest. */
  function TableOf(lengths: seq<nat>): Table {
    Table(Count(lengths, 0),
          seq(Max(lengths), i requires 0 <= i => RowOf(lengths, i + 1)),
          Sum(lengths))
  }

  function Numbers(rows: seq<Row>): nat {
    if rows == [] then 0 else Numbers(rows[..|rows| - 1]) + rows[|rows| - 1].number
  }

  lemma {:induction false} NumbersUpTo(lengths: seq<nat>, i: nat)
    requires i <= |TableOf(lengths).rows|
    ensures Count(lengths, 0) + Numbers(TableOf(lengths).rows[..i]) == CountUpTo(lengths, i)
  {
    var rows := TableOf(lengths).rows;
    if i == 0 {
      NextLength(lengths, 0);
      BelowAll(lengths);
    } else {
      NumbersUpTo(lengths, i - 1);
      assert rows[..i][..i - 1] == rows[..i - 1];
      NextLength(lengths, i);
    }
  }

  /** Every bucket is counted once, and the last row covers every symbol. */
  lemma Conservation(lengths: seq<nat>)
    ensures var t := TableOf(lengths);
      && t.zeros + Numbers(t.rows) == |lengths|
      && (if t.rows == [] then t.nsyms == 0 else t.rows[|t.rows| - 1].covered == t.nsyms)
      && (t.rows != [] ==> t.rows[|t.rows| - 1].number > 0)
  {
    var t := TableOf(lengths);
    var m := Max(lengths);
    NumbersUpTo(lengths, m);
    assert t.rows[..m] == t.rows;
    AboveAll(lengths, m);
    BelowAll(lengths);
    if m > 0 {
      Present(lengths, m);
    }
  }

  lemma {:induction false} Present(s: seq<nat>, v: nat)
    requires v in s
    ensures Count(s, v) > 0
  {
    if s[|s| - 1] != v {
      assert s == s[..|s| - 1] + [s[|s| - 1]];
      Present(s[..|s| - 1], v);
    }
  }

  /** The counting array of dump_gnuhash0: every length indexes it, because none exceeds `msize`. */
  method CountLengths(msize: nat, size: array<u32>, ghost lengths: seq<nat>) returns (counts: array<u32>)
    requires size.Length < U32 && size[..] == lengths && forall k | 0 <= k < |lengths| :: lengths[k] <= msize
    ensures fresh(counts) && counts.Length == msize + 1
    ensures forall v | 0 <= v <= msize :: counts[v] == Count(lengths, v)
  {
    counts := new u32[msize + 1](i => 0);
    for k := 0 to size.Length
      invariant forall v | 0 <= v <= msize :: counts[v] == Count(lengths[..k], v)
    {
      assert lengths[..k + 1][..k] == lengths[..k];
      assert size[k] == lengths[k];
      counts[size[k]] := counts[size[k]] + 1;
    }
    assert lengths[..size.Length] == lengths;
  }

  /** dump_gnuhash0, with the printed lines as its result. */
  method DumpGnuHash0(msize: nat, size: array<u32>, nsyms: nat, ghost lengths: seq<nat>) returns (t: Table)
    requires size.Length < U32 && size[..] == lengths && forall k | 0 <= k < |lengths| :: lengths[k] <= msize
    ensures t.zeros == Count(lengths, 0) && t.nsyms == nsyms && |t.rows| == msize
    ensures forall i | 0 <= i < msize :: t.rows[i] == RowOf(lengths, i + 1)
  {
    hide Count, Covered, RowOf;
    var counts := CountLengths(msize, size, lengths);
    var nzeros := 0;
    var rows := [];
    BelowAll(lengths);
    for i := 1 to msize + 1
      invariant forall v | 0 <= v <= msize :: counts[v] == Count(lengths, v)
      invariant nzeros == Covered(lengths, i - 1) && |rows| == i - 1
      invariant forall j | 0 <= j < i - 1 :: rows[j] == RowOf(lengths, j + 1)
    {
      NextRow(lengths, i, counts[i]);
      nzeros := nzeros + counts[i] as int * i;
      rows := rows + [Row(i, counts[i], nzeros)];
    }
    t := Table(counts[0], rows, nsyms);
  }

  lemma NextRow(lengths: seq<nat>, i: nat, count: nat)
    requires i > 0 && count == Count(lengths, i)
    ensures Row(i, count, Covered(lengths, i - 1) + count * i) == RowOf(lengths, i)
    ensures Covered(lengths, i) == Covered(lengths, i - 1) + count * i
  {
    NextLength(lengths, i);
  }

  // ----- SysV chains

  /** The chain from `x` ends after exactly `n` symbols. */
  ghost predicate ChainEnds(be: bool, chain: seq<u32>, nchain: u32, x: u32, n: nat)
    requires nchain <= |chain|
    decreases n
  {
    if 0 < x < nchain then n > 0 && ChainEnds(be, chain, nchain, Convert(be, chain[x]), n - 1) else n == 0
  }

  lemma {:induction false} LengthUnique(be: bool, chain: seq<u32>, nchain: u32, x: u32, n: nat, m: nat)
    requires nchain <= |chain| && ChainEnds(be, chain, nchain, x, n) && ChainEnds(be, chain, nchain, x, m)
    ensures n == m
    decreases n
  {
    if n > 0 {
      LengthUnique(be, chain, nchain, Convert(be, chain[x]), n - 1, m - 1);
    }
  }

  /** The symbols of a chain, in order. */
  ghost function Nodes(be: bool, chain: seq<u32>, nchain: u32, x: u32, n: nat): (s: seq<u32>)
    requires nchain <= |chain| && ChainEnds(be, chain, nchain, x, n)
    ensures |s| == n && forall k | 0 <= k < n :: 0 < s[k] < nchain
    decreases n
  {
    if n == 0 then [] else [x] + Nodes(be, chain, nchain, Convert(be, chain[x]), n - 1)
  }

  lemma {:induction false} NodeEnds(be: bool, chain: seq<u32>, nchain: u32, x: u32, n: nat, k: nat)
    requires nchain <= |chain| && ChainEnds(be, chain, nchain, x, n) && k < n
    ensures ChainEnds(be, chain, nchain, Nodes(be, chain, nchain, x, n)[k], n - k)
    decreases n
  {
    if k > 0 {
      NodeEnds(be, chain, nchain, Convert(be, chain[x]), n - 1, k - 1);
    }
  }

  predicate Distinct(s: seq<u32>) {
    forall i, j | 0 <= i < j < |s| :: s[i] != s[j]
  }

  lemma {:induction false} Pigeonhole(s: seq<u32>, m: nat)
    requires Distinct(s) && m > 0 && forall k | 0 <= k < |s| :: 0 < s[k] < m
    ensures |s| < m
    decreases m
  {
    if s != [] {
      assert 0 < s[0] < m;
      if k :| 0 <= k < |s| && s[k] == m - 1 {
        Pigeonhole(s[..k] + s[k + 1..], m - 1);
      } else {
        Pigeonhole(s, m - 1);
      }
    }
  }

  /** A chain that ends never visits a symbol twice, so it is shorter than the table: no counter wraps. */
  lemma ChainShort(be: bool, chain: seq<u32>, nchain: u32, x: u32, n: nat)
    requires nchain <= |chain| && ChainEnds(be, chain, nchain, x, n)
    ensures Distinct(Nodes(be, chain, nchain, x, n))
    ensures n == 0 || n < nchain
  {
    hide ChainEnds, Nodes, Convert;
    var s := Nodes(be, chain, nchain, x, n);
    forall i, j | 0 <= i < j < n ensures s[i] != s[j] {
      NodeEnds(be, chain, nchain, x, n, i);
      NodeEnds(be, chain, nchain, x, n, j);
      if s[i] == s[j] {
        LengthUnique(be, chain, nchain, s[i], n - i, n - j);
      }
    }
    if n > 0 {
      assert s[0] < nchain;
      Pigeonhole(s, nchain);
    }
  }

  /** The symbol `k` steps along a walk, if it gets that far. */
  function Visited(be: bool, chain: seq<u32>, nchain: u32, x: u32, k: nat): (v: Option<u32>)
    requires nchain <= |chain|
    ensures v.Some? ==> 0 < v.value < nchain
    decreases k
  {
    if !(0 < x < nchain) then None
    else if k == 0 then Some(x)
    else Visited(be, chain, nchain, Convert(be, chain[x]), k - 1)
  }

  /** No symbol comes up twice. */
  ghost predicate Acyclic(be: bool, chain: seq<u32>, nchain: u32, x: u32)
    requires nchain <= |chain|
  {
    forall i: nat, j: nat | i < j && Visited(be, chain, nchain, x, j).Some? ::
      Visited(be, chain, nchain, x, i) != Visited(be, chain, nchain, x, j)
  }

  lemma {:induction false} VisitedNode(be: bool, chain: seq<u32>, nchain: u32, x: u32, n: nat, k: nat)
    requires nchain <= |chain| && ChainEnds(be, chain, nchain, x, n)
    ensures var v := Visited(be, chain, nchain, x, k);
      if k < n then v == Some(Nodes(be, chain, nchain, x, n)[k]) else v == None
    decreases n
  {
    if n > 0 && k > 0 {
      VisitedNode(be, chain, nchain, Convert(be, chain[x]), n - 1, k - 1);
    }
  }

  lemma NextVisit(be: bool, chain: seq<u32>, nchain: u32, x: u32, k: nat)
    requires 0 < x < nchain <= |chain|
    ensures Visited(be, chain, nchain, x, 0) == Some(x)
    ensures Visited(be, chain, nchain, x, k + 1) == Visited(be, chain, nchain, Convert(be, chain[x]), k)
  {
  }

  /** A walk either ends within `m` symbols or visits more than `m`. */
  lemma {:induction false} EndsOrGoesOn(be: bool, chain: seq<u32>, nchain: u32, x: u32, m: nat)
    returns (n: nat)
    requires nchain <= |chain|
    ensures ChainEnds(be, chain, nchain, x, n) || forall k | 0 <= k <= m :: Visited(be, chain, nchain, x, k).Some?
    decreases m
  {
    hide Convert, Visited;
    n := 0;
    if 0 < x < nchain {
      NextVisit(be, chain, nchain, x, 0);
      if m > 0 {
        var next := Convert(be, chain[x]);
        n := EndsOrGoesOn(be, chain, nchain, next, m - 1);
        if ChainEnds(be, chain, nchain, next, n) {
          n := n + 1;
          assert ChainEnds(be, chain, nchain, x, n);
        } else {
          forall k | 0 <= k <= m ensures Visited(be, chain, nchain, x, k).Some? {
            if k > 0 {
              NextVisit(be, chain, nchain, x, k - 1);
              assert Visited(be, chain, nchain, next, k - 1).Some?;
            }
          }
        }
      }
    }
  }

  lemma VisitsDiffer(be: bool, chain: seq<u32>, nchain: u32, x: u32, n: nat, i: nat, j: nat)
    requires nchain <= |chain| && ChainEnds(be, chain, nchain, x, n)
    requires i < j && Visited(be, chain, nchain, x, j).Some?
    ensures Visited(be, chain, nchain, x, i) != Visited(be, chain, nchain, x, j)
  {
    hide ChainEnds, Visited, Convert, Nodes;
    ChainShort(be, chain, nchain, x, n);
    VisitedNode(be, chain, nchain, x, n, i);
    VisitedNode(be, chain, nchain, x, n, j);
    var s := Nodes(be, chain, nchain, x, n);
    assert s[i] != s[j];
  }

  lemma NoCycle(be: bool, chain: seq<u32>, nchain: u32, x: u32, n: nat)
    requires nchain <= |chain| && ChainEnds(be, chain, nchain, x, n)
    ensures Acyclic(be, chain, nchain, x)
  {
    hide ChainEnds, Visited;
    forall i: nat, j: nat | i < j && Visited(be, chain, nchain, x, j).Some?
      ensures Visited(be, chain, nchain, x, i) != Visited(be, chain, nchain, x, j)
    {
      VisitsDiffer(be, chain, nchain, x, n, i, j);
    }
  }

  /** The chains that end are exactly those without a cycle. */
  lemma EndsIffAcyclic(be: bool, chain: seq<u32>, nchain: u32, x: u32)
    requires nchain <= |chain|
    ensures (exists n: nat :: ChainEnds(be, chain, nchain, x, n)) <==> Acyclic(be, chain, nchain, x)
  {
    hide ChainEnds, Visited, Acyclic;
    if n: nat :| ChainEnds(be, chain, nchain, x, n) {
      NoCycle(be, chain, nchain, x, n);
    } else {
      var n := EndsOrGoesOn(be, chain, nchain, x, nchain);
      assert !ChainEnds(be, chain, nchain, x, n);
      TooMany(be, chain, nchain, x);
    }
  }

  /** A walk that goes on for as many steps as the table has entries comes back to a symbol. */
  lemma TooMany(be: bool, chain: seq<u32>, nchain: u32, x: u32)
    requires nchain <= |chain| && forall k | 0 <= k <= nchain :: Visited(be, chain, nchain, x, k).Some?
    ensures !Acyclic(be, chain, nchain, x)
  {
    hide Visited;
    if Acyclic(be, chain, nchain, x) {
      var s: seq<u32> := seq(nchain + 1, k requires 0 <= k <= nchain => Visited(be, chain, nchain, x, k).value);
      assert Visited(be, chain, nchain, x, 0).Some?;
      forall i, j | 0 <= i < j < |s| ensures s[i] != s[j] {
        assert Visited(be, chain, nchain, x, j).Some?;
        assert Visited(be, chain, nchain, x, i) != Visited(be, chain, nchain, x, j);
      }
      Pigeonhole(s, nchain);
    }
  }

  ghost function ChainLength(be: bool, chain: seq<u32>, nchain: u32, x: u32): (n: nat)
    requires nchain <= |chain| && exists m: nat :: ChainEnds(be, chain, nchain, x, m)
    ensures ChainEnds(be, chain, nchain, x, n)
  {
    var m: nat :| ChainEnds(be, chain, nchain, x, m);
    m
  }

  ghost predicate AllEnd(be: bool, chain: seq<u32>, nchain: u32, bucket: seq<u32>)
    requires nchain <= |chain|
  {
    forall k | 0 <= k < |bucket| :: exists n: nat :: ChainEnds(be, chain, nchain, Convert(be, bucket[k]), n)
  }

  /** The chain lengths of a SysV table. */
  ghost function Lengths(be: bool, chain: seq<u32>, nchain: u32, bucket: seq<u32>): (s: seq<nat>)
    requires nchain <= |chain| && AllEnd(be, chain, nchain, bucket)
    ensures |s| == |bucket|
  {
    seq(|bucket|, k requires 0 <= k < |bucket| => ChainLength(be, chain, nchain, Convert(be, bucket[k])))
  }

  /** The walk along one chain, which counts it in `size[k]` and keeps the maximum and the total. */
  method WalkChain(be: bool, chain: seq<u32>, nchain: u32, start: u32, size: array<u32>, k: nat, msize: nat, nsyms: nat)
    returns (msize': nat, nsyms': nat)
    requires nchain <= |chain| && exists n: nat :: ChainEnds(be, chain, nchain, start, n)
    requires k < size.Length && size[k] == 0
    modifies size
    ensures size[k] == ChainLength(be, chain, nchain, start)
    ensures forall j | 0 <= j < size.Length && j != k :: size[j] == old(size[j])
    ensures nsyms' == nsyms + size[k] && msize' == if msize < size[k] then size[k] else msize
  {
    msize', nsyms' := msize, nsyms;
    var x: u32 := start;
    ghost var total := ChainLength(be, chain, nchain, start);
    ChainShort(be, chain, nchain, start, total);
    ghost var left := total;
    while x > 0 && x < nchain
      invariant ChainEnds(be, chain, nchain, x, left) && size[k] + left == total
      invariant forall j | 0 <= j < size.Length && j != k :: size[j] == old(size[j])
      invariant nsyms' == nsyms + size[k] && msize' == if msize < size[k] then size[k] else msize
      decreases left
    {
      nsyms' := nsyms' + 1;
      size[k] := size[k] + 1;
      if msize' < size[k] {
        msize' := msize' + 1;
      }
      x := Convert(be, chain[x]);
      left := left - 1;
    }
  }

  lemma NextTotals(s: seq<nat>, k: nat)
    requires k < |s|
    ensures Sum(s[..k + 1]) == Sum(s[..k]) + s[k]
    ensures Max(s[..k + 1]) == if Max(s[..k]) < s[k] then s[k] else Max(s[..k])
  {
    assert s[..k + 1][..k] == s[..k];
  }

  /** dump_hash32, from the words of the table: nothing is printed for a single bucket. */
  method DumpHash32(be: bool, nchain: u32, bucket: seq<u32>, chain: seq<u32>) returns (t: Option<Table>)
    requires |bucket| < U32 && nchain <= |chain| && AllEnd(be, chain, nchain, bucket)
    ensures t == if |bucket| > 1 then Some(TableOf(Lengths(be, chain, nchain, bucket))) else None
  {
    hide Max, Sum, ChainEnds, Convert;
    var nbucket := |bucket|;
    if !(nbucket > 1) {
      return None;
    }
    var size := new u32[nbucket](i => 0);
    var msize: nat, nsyms: nat := 0, 0;
    ghost var lengths := Lengths(be, chain, nchain, bucket);
    NoTotals(lengths[..0]);
    for k := 0 to nbucket
      invariant forall j | k <= j < nbucket :: size[j] == 0
      invariant size[..k] == lengths[..k]
      invariant msize == Max(lengths[..k]) && nsyms == Sum(lengths[..k])
    {
      ghost var done := size[..k];
      var x := Convert(be, bucket[k]);
      msize, nsyms := WalkChain(be, chain, nchain, x, size, k, msize, nsyms);
      assert size[..k + 1] == done + [size[k]];
      NextTotals(lengths, k);
    }
    assert size[..nbucket] == size[..] && lengths[..nbucket] == lengths;
    var table := Print(size, lengths, msize, nsyms);
    return Some(table);
  }

  lemma NoTotals(s: seq<nat>)
    requires s == []
    ensures Max(s) == 0 && Sum(s) == 0
  {
  }

  /** The table of the measured lengths. */
  method Print(size: array<u32>, ghost lengths: seq<nat>, msize: nat, nsyms: nat) returns (t: Table)
    requires size.Length < U32 && size[..] == lengths && msize == Max(lengths) && nsyms == Sum(lengths)
    ensures t == TableOf(lengths)
  {
    hide Sum, Count, Covered, RowOf;
    t := DumpGnuHash0(msize, size, nsyms, lengths);
    assert t.rows == TableOf(lengths).rows;
  }

  // ----- GNU chains

  /** The chain from `x` ends after exactly `n` symbols, with the first word whose low bit is set. */
  ghost predicate GnuEnds(be: bool, chain: seq<u32>, x: u32, n: nat)
    decreases n
  {
    n > 0 && x < |chain|
    && if Convert(be, chain[x]) % 2 == 1 then n == 1 else GnuEnds(be, chain, Wrap32(x + 1), n - 1)
  }

  function Wrap32(x: int): u32 {
    x % U32
  }

  lemma {:induction false} GnuUnique(be: bool, chain: seq<u32>, x: u32, n: nat, m: nat)
    requires GnuEnds(be, chain, x, n) && GnuEnds(be, chain, x, m)
    ensures n == m
    decreases n
  {
    if Convert(be, chain[x]) % 2 != 1 {
      GnuUnique(be, chain, Wrap32(x + 1), n - 1, m - 1);
    }
  }

  /** A chain is a stretch of the table that ends with its first odd word. */
  lemma {:induction false} GnuStretch(be: bool, chain: seq<u32>, x: u32, n: nat)
    requires |chain| < U32
    ensures GnuEnds(be, chain, x, n) <==>
      n > 0 && x + n <= |chain| && Convert(be, chain[x + n - 1]) % 2 == 1
      && forall k | x <= k < x + n - 1 :: Convert(be, chain[k]) % 2 == 0
    decreases n
  {
    hide Convert;
    if n > 1 && x + 1 <= |chain| {
      GnuStretch(be, chain, x + 1, n - 1);
    }
  }

  ghost function GnuLength(be: bool, chain: seq<u32>, x: u32): (n: nat)
    requires exists m: nat :: GnuEnds(be, chain, x, m)
    ensures GnuEnds(be, chain, x, n)
  {
    var m: nat :| GnuEnds(be, chain, x, m);
    m
  }

  /** Where the chain of a bucket begins: the first symbols of the table are not hashed. */
  function GnuStart(be: bool, symbias: u32, b: u32): u32 {
    Wrap32(Convert(be, b) - symbias)
  }

  ghost predicate AllGnuEnd(be: bool, chain: seq<u32>, symbias: u32, bucket: seq<u32>) {
    forall k | 0 <= k < |bucket| && bucket[k] != 0 ::
      exists n: nat :: GnuEnds(be, chain, GnuStart(be, symbias, bucket[k]), n)
  }

  /** The chain lengths of a GNU table; a bucket of zero is empty. */
  ghost function GnuLengths(be: bool, chain: seq<u32>, symbias: u32, bucket: seq<u32>): (s: seq<nat>)
    requires AllGnuEnd(be, chain, symbias, bucket)
    ensures |s| == |bucket|
  {
    seq(|bucket|, k requires 0 <= k < |bucket| =>
      if bucket[k] == 0 then 0 else GnuLength(be, chain, GnuStart(be, symbias, bucket[k])))
  }

  method WalkGnuChain(be: bool, chain: seq<u32>, start: u32, size: array<u32>, k: nat, msize: nat, nsyms: nat)
    returns (msize': nat, nsyms': nat)
    requires |chain| < U32 && exists n: nat :: GnuEnds(be, chain, start, n)
    requires k < size.Length && size[k] == 0
    modifies size
    ensures size[k] == GnuLength(be, chain, start)
    ensures forall j | 0 <= j < size.Length && j != k :: size[j] == old(size[j])
    ensures nsyms' == nsyms + size[k] && msize' == if msize < size[k] then size[k] else msize
  {
    hide Convert;
    msize', nsyms' := msize, nsyms;
    var x: u32 := start;
    ghost var total := GnuLength(be, chain, start);
    GnuStretch(be, chain, start, total);
    ghost var left := total;
    while true
      invariant GnuEnds(be, chain, x, left) && size[k] + left == total
      invariant forall j | 0 <= j < size.Length && j != k :: size[j] == old(size[j])
      invariant nsyms' == nsyms + size[k] && msize' == if msize < size[k] then size[k] else msize
      decreases left
    {
      nsyms' := nsyms' + 1;
      size[k] := size[k] + 1;
      if msize' < size[k] {
        msize' := msize' + 1;
      }
      var last := Convert(be, chain[x]) % 2 != 0;
      x := Wrap32(x + 1);
      if last {
        break;
      }
      left := left - 1;
    }
  }

  /** dump_gnuhash1, from the words of the table. */
  method DumpGnuHash1(be: bool, symbias: u32, bucket: seq<u32>, chain: seq<u32>) returns (t: Option<Table>)
    requires |bucket| < U32 && |chain| < U32 && AllGnuEnd(be, chain, symbias, bucket)
    ensures var printed := |bucket| > 1 && symbias != 0;
      t == if printed then Some(TableOf(GnuLengths(be, chain, symbias, bucket))) else None
  {
    hide Max, Sum, GnuEnds, Convert, Wrap32, GnuStart;
    var nbucket := |bucket|;
    if !(nbucket > 1 && symbias != 0) {
      return None;
    }
    var size := new u32[nbucket](i => 0);
    var msize: nat, nsyms: nat := 0, 0;
    ghost var lengths := GnuLengths(be, chain, symbias, bucket);
    NoTotals(lengths[..0]);
    for k := 0 to nbucket
      invariant forall j | k <= j < nbucket :: size[j] == 0
      invariant size[..k] == lengths[..k]
      invariant msize == Max(lengths[..k]) && nsyms == Sum(lengths[..k])
    {
      ghost var done := size[..k];
      if bucket[k] != 0 {
        var x := GnuStart(be, symbias, bucket[k]);
        msize, nsyms := WalkGnuChain(be, chain, x, size, k, msize, nsyms);
      }
      assert size[..k + 1] == done + [size[k]];
      NextTotals(lengths, k);
    }
    assert size[..nbucket] == size[..] && lengths[..nbucket] == lengths;
    var table := Print(size, lengths, msize, nsyms);
    return Some(table);
  }

  // ----- no counter wraps

  lemma {:induction false} TotalsFit(lengths: seq<nat>)
    requires forall k | 0 <= k < |lengths| :: lengths[k] < U32
    ensures Sum(lengths) <= |lengths| * (U32 - 1)
  {
    if lengths != [] {
      TotalsFit(lengths[..|lengths| - 1]);
    }
  }

  lemma ProductFits(n: nat)
    requires n < U32
    ensures n * (U32 - 1) < U64
  {
  }

  /** Chain lengths of a SysV table fit 32 bits and their total 64. */
  lemma CountersFit(be: bool, nchain: u32, bucket: seq<u32>, chain: seq<u32>)
    requires |bucket| < U32 && nchain <= |chain| && AllEnd(be, chain, nchain, bucket)
    ensures var lengths := Lengths(be, chain, nchain, bucket);
      (forall k | 0 <= k < |lengths| :: lengths[k] < U32) && Sum(lengths) < U64
  {
    hide Sum, ChainEnds, Convert;
    var lengths := Lengths(be, chain, nchain, bucket);
    forall k | 0 <= k < |lengths| ensures lengths[k] < U32 {
      ChainShort(be, chain, nchain, Convert(be, bucket[k]), lengths[k]);
    }
    TotalsFit(lengths);
    ProductFits(|lengths|);
  }

  /** Likewise for a GNU table. */
  lemma GnuCountersFit(be: bool, symbias: u32, bucket: seq<u32>, chain: seq<u32>)
    requires |bucket| < U32 && |chain| < U32 && AllGnuEnd(be, chain, symbias, bucket)
    ensures var lengths := GnuLengths(be, chain, symbias, bucket);
      (forall k | 0 <= k < |lengths| :: lengths[k] < U32) && Sum(lengths) < U64
  {
    hide Sum, GnuEnds, Convert, GnuStart;
    var lengths := GnuLengths(be, chain, symbias, bucket);
    forall k | 0 <= k < |lengths| ensures lengths[k] < U32 {
      if bucket[k] != 0 {
        GnuStretch(be, chain, GnuStart(be, symbias, bucket[k]), lengths[k]);
      }
    }
    TotalsFit(lengths);
    ProductFits(|lengths|);
  }
}
