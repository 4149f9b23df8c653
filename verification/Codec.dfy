/** What the encoders and decoders of convert-ng share: the cursor they fill and return. */
module Codec {
  import opened Radix
  import opened MemFind

  /**
    The cursor every codec returns: the payload at the start of the buffer, a terminating zero after
    it, `epos` its length, `size` one more and the position back at zero.
   */
  ghost predicate Returns(dst: Find, payload: seq<byte>)
    reads dst, dst.item
  {
    && dst.item != null
    && dst.cpos == 0 && dst.epos == |payload| && dst.size == |payload| + 1
    && |payload| < dst.item.Length
    && dst.item[..|payload|] == payload && dst.item[|payload|] == 0
  }

  const NOBLOCKSIZE: u64 := 0x400_0000

  /** What a caller sees of such a cursor: the payload is `item[..epos]`, then a zero, and nothing behind. */
  lemma Returned(dst: Find, payload: seq<byte>)
    requires Returns(dst, payload)
    ensures dst.item != null && dst.cpos == 0 && dst.epos < dst.item.Length && dst.size == dst.epos + 1
    ensures dst.item[..dst.epos] == payload && dst.item[dst.epos] == 0
  {
  }

  /** Appends one character. */
  method Append(dst: Find, c: byte)
    requires dst.item != null && dst.cpos < dst.item.Length < U64
    modifies dst`cpos, dst.item
    ensures dst.cpos == old(dst.cpos) + 1
    ensures dst.item[..dst.cpos] == old(dst.item[..dst.cpos]) + [c]
  {
    var pdst := dst.item;
    pdst[dst.cpos] := c;
    dst.cpos := dst.cpos + 1;
  }

  /** A position that starts at -1 wraps around to zero. */
  lemma Wraps(n: nat)
    requires n < U64
    ensures Wrap(Wrap(n - 1) + 1) == n && (n > 0 ==> Wrap(n - 1) == n - 1) && Wrap(n) == n
  {
  }

  /** How every codec but dec8_decode finishes: terminate, set the extent, go back to the start. */
  method Finish(dst: Find, ghost payload: seq<byte>)
    requires dst.item != null && |payload| < dst.item.Length < U64
    requires dst.cpos == |payload| && dst.item[..dst.cpos] == payload
    modifies dst, dst.item
    ensures dst.item == old(dst.item) && Returns(dst, payload)
  {
    var pdst := dst.item;
    pdst[dst.cpos] := 0;
    dst.size := dst.cpos + 1;
    dst.epos := dst.cpos;
    dst.cpos := 0;
  }
}
