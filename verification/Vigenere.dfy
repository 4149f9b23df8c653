/**
  vigenere_encode (src/encode.c:656-689) and vigenere_decode (src/decode.c:945-988): letters are rotated
  by the letters of a key that advances on letters only.
 */
module Vigenere {
  import opened Radix
  import opened MemFind
  import opened Codec

  predicate Lower(c: byte) {
    97 <= c <= 122
  }

  predicate Upper(c: byte) {
    65 <= c <= 90
  }

  /** vigenere_code: anything that is no letter counts as 'a'. */
  function Code(c: byte): (x: int)
    ensures 0 <= x < 26
  {
    if Upper(c) then c - 65 else if Lower(c) then c - 97 else 0
  }

  /** The remainder of C, which has the sign of the dividend. */
  function Remainder(a: int, n: nat): int
    requires n > 0
  {
    if a >= 0 then a % n else -((-a) % n)
  }

  /** One character encoded. */
  function Rotate(c: byte, k: byte): byte {
    if Lower(c) then 97 + (Code(c) + Code(k)) % 26
    else if Upper(c) then 65 + (Code(c) + Code(k)) % 26
    else c
  }

  /** One character decoded; a negative remainder counts from the end of the alphabet. */
  function RotateBack(c: byte, k: byte): byte {
    var x := Remainder(Code(c) - Code(k), 26);
    if Lower(c) then if x < 0 then 122 + x + 1 else 97 + x
    else if Upper(c) then if x < 0 then 90 + x + 1 else 65 + x
    else c
  }

  /** How many letters a text has. */
  function Letters(s: seq<byte>): nat {
    if s == [] then 0
    else Letters(s[..|s| - 1]) + if Lower(s[|s| - 1]) || Upper(s[|s| - 1]) then 1 else 0
  }

  /** The letter of the key used at a place: as many letters on as the text has before it, cyclically. */
  function KeyAt(s: seq<byte>, key: seq<byte>, i: nat): byte
    requires key != [] && i <= |s|
  {
    key[Letters(s[..i]) % |key|]
  }

  function Encoded(s: seq<byte>, key: seq<byte>): (t: seq<byte>)
    requires key != []
    ensures |t| == |s|
  {
    seq(|s|, i requires 0 <= i < |s| => Rotate(s[i], KeyAt(s, key, i)))
  }

  function Decoded(s: seq<byte>, key: seq<byte>): (t: seq<byte>)
    requires key != []
    ensures |t| == |s|
  {
    seq(|s|, i requires 0 <= i < |s| => RotateBack(s[i], KeyAt(s, key, i)))
  }

  // ----- round trips

  lemma RotateCases(c: byte, k: byte)
    ensures Lower(c) ==> Rotate(c, k) == 97 + (Code(c) + Code(k)) % 26
    ensures Upper(c) ==> Rotate(c, k) == 65 + (Code(c) + Code(k)) % 26
    ensures !Lower(c) && !Upper(c) ==> Rotate(c, k) == c
    ensures Lower(Rotate(c, k)) == Lower(c) && Upper(Rotate(c, k)) == Upper(c)
    ensures Lower(c) || Upper(c) ==> Code(Rotate(c, k)) == (Code(c) + Code(k)) % 26
  {
  }

  lemma RotateBackCases(c: byte, k: byte)
    ensures var x := Remainder(Code(c) - Code(k), 26);
      && x == Code(c) - Code(k)
      && (Lower(c) ==> RotateBack(c, k) == if x < 0 then 122 + x + 1 else 97 + x)
      && (Upper(c) ==> RotateBack(c, k) == if x < 0 then 90 + x + 1 else 65 + x)
      && (!Lower(c) && !Upper(c) ==> RotateBack(c, k) == c)
      && Lower(RotateBack(c, k)) == Lower(c) && Upper(RotateBack(c, k)) == Upper(c)
      && (Lower(c) || Upper(c) ==> Code(RotateBack(c, k)) == if x < 0 then x + 26 else x)
  {
  }

  lemma SameLetter(c: byte, d: byte)
    requires (Lower(c) && Lower(d)) || (Upper(c) && Upper(d))
    requires Code(c) == Code(d)
    ensures c == d
  {
  }

  /** Either rotation undoes the other, and both keep letters letters and their case. */
  lemma Inverse(c: byte, k: byte)
    ensures RotateBack(Rotate(c, k), k) == c && Rotate(RotateBack(c, k), k) == c
    ensures Lower(Rotate(c, k)) == Lower(c) == Lower(RotateBack(c, k))
    ensures Upper(Rotate(c, k)) == Upper(c) == Upper(RotateBack(c, k))
  {
    hide *;
    var there, back := Rotate(c, k), RotateBack(c, k);
    RotateCases(c, k);
    RotateBackCases(there, k);
    RotateBackCases(c, k);
    RotateCases(back, k);
    if Lower(c) || Upper(c) {
      SameLetter(RotateBack(there, k), c);
      SameLetter(Rotate(back, k), c);
    }
  }

  predicate SameClasses(s: seq<byte>, t: seq<byte>) {
    |s| == |t| && forall i | 0 <= i < |s| :: Lower(s[i]) == Lower(t[i]) && Upper(s[i]) == Upper(t[i])
  }

  /** The key advances alike on texts with letters in the same places. */
  lemma {:induction false} SameLetters(s: seq<byte>, t: seq<byte>)
    requires SameClasses(s, t)
    ensures Letters(s) == Letters(t)
  {
    if s != [] {
      SameLetters(s[..|s| - 1], t[..|s| - 1]);
    }
  }

  lemma SameKeys(s: seq<byte>, t: seq<byte>, key: seq<byte>, i: nat)
    requires SameClasses(s, t) && key != [] && i <= |s|
    ensures KeyAt(s, key, i) == KeyAt(t, key, i)
  {
    SameLetters(s[..i], t[..i]);
  }

  lemma EncodedClasses(s: seq<byte>, key: seq<byte>)
    requires key != []
    ensures SameClasses(s, Encoded(s, key))
  {
    forall i | 0 <= i < |s|
      ensures Lower(s[i]) == Lower(Encoded(s, key)[i]) && Upper(s[i]) == Upper(Encoded(s, key)[i])
    {
      Inverse(s[i], KeyAt(s, key, i));
    }
  }

  lemma DecodedClasses(s: seq<byte>, key: seq<byte>)
    requires key != []
    ensures SameClasses(s, Decoded(s, key))
  {
    forall i | 0 <= i < |s|
      ensures Lower(s[i]) == Lower(Decoded(s, key)[i]) && Upper(s[i]) == Upper(Decoded(s, key)[i])
    {
      Inverse(s[i], KeyAt(s, key, i));
    }
  }

  /** vigenere_decode undoes vigenere_encode on every text with every key. */
  lemma DecodeEncode(s: seq<byte>, key: seq<byte>)
    requires key != []
    ensures Decoded(Encoded(s, key), key) == s
  {
    var t := Encoded(s, key);
    EncodedClasses(s, key);
    forall i | 0 <= i < |s| ensures Decoded(t, key)[i] == s[i] {
      SameKeys(s, t, key, i);
      Inverse(s[i], KeyAt(s, key, i));
    }
  }

  /** vigenere_encode undoes vigenere_decode on every text with every key. */
  lemma EncodeDecode(s: seq<byte>, key: seq<byte>)
    requires key != []
    ensures Encoded(Decoded(s, key), key) == s
  {
    var t := Decoded(s, key);
    DecodedClasses(s, key);
    forall i | 0 <= i < |s| ensures Encoded(t, key)[i] == s[i] {
      SameKeys(s, t, key, i);
      Inverse(s[i], KeyAt(s, key, i));
    }
  }

  // ----- letter by letter, written out

  /** The places of the letters before place `i`. */
  ghost function LettersBefore(s: seq<byte>, i: nat): set<nat>
    requires i <= |s|
  {
    set j: nat | j < i && (65 <= s[j] <= 90 || 97 <= s[j] <= 122)
  }

  lemma {:induction false} LettersCounted(s: seq<byte>, i: nat)
    requires i <= |s|
    ensures Letters(s[..i]) == |LettersBefore(s, i)|
  {
    if i > 0 {
      LettersCounted(s, i - 1);
      assert s[..i][..i - 1] == s[..i - 1];
      if Lower(s[i - 1]) || Upper(s[i - 1]) {
        assert LettersBefore(s, i) == LettersBefore(s, i - 1) + {i - 1};
      } else {
        assert LettersBefore(s, i) == LettersBefore(s, i - 1);
      }
    }
  }

  /** How far a character of the key rotates: "a" and "A" not at all, "z" and "Z" by 25. */
  function Distance(k: byte): int {
    if 65 <= k <= 90 then k - 65 else if 97 <= k <= 122 then k - 97 else 0
  }

  /**
    The letter after n others is rotated by character n of the key, counted cyclically: forwards when
    encoding, backwards when decoding, each case within its own alphabet; nothing else changes.
   */
  lemma LetterByLetter(s: seq<byte>, key: seq<byte>, i: nat)
    requires key != [] && i < |s|
    ensures |Encoded(s, key)| == |Decoded(s, key)| == |s|
    ensures var n := Distance(key[|LettersBefore(s, i)| % |key|]);
      if 65 <= s[i] <= 90 then
        && Encoded(s, key)[i] == 65 + (s[i] - 65 + n) % 26
        && Decoded(s, key)[i] == 65 + (s[i] as int - 65 - n) % 26
      else if 97 <= s[i] <= 122 then
        && Encoded(s, key)[i] == 97 + (s[i] - 97 + n) % 26
        && Decoded(s, key)[i] == 97 + (s[i] as int - 97 - n) % 26
      else Encoded(s, key)[i] == s[i] && Decoded(s, key)[i] == s[i]
  {
    LettersCounted(s, i);
    RotatedForwards(s[i], KeyAt(s, key, i));
    RotatedBackwards(s[i], KeyAt(s, key, i));
    hide Letters, Rotate, RotateBack, Distance, LettersBefore;
  }

  lemma RotatedForwards(c: byte, k: byte)
    ensures var n := Distance(k);
      Rotate(c, k) as int == if 65 <= c <= 90 then 65 + (c - 65 + n) % 26
                             else if 97 <= c <= 122 then 97 + (c - 97 + n) % 26 else c
  {
  }

  lemma RotatedBackwards(c: byte, k: byte)
    ensures var n := Distance(k);
      RotateBack(c, k) as int == if 65 <= c <= 90 then 65 + (c as int - 65 - n) % 26
                                 else if 97 <= c <= 122 then 97 + (c as int - 97 - n) % 26 else c
  {
    RotateBackCases(c, k);
    hide RotateBack, Remainder;
    if Upper(c) {
      Turned(c - 65, Distance(k));
    } else if Lower(c) {
      Turned(c - 97, Distance(k));
    }
  }

  /** A negative difference, modulo 26. */
  lemma Turned(a: nat, n: nat)
    requires a < 26 && n < 26
    ensures (a - n) % 26 == if a < n then a - n + 26 else a - n
  {
  }

  // ----- the two functions

  /** One turn of the key index: on a letter it advances, and past the end it goes back to the start. */
  lemma KeyStep(s: seq<byte>, i: nat, m: nat)
    requires i < |s| && m > 0
    ensures var j := Letters(s[..i]) % m + if Lower(s[i]) || Upper(s[i]) then 1 else 0;
      Letters(s[..i + 1]) % m == if j >= m then 0 else j
  {
    assert s[..i + 1][..i] == s[..i];
    var n := Letters(s[..i]);
    hide Letters;
    var q, r := n / m, n % m;
    assert n == m * q + r;
    if r + 1 == m {
      assert n + 1 == m * (q + 1) + 0;
      DivUnique(n + 1, q + 1, 0, m);
    } else {
      DivUnique(n + 1, q, r + 1, m);
    }
  }

  /** One character appended; only a letter uses up a letter of the key. */
  method EncodeCharacter(dst: Find, c: byte, key: seq<byte>, start: nat) returns (j: nat)
    requires start < |key| && dst.item != null && dst.cpos < dst.item.Length < U64
    modifies dst`cpos, dst.item
    ensures j == start + if Lower(c) || Upper(c) then 1 else 0
    ensures dst.cpos == old(dst.cpos) + 1
    ensures dst.item[..dst.cpos] == old(dst.item[..dst.cpos]) + [Rotate(c, key[start])]
  {
    RotateCases(c, key[start]);
    hide Rotate, Code;
    j := start;
    if Lower(c) {
      var x := (Code(c) + Code(key[j])) % 26;
      j := j + 1;
      Append(dst, 97 + x);
    } else if Upper(c) {
      var x := (Code(c) + Code(key[j])) % 26;
      j := j + 1;
      Append(dst, 65 + x);
    } else {
      Append(dst, c);
    }
  }

  /** vigenere_encode. */
  method Encode(src: seq<byte>, key: seq<byte>, capacity: u64) returns (dst: Find?)
    requires |src| < capacity
    ensures dst == null <==> src == [] || key == []
    ensures dst != null ==> fresh(dst) && Returns(dst, Encoded(src, key))
  {
    if src == [] || key == [] {
      return null;
    }
    hide Letters, Rotate, Code, Lower, Upper;
    dst := new Find(capacity, NOBLOCKSIZE);
    var j: nat := 0;
    NoLetters(src[..0]);
    for i := 0 to |src|
      invariant fresh(dst) && dst.item != null && fresh(dst.item) && dst.item.Length == capacity
      invariant dst.cpos == i && j < |key| && j == Letters(src[..i]) % |key|
      invariant dst.item[..i] == Encoded(src, key)[..i]
    {
      KeyStep(src, i, |key|);
      j := EncodeCharacter(dst, src[i], key, j);
      if j >= |key| {
        j := 0;
      }
    }
    Finish(dst, Encoded(src, key));
  }

  lemma NoLetters(s: seq<byte>)
    requires s == []
    ensures Letters(s) == 0
  {
  }

  /** One character appended; only a letter uses up a letter of the key. */
  method DecodeCharacter(dst: Find, c: byte, key: seq<byte>, start: nat) returns (j: nat)
    requires start < |key| && dst.item != null && dst.cpos < dst.item.Length < U64
    modifies dst`cpos, dst.item
    ensures j == start + if Lower(c) || Upper(c) then 1 else 0
    ensures dst.cpos == old(dst.cpos) + 1
    ensures dst.item[..dst.cpos] == old(dst.item[..dst.cpos]) + [RotateBack(c, key[start])]
  {
    RotateBackCases(c, key[start]);
    hide RotateBack, Remainder, Code;
    j := start;
    if Lower(c) {
      var x := Remainder(Code(c) - Code(key[j]), 26);
      j := j + 1;
      Append(dst, if x < 0 then 122 + x + 1 else 97 + x);
    } else if Upper(c) {
      var x := Remainder(Code(c) - Code(key[j]), 26);
      j := j + 1;
      Append(dst, if x < 0 then 90 + x + 1 else 65 + x);
    } else {
      Append(dst, c);
    }
  }

  /** vigenere_decode. */
  method Decode(src: seq<byte>, key: seq<byte>, capacity: u64) returns (dst: Find?)
    requires |src| < capacity
    ensures dst == null <==> src == [] || key == []
    ensures dst != null ==> fresh(dst) && Returns(dst, Decoded(src, key))
  {
    if src == [] || key == [] {
      return null;
    }
    hide Letters, RotateBack, Remainder, Code, Lower, Upper;
    dst := new Find(capacity, NOBLOCKSIZE);
    var j: nat := 0;
    NoLetters(src[..0]);
    for i := 0 to |src|
      invariant fresh(dst) && dst.item != null && fresh(dst.item) && dst.item.Length == capacity
      invariant dst.cpos == i && j < |key| && j == Letters(src[..i]) % |key|
      invariant dst.item[..i] == Decoded(src, key)[..i]
    {
      KeyStep(src, i, |key|);
      j := DecodeCharacter(dst, src[i], key, j);
      if j >= |key| {
        j := 0;
      }
    }
    Finish(dst, Decoded(src, key));
  }
}
