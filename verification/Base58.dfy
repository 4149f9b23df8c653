/**
  base58_encode (src/encode.c:508-555) and base58_decode (src/decode.c:764-806): a bignum radix
  conversion in place, one carry chain per symbol, with one '1' for every leading zero byte.
 */
module Base58 {
  import opened Radix
  import opened MemFind
  import opened Codec

  // ----- the alphabet

  /** base58_map: no 0, O, I or l. */
  function Symbol(d: int): byte
    requires 0 <= d < 58
  {
    if d < 9 then 49 + d                // '1' .. '9'
    else if d < 17 then 65 + (d - 9)    // 'A' .. 'H'
    else if d < 22 then 74 + (d - 17)   // 'J' .. 'N'
    else if d < 33 then 80 + (d - 22)   // 'P' .. 'Z'
    else if d < 44 then 97 + (d - 33)   // 'a' .. 'k'
    else 109 + (d - 44)                 // 'm' .. 'z'
  }

  /** base58_idx, a table of 128 entries with -1 for every symbol outside the alphabet. */
  function Index(c: byte): (d: int)
    requires c < 128
    ensures -1 <= d < 58
  {
    if 49 <= c <= 57 then c - 49
    else if 65 <= c <= 72 then c - 65 + 9
    else if 74 <= c <= 78 then c - 74 + 17
    else if 80 <= c <= 90 then c - 80 + 22
    else if 97 <= c <= 107 then c - 97 + 33
    else if 109 <= c <= 122 then c - 109 + 44
    else -1
  }

  lemma IndexOfSymbol(d: int)
    requires 0 <= d < 58
    ensures Symbol(d) < 128 && Index(Symbol(d)) == d
    ensures Symbol(d) == 49 <==> d == 0
  {
  }

  lemma SymbolOfIndex(c: byte)
    requires c < 128 && Index(c) >= 0
    ensures Symbol(Index(c)) == c
  {
  }

  // ----- what the two functions compute

  function Leading(s: seq<byte>, x: byte): (n: nat)
    ensures n <= |s|
    ensures forall k | 0 <= k < n :: s[k] == x
    ensures n < |s| ==> s[n] != x
  {
    if s != [] && s[0] == x then 1 + Leading(s[1..], x) else 0
  }

  function Symbols(digits: seq<int>): (t: seq<byte>)
    requires forall k | 0 <= k < |digits| :: 0 <= digits[k] < 58
    ensures |t| == |digits|
  {
    seq(|digits|, k requires 0 <= k < |digits| => Symbol(digits[k]))
  }

  /** A '1' for every leading zero byte, then the base-58 digits of the number the bytes spell. */
  function Text(s: seq<byte>): seq<byte> {
    BigBounds(s, 256);
    Repeat(49, Leading(s, 0)) + Symbols(Reverse(Digits1(Big(s, 256), 58)))
  }

  predicate Ascii7(t: seq<byte>) {
    forall k | 0 <= k < |t| :: t[k] < 128
  }

  /** One more symbol read; a symbol outside the alphabet counts as -1, modulo 256 on an empty number. */
  function Absorb(v: nat, c: byte): nat
    requires c < 128
  {
    if v == 0 && Index(c) < 0 then 255 else 58 * v + Index(c)
  }

  function Accumulated(t: seq<byte>): nat
    requires Ascii7(t)
  {
    if t == [] then 0 else Absorb(Accumulated(t[..|t| - 1]), t[|t| - 1])
  }

  /** A zero byte for every leading '1', then the bytes of the accumulated number. */
  function Bytes(t: seq<byte>): seq<byte>
    requires Ascii7(t)
  {
    Repeat(0, Leading(t, 49)) + Reverse(Digits1(Accumulated(t), 256))
  }

  // ----- round trips

  lemma {:induction false} LeadingOf(n: nat, x: byte, rest: seq<byte>)
    requires rest == [] || rest[0] != x
    ensures Leading(Repeat(x, n) + rest, x) == n
  {
    var s := Repeat(x, n) + rest;
    if n == 0 {
      assert s == rest;
    } else {
      assert s[1..] == Repeat(x, n - 1) + rest;
      LeadingOf(n - 1, x, rest);
    }
  }

  lemma {:induction false} AccumulatedSymbols(digits: seq<int>)
    requires forall k | 0 <= k < |digits| :: 0 <= digits[k] < 58
    ensures Ascii7(Symbols(digits)) && Accumulated(Symbols(digits)) == Big(digits, 58)
  {
    forall k | 0 <= k < |digits| ensures Symbols(digits)[k] < 128 {
      IndexOfSymbol(digits[k]);
    }
    if digits != [] {
      var n := |digits| - 1;
      assert Symbols(digits)[..n] == Symbols(digits[..n]);
      AccumulatedSymbols(digits[..n]);
      BigBounds(digits[..n], 58);
      IndexOfSymbol(digits[n]);
    }
  }

  /** Zeros and digits as one run of symbols: zero is the symbol '1'. */
  lemma SymbolsOfZeros(n: nat, digits: seq<int>)
    requires forall k | 0 <= k < |digits| :: 0 <= digits[k] < 58
    ensures Repeat(49, n) + Symbols(digits) == Symbols(Repeat(0, n) + digits)
  {
  }

  /** The most significant digit of a positive number, which a reversal puts first. */
  lemma FirstDigit(v: nat, base: nat)
    requires base >= 2 && v > 0
    ensures Reverse(Digits(v, base)) != [] && Reverse(Digits(v, base))[0] > 0
  {
  }

  lemma BigOfDigits(v: nat, base: nat)
    requires base >= 2
    ensures Big(Reverse(Digits(v, base)), base) == v
  {
    BigIsReversedValue(Digits(v, base), base);
    DigitsValue(v, base);
  }

  lemma TextAscii(s: seq<byte>)
    ensures Ascii7(Text(s))
  {
    var v := Big(s, 256);
    BigBounds(s, 256);
    var digits := Reverse(Digits1(v, 58));
    SymbolsOfZeros(Leading(s, 0), digits);
    AccumulatedSymbols(Repeat(0, Leading(s, 0)) + digits);
  }

  /** The number the bytes spell, when there is a byte that is not zero. */
  lemma Positive(s: seq<int>, k: nat, base: nat)
    requires base >= 2 && (forall j | 0 <= j < |s| :: 0 <= s[j] < base)
    requires k < |s| && s[k] != 0 && forall j | 0 <= j < k :: s[j] == 0
    ensures Big(s, base) > 0 && Reverse(Digits(Big(s, base), base)) == s[k..]
  {
    assert s == Repeat(0, k) + s[k..];
    BigOfZeros(k, s[k..], base);
    BigBounds(s[k..], base);
    DigitsOfBig(s[k..], base);
  }

  lemma {:induction false} AllZero(s: seq<int>, base: nat)
    requires forall j | 0 <= j < |s| :: s[j] == 0
    ensures Big(s, base) == 0
  {
    if s != [] {
      AllZero(s[..|s| - 1], base);
    }
  }

  /** `k` ones before digits that do not start with a zero: what the decoder makes of such a text. */
  lemma PrefixedSymbols(k: nat, digits: seq<int>)
    requires digits != [] && digits[0] > 0 && forall j | 0 <= j < |digits| :: 0 <= digits[j] < 58
    ensures var t := Repeat(49, k) + Symbols(digits);
      Ascii7(t) && Leading(t, 49) == k && Accumulated(t) == Big(digits, 58)
  {
    hide *;
    FirstSymbol(digits);
    LeadingOf(k, 49, Symbols(digits));
    SymbolsOfZeros(k, digits);
    AccumulatedSymbols(Repeat(0, k) + digits);
    BigOfZeros(k, digits, 58);
  }

  lemma FirstSymbol(digits: seq<int>)
    requires digits != [] && digits[0] > 0 && forall j | 0 <= j < |digits| :: 0 <= digits[j] < 58
    ensures Symbols(digits)[0] != 49
  {
    IndexOfSymbol(digits[0]);
  }

  lemma TextIs(s: seq<byte>)
    requires Big(s, 256) > 0
    ensures Text(s) == Repeat(49, Leading(s, 0)) + Symbols(Reverse(Digits(Big(s, 256), 58)))
  {
  }

  /** What the decoder sees of the encoder's text. */
  lemma TextShape(s: seq<byte>)
    requires Leading(s, 0) < |s|
    ensures Ascii7(Text(s)) && Leading(Text(s), 49) == Leading(s, 0) && Accumulated(Text(s)) == Big(s, 256) > 0
  {
    hide *;
    var k, v := Leading(s, 0), Big(s, 256);
    Positive(s, k, 256);
    TextIs(s);
    FirstDigit(v, 58);
    BigOfDigits(v, 58);
    PrefixedSymbols(k, Reverse(Digits(v, 58)));
  }

  lemma BytesIs(t: seq<byte>)
    requires Ascii7(t) && Accumulated(t) > 0
    ensures Bytes(t) == Repeat(0, Leading(t, 49)) + Reverse(Digits(Accumulated(t), 256))
  {
  }

  lemma ZeroText(s: seq<byte>)
    requires Leading(s, 0) == |s|
    ensures Text(s) == Repeat(49, |s| + 1)
  {
    AllZero(s, 256);
    TextOfZero(s);
    hide *;
    assert Repeat(49, |s|) + [49] == Repeat(49, |s| + 1);
  }

  lemma TextOfZero(s: seq<byte>)
    requires Big(s, 256) == 0
    ensures Text(s) == Repeat(49, Leading(s, 0)) + [49]
  {
    hide Leading;
    var zero: seq<int> := [0];
    assert Digits1(0, 58) == zero && Reverse(zero) == zero && Symbols(zero) == [49];
  }

  lemma ZeroBytes(n: nat)
    ensures Ascii7(Repeat(49, n)) && Bytes(Repeat(49, n)) == Repeat(0, n + 1)
  {
    assert Repeat(49, n) + [] == Repeat(49, n);
    LeadingOf(n, 49, []);
    ZeroAccumulated(n);
    hide Leading, Accumulated;
    var zero: seq<int> := [0];
    assert Digits1(0, 256) == zero && Reverse(zero) == zero;
    assert Repeat(0, n) + [0] == Repeat(0, n + 1);
  }

  lemma {:induction false} ZeroAccumulated(n: nat)
    ensures Ascii7(Repeat(49, n)) && Accumulated(Repeat(49, n)) == 0
  {
    if n > 0 {
      ZeroAccumulated(n - 1);
      assert Repeat(49, n)[..n - 1] == Repeat(49, n - 1);
    } else {
      assert Repeat(49, 0) == [];
    }
  }

  lemma SplitLeading(s: seq<byte>, x: byte)
    ensures s == Repeat(x, Leading(s, x)) + s[Leading(s, x)..]
  {
  }

  /**
    base58_decode undoes base58_encode on every byte string with a byte that is not zero.  For a
    string of zeros the encoder writes one '1' too many and the decoder one zero more still.
   */
  lemma DecodeEncode(s: seq<byte>)
    ensures Ascii7(Text(s))
    ensures Bytes(Text(s)) == s <==> Leading(s, 0) < |s|
  {
    TextAscii(s);
    hide *;
    var k := Leading(s, 0);
    if k < |s| {
      TextShape(s);
      BytesIs(Text(s));
      Positive(s, k, 256);
      SplitLeading(s, 0);
    } else {
      ZeroText(s);
      ZeroBytes(|s| + 1);
    }
  }

  predicate Valid(t: seq<byte>) {
    forall k | 0 <= k < |t| :: t[k] < 128 && Index(t[k]) >= 0
  }

  function Indices(t: seq<byte>): (d: seq<int>)
    requires Valid(t)
    ensures |d| == |t| && forall k | 0 <= k < |d| :: 0 <= d[k] < 58
  {
    seq(|t|, k requires 0 <= k < |t| => Index(t[k]))
  }

  lemma SymbolsOfIndices(t: seq<byte>)
    requires Valid(t)
    ensures Symbols(Indices(t)) == t
  {
    forall k | 0 <= k < |t| ensures Symbols(Indices(t))[k] == t[k] {
      SymbolOfIndex(t[k]);
    }
  }

  lemma AccumulatedValid(t: seq<byte>)
    requires Valid(t)
    ensures Accumulated(t) == Big(Indices(t), 58)
  {
    SymbolsOfIndices(t);
    AccumulatedSymbols(Indices(t));
  }

  /** What the encoder sees of the decoder's bytes. */
  lemma BytesShape(t: seq<byte>)
    requires Valid(t) && Leading(t, 49) < |t|
    ensures Leading(Bytes(t), 0) == Leading(t, 49) && Big(Bytes(t), 256) == Accumulated(t) > 0
    ensures Reverse(Digits(Accumulated(t), 58)) == Indices(t)[Leading(t, 49)..]
  {
    PositiveIndices(t);
    hide *;
    var v := Accumulated(t);
    BytesIs(t);
    FirstDigit(v, 256);
    BigOfDigits(v, 256);
    LeadingOf(Leading(t, 49), 0, Reverse(Digits(v, 256)));
    BigOfZeros(Leading(t, 49), Reverse(Digits(v, 256)), 256);
  }

  lemma PositiveIndices(t: seq<byte>)
    requires Valid(t) && Leading(t, 49) < |t|
    ensures Ascii7(t) && Accumulated(t) > 0
    ensures Reverse(Digits(Accumulated(t), 58)) == Indices(t)[Leading(t, 49)..]
  {
    AccumulatedValid(t);
    var k := Leading(t, 49);
    assert forall j | 0 <= j < k :: Indices(t)[j] == 0;
    assert Indices(t)[k] != 0 by {
      SymbolOfIndex(t[k]);
    }
    hide *;
    Positive(Indices(t), k, 58);
  }

  lemma ZeroIndices(t: seq<byte>)
    requires Valid(t) && Leading(t, 49) == |t|
    ensures t == Repeat(49, |t|)
  {
  }

  lemma ZeroLeading(n: nat)
    ensures Leading(Repeat(0, n), 0) == n
  {
    LeadingOf(n, 0, []);
    assert Repeat(0, n) + [] == Repeat(0, n);
  }

  lemma SymbolsSuffix(t: seq<byte>, k: nat)
    requires Valid(t) && k <= |t|
    ensures Symbols(Indices(t)[k..]) == t[k..]
  {
    SymbolsOfIndices(t);
    assert Symbols(Indices(t)[k..]) == Symbols(Indices(t))[k..];
  }

  /** base58_encode undoes base58_decode on every valid text that is not all '1'. */
  lemma EncodeDecode(t: seq<byte>)
    requires Valid(t)
    ensures Text(Bytes(t)) == t <==> Leading(t, 49) < |t|
  {
    var k := Leading(t, 49);
    SymbolsSuffix(t, k);
    hide *;
    if k < |t| {
      BytesShape(t);
      TextIs(Bytes(t));
      SplitLeading(t, 49);
    } else {
      ZeroIndices(t);
      ZeroBytes(k);
      ZeroLeading(k + 1);
      ZeroText(Bytes(t));
    }
  }

  // ----- the characters, written out

  /** The alphabet: no 0, O, I or l. */
  const ALPHABET := "123456789ABCDEFG" + "HJKLMNPQRSTUVWXY" + "Zabcdefghijkmnop" + "qrstuvwxyz"

  lemma AlphabetSymbol(d: int)
    requires 0 <= d < 58
    ensures Symbol(d) as char == ALPHABET[d]
  {
  }

  lemma AlphabetLength()
    ensures |ALPHABET| == 58
  {
  }

  /** The place of a character is where it stands in the alphabet, -1 if it does not. */
  lemma Alphabet(c: byte)
    requires c < 128
    ensures |ALPHABET| == 58
    ensures Index(c) >= 0 ==> ALPHABET[Index(c)] == c as char
    ensures Index(c) == -1 <==> c as char !in ALPHABET
    ensures forall d | 0 <= d < 58 && ALPHABET[d] == c as char :: Index(c) == d
  {
    hide Index, Symbol, ALPHABET;
    AlphabetLength();
    if Index(c) >= 0 {
      SymbolOfIndex(c);
      AlphabetSymbol(Index(c));
    }
    forall d | 0 <= d < 58 && ALPHABET[d] == c as char ensures Index(c) == d {
      AlphabetSymbol(d);
      IndexOfSymbol(d);
    }
  }

  /**
    The text of a string with a byte that is not zero: characters of the alphabet whose places spell, in
    radix 58, the number the bytes spell in radix 256, after as many "1" as there are zero bytes in front.
   */
  lemma TextCharacters(s: seq<byte>, k: nat) returns (places: seq<int>)
    requires k < |s| && s[k] != 0 && forall j | 0 <= j < k :: s[j] == 0
    ensures |places| == |Text(s)| && |ALPHABET| == 58 && forall j | 0 <= j < |places| :: 0 <= places[j] < 58
    ensures forall j | 0 <= j < |places| :: Text(s)[j] as char == ALPHABET[places[j]]
    ensures Big(places, 58) == Big(s, 256)
    ensures k < |places| && places[k] != 0 && forall j | 0 <= j < k :: places[j] == 0
  {
    hide *;
    places := TextPlaces(s, k);
    SymbolsSpelt(places);
  }

  lemma TextPlaces(s: seq<byte>, k: nat) returns (places: seq<int>)
    requires k < |s| && s[k] != 0 && forall j | 0 <= j < k :: s[j] == 0
    ensures forall j | 0 <= j < |places| :: 0 <= places[j] < 58
    ensures Text(s) == Symbols(places) && Big(places, 58) == Big(s, 256)
    ensures k < |places| && places[k] != 0 && forall j | 0 <= j < k :: places[j] == 0
  {
    hide *;
    LeadingIs(s, k);
    Positive(s, k, 256);
    TextIs(s);
    var digits := Reverse(Digits(Big(s, 256), 58));
    FirstDigit(Big(s, 256), 58);
    BigOfDigits(Big(s, 256), 58);
    SymbolsOfZeros(k, digits);
    BigOfZeros(k, digits, 58);
    places := ZerosThen(k, digits);
  }

  lemma ZerosThen(k: nat, digits: seq<int>) returns (places: seq<int>)
    requires digits != [] && digits[0] > 0 && forall j | 0 <= j < |digits| :: 0 <= digits[j] < 58
    ensures places == Repeat(0, k) + digits
    ensures forall j | 0 <= j < |places| :: 0 <= places[j] < 58
    ensures k < |places| && places[k] != 0 && forall j | 0 <= j < k :: places[j] == 0
  {
    places := Repeat(0, k) + digits;
  }

  lemma SymbolsSpelt(places: seq<int>)
    requires forall j | 0 <= j < |places| :: 0 <= places[j] < 58
    ensures |ALPHABET| == 58 && forall j | 0 <= j < |places| :: Symbols(places)[j] as char == ALPHABET[places[j]]
  {
    hide Symbol, ALPHABET;
    AlphabetLength();
    forall j | 0 <= j < |places| ensures Symbols(places)[j] as char == ALPHABET[places[j]] {
      AlphabetSymbol(places[j]);
    }
  }

  lemma LeadingIs(s: seq<byte>, k: nat)
    requires k < |s| && s[k] != 0 && forall j | 0 <= j < k :: s[j] == 0
    ensures Leading(s, 0) == k
  {
  }

  /** The bytes of a valid text that is not all "1": they spell its number, after a zero byte for each "1" in front. */
  lemma BytesSpelt(t: seq<byte>, k: nat)
    requires Valid(t) && k < |t| && t[k] != 49 && forall j | 0 <= j < k :: t[j] == 49
    ensures Big(Bytes(t), 256) == Big(Indices(t), 58)
    ensures k < |Bytes(t)| && Bytes(t)[k] != 0 && forall j | 0 <= j < k :: Bytes(t)[j] == 0
  {
    hide Big, Digits, Digits1, Accumulated, Index;
    assert Leading(t, 49) == k;
    BytesShape(t);
    AccumulatedValid(t);
    assert Leading(Bytes(t), 0) == k;
    BytesIs(t);
    FirstDigit(Accumulated(t), 256);
  }

  /** One character more of any text: its place, -1 outside the alphabet, is added to 58 times the number. */
  lemma OneMoreSymbol(t: seq<byte>, c: byte)
    requires Ascii7(t) && c < 128
    ensures Ascii7(t + [c])
    ensures var v := 58 * Big(Bytes(t), 256) + Index(c);
      Big(Bytes(t + [c]), 256) == if v < 0 then 255 else v
  {
    hide Big, Index, Bytes;
    assert (t + [c])[..|t|] == t;
    NumberRead(t);
    NumberRead(t + [c]);
  }

  lemma NumberRead(t: seq<byte>)
    requires Ascii7(t)
    ensures Big(Bytes(t), 256) == Accumulated(t)
  {
    hide *;
    if Accumulated(t) > 0 {
      BytesIs(t);
      BigOfDigits(Accumulated(t), 256);
      BigOfZeros(Leading(t, 49), Reverse(Digits(Accumulated(t), 256)), 256);
    } else {
      BytesOfZero(t);
      AllZero(Bytes(t), 256);
    }
  }

  lemma BytesOfZero(t: seq<byte>)
    requires Ascii7(t) && Accumulated(t) == 0
    ensures Leading(Bytes(t), 0) == |Bytes(t)|
  {
    hide Leading, Accumulated;
    var k := Leading(t, 49);
    var zero: seq<int> := [0];
    assert Digits1(0, 256) == zero && Reverse(zero) == zero;
    assert Bytes(t) == Repeat(0, k + 1);
    ZeroLeading(k + 1);
  }

  // ----- the running conversion

  /** One byte consumed by the encoder: the buffer keeps the digits of the value so far. */
  lemma EncodeStep(s: seq<byte>, i: nat)
    requires i < |s|
    ensures Big(s[..i], 256) >= 0 && Big(s[..i + 1], 256) == Big(s[..i], 256) * 256 + s[i]
    ensures MulAdd(Digits1(Big(s[..i], 256), 58), 256, s[i], 58) == Digits1(Big(s[..i + 1], 256), 58)
  {
    BigBounds(s[..i], 256);
    assert s[..i + 1][..i] == s[..i];
    MulAddDigits1(Big(s[..i], 256), 256, s[i], 58);
  }

  /** The buffer never holds more digits than the final number has. */
  lemma EncodeFits(s: seq<byte>, i: nat)
    requires i <= |s|
    ensures 0 <= Big(s[..i], 256) <= Big(s, 256)
    ensures |Digits1(Big(s[..i], 256), 58)| <= |Digits1(Big(s, 256), 58)|
    decreases |s| - i
  {
    BigBounds(s[..i], 256);
    if i == |s| {
      assert s[..i] == s;
    } else {
      assert s[..i + 1][..i] == s[..i];
      EncodeFits(s, i + 1);
      DigitsLengthMonotone(Big(s[..i], 256), Big(s, 256), 58);
    }
  }

  /** One symbol consumed by the decoder. */
  lemma DecodeStep(t: seq<byte>, i: nat)
    requires i < |t| && Ascii7(t)
    ensures MulAdd(Digits1(Accumulated(t[..i]), 256), 58, Index(t[i]), 256) == Digits1(Accumulated(t[..i + 1]), 256)
  {
    assert t[..i + 1][..i] == t[..i];
    hide *;
    AbsorbDigits(Accumulated(t[..i]), t[i]);
    AccumulatedLast(t, i);
  }

  lemma AccumulatedLast(t: seq<byte>, i: nat)
    requires i < |t| && Ascii7(t)
    ensures Accumulated(t[..i + 1]) == Absorb(Accumulated(t[..i]), t[i])
  {
    assert t[..i + 1][..i] == t[..i];
  }

  lemma AbsorbDigits(v: nat, c: byte)
    requires c < 128
    ensures MulAdd(Digits1(v, 256), 58, Index(c), 256) == Digits1(Absorb(v, c), 256)
  {
    if v == 0 && Index(c) < 0 {
      InvalidFirst();
    } else {
      hide Index, MulAdd, Digits1;
      MulAddDigits1(v, 58, Index(c), 256);
    }
  }

  /** A symbol outside the alphabet read into an empty number: the carry -1 leaves the digit 255. */
  lemma InvalidFirst()
    ensures MulAdd(Digits1(0, 256), 58, -1, 256) == Digits1(255, 256)
  {
    assert Digits1(0, 256) == [0];
    MulAddHead([0], 58, -1, 256, 0, [], -1);
    DivUnique(-1, -1, 255, 256);
    MulAddNone([], 58, -1, 256);
    assert Digits(255, 256) == [255] + Digits(0, 256);
  }

  lemma DecodeFits(t: seq<byte>, i: nat)
    requires i <= |t| && Ascii7(t)
    ensures Accumulated(t[..i]) <= Accumulated(t)
    ensures |Digits1(Accumulated(t[..i]), 256)| <= |Digits1(Accumulated(t), 256)|
    decreases |t| - i
  {
    if i == |t| {
      assert t[..i] == t;
    } else {
      assert t[..i + 1][..i] == t[..i];
      DecodeFits(t, i + 1);
      DigitsLengthMonotone(Accumulated(t[..i]), Accumulated(t), 256);
    }
  }

  /** The two directions of the conversion, by what each multiplies with and the radix of its digits. */
  predicate Direction(m: nat, base: nat) {
    (m == 256 && base == 58) || (m == 58 && base == 256)
  }

  /** The carry that enters a step never exceeds 255 when encoding, or 57 when decoding. */
  lemma CarryBound(d: nat, carry: int, m: nat, base: nat)
    requires Direction(m, base) && d < base && -1 <= carry < m && (carry >= 0 || base == 256)
    ensures var t := carry + d * m;
      -1 <= t < base * m && -1 <= t / base < m && 0 <= t % base < base && (t / base >= 0 || base == 256)
  {
  }

  lemma CarryShrinks(carry: nat, m: nat, base: nat)
    requires Direction(m, base) && 0 < carry < m
    ensures 0 <= carry / base < carry && 0 <= carry % base < base
    ensures Digits(carry, base) == [carry % base] + Digits(carry / base, base)
  {
  }

  /** The inner for loop: multiply the digits in `buffer[..size]` by `m` and add `c`. */
  method CarryPass(buffer: array<byte>, size: nat, m: nat, c: int, base: nat) returns (carry: int)
    requires Direction(m, base) && -1 <= c < m && (c >= 0 || base == 256)
    requires size <= buffer.Length && forall k | 0 <= k < size :: buffer[k] < base
    modifies buffer
    ensures -1 <= carry < m
    ensures forall k | size <= k < buffer.Length :: buffer[k] == old(buffer[k])
    ensures MulAdd(old(buffer[..size]), m, c, base) == buffer[..size] + Digits(carry, base)
  {
    ghost var was := buffer[..size];
    carry := c;
    var j := 0;
    while j < size
      invariant 0 <= j <= size && -1 <= carry < m && (carry >= 0 || base == 256)
      invariant forall k | j <= k < buffer.Length :: buffer[k] == old(buffer[k])
      invariant MulAdd(was, m, c, base) == buffer[..j] + MulAdd(was[j..], m, carry, base)
    {
      hide MulAdd, Digits;
      ghost var done, rest := buffer[..j], was[j + 1..];
      CarryBound(buffer[j], carry, m, base);
      var t := carry + buffer[j] * m;
      CarryDigit(was, j, m, carry, base, t);
      buffer[j] := t % base;
      carry := t / base;
      assert buffer[..j + 1] == done + [t % base];
      Regroup(done, [t % base], MulAdd(rest, m, carry, base));
      j := j + 1;
    }
    MulAddNone(was[size..], m, carry, base);
  }

  lemma CarryDigit(was: seq<int>, j: nat, m: nat, carry: int, base: nat, t: int)
    requires base >= 2 && j < |was| && t == carry + was[j] * m
    ensures MulAdd(was[j..], m, carry, base) == [t % base] + MulAdd(was[j + 1..], m, t / base, base)
  {
    assert was[j..] == [was[j]] + was[j + 1..];
    MulAddHead(was[j..], m, carry, base, was[j], was[j + 1..], t);
  }

  /** The while loop after it: append the digits of the carry that is left. */
  method CarryTail(buffer: array<byte>, size: nat, c: int, m: nat, base: nat) returns (size': nat)
    requires Direction(m, base) && -1 <= c < m
    requires size + |Digits(c, base)| <= buffer.Length
    modifies buffer
    ensures size' <= buffer.Length
    ensures buffer[..size'] == old(buffer[..size]) + Digits(c, base)
    ensures forall k | size' <= k < buffer.Length :: buffer[k] == old(buffer[k])
  {
    var carry := c;
    size' := size;
    while carry > 0
      invariant size <= size' <= buffer.Length && -1 <= carry < m
      invariant forall k | size' <= k < buffer.Length :: buffer[k] == old(buffer[k])
      invariant old(buffer[..size]) + Digits(c, base) == buffer[..size'] + Digits(carry, base)
    {
      ghost var done := buffer[..size'];
      CarryShrinks(carry, m, base);
      hide Digits;
      buffer[size'] := carry % base;
      size' := size' + 1;
      assert buffer[..size'] == done + [carry % base];
      carry := carry / base;
    }
  }

  // ----- the two functions

  /** The digits the encoder collects in its scratch buffer, least significant first. */
  function Digits58(s: seq<byte>): (d: seq<int>)
    ensures d != [] && forall k | 0 <= k < |d| :: 0 <= d[k] < 58
  {
    BigBounds(s, 256);
    Digits1(Big(s, 256), 58)
  }

  /** The radix conversion of the encoder; the first cell of the scratch buffer is already zero. */
  method RadixDigits(src: seq<byte>, ptmp: array<byte>) returns (tmpsize: nat)
    requires |Digits58(src)| <= ptmp.Length && ptmp[0] == 0
    modifies ptmp
    ensures tmpsize <= ptmp.Length && ptmp[..tmpsize] == Digits58(src)
  {
    tmpsize := 1;
    assert src[..0] == [] && ptmp[..1] == [0];
    for i := 0 to |src|
      invariant tmpsize <= ptmp.Length
      invariant ptmp[..tmpsize] == Digits58(src[..i])
    {
      EncodeStep(src, i);
      EncodeFits(src, i + 1);
      ghost var digits := ptmp[..tmpsize];
      assert forall k | 0 <= k < tmpsize :: ptmp[k] == digits[k];
      var carry := CarryPass(ptmp, tmpsize, 256, src[i], 58);
      tmpsize := CarryTail(ptmp, tmpsize, carry, 256, 58);
    }
    assert src[..|src|] == src;
  }

  lemma {:induction false} AtLeading(s: seq<byte>, x: byte, n: nat)
    requires n <= Leading(s, x)
    ensures n < |s| && s[n] == x ==> n < Leading(s, x)
    ensures n == |s| || s[n] != x ==> n == Leading(s, x)
  {
  }

  /** One symbol '1' for every leading zero byte. */
  method LeadingOnes(src: seq<byte>, dst: Find)
    requires dst.item != null && dst.cpos == 0 && Leading(src, 0) <= dst.item.Length < U64
    modifies dst`cpos, dst.item
    ensures dst.cpos == Leading(src, 0) && dst.item[..dst.cpos] == Repeat(49, dst.cpos)
  {
    hide Leading, Repeat;
    var pdst := dst.item;
    while dst.cpos < |src| && src[dst.cpos] == 0
      invariant dst.cpos <= Leading(src, 0)
      invariant pdst[..dst.cpos] == Repeat(49, dst.cpos)
    {
      AtLeading(src, 0, dst.cpos);
      pdst[dst.cpos] := 49;
      dst.cpos := dst.cpos + 1;
      assert pdst[..dst.cpos] == Repeat(49, dst.cpos);
    }
    AtLeading(src, 0, dst.cpos);
  }

  /** The symbols of the digits, most significant first. */
  method ReversedSymbols(ptmp: array<byte>, tmpsize: nat, dst: Find)
    requires tmpsize <= ptmp.Length && forall k | 0 <= k < tmpsize :: ptmp[k] < 58
    requires dst.item != null && dst.item != ptmp && dst.cpos + tmpsize <= dst.item.Length < U64
    modifies dst`cpos, dst.item
    ensures dst.cpos == old(dst.cpos) + tmpsize
    ensures var digits: seq<int> := ptmp[..tmpsize];
      dst.item[..dst.cpos] == old(dst.item[..dst.cpos]) + Symbols(Reverse(digits))
  {
    var pdst := dst.item;
    ghost var done := pdst[..dst.cpos];
    ghost var digits: seq<int> := ptmp[..tmpsize];
    ghost var symbols := Symbols(Reverse(digits));
    for i := 0 to tmpsize
      invariant dst.cpos == old(dst.cpos) + i
      invariant pdst[..dst.cpos] == done + symbols[..i]
    {
      hide Reverse;
      ghost var before := pdst[..dst.cpos];
      pdst[dst.cpos] := Symbol(ptmp[tmpsize - 1 - i]);
      assert symbols[i] == pdst[dst.cpos];
      dst.cpos := dst.cpos + 1;
      assert pdst[..dst.cpos] == before + [symbols[i]];
    }
  }

  /** base58_encode; `capacity` and `scratch` are the sizes of the destination and of `ptmp`. */
  method Encode(src: seq<byte>, capacity: u64, scratch: nat) returns (dst: Find?)
    requires src != [] ==> |Text(src)| < capacity && |Digits58(src)| <= scratch
    ensures dst == null <==> src == []
    ensures dst != null ==> fresh(dst) && Returns(dst, Text(src))
  {
    if src == [] {
      return null;
    }
    hide Leading, Digits1, Big, Symbols, Reverse;
    dst := new Find(capacity, NOBLOCKSIZE);
    var ptmp := new byte[scratch](i => 0);
    var tmpsize := RadixDigits(src, ptmp);
    ghost var digits := Digits58(src);
    assert forall k | 0 <= k < tmpsize :: ptmp[k] == digits[k];
    LeadingOnes(src, dst);
    ReversedSymbols(ptmp, tmpsize, dst);
    Finish(dst, Text(src));
  }

  /** The radix conversion of the decoder, in the destination itself. */
  method RadixBytes(src: seq<byte>, dst: Find)
    requires Ascii7(src) && dst.item != null && |Digits1(Accumulated(src), 256)| <= dst.item.Length < U64
    requires dst.item[0] == 0
    modifies dst`cpos, dst.item
    ensures dst.cpos <= dst.item.Length && dst.item[..dst.cpos] == Digits1(Accumulated(src), 256)
  {
    hide Digits1, Accumulated, Index;
    var pdst := dst.item;
    dst.cpos := 1;
    DecodeStart(src, pdst[..1]);
    for i := 0 to |src|
      invariant dst.cpos <= pdst.Length
      invariant pdst[..dst.cpos] == Digits1(Accumulated(src[..i]), 256)
    {
      DecodeStep(src, i);
      DecodeFits(src, i + 1);
      var carry := CarryPass(pdst, dst.cpos, 58, Index(src[i]), 256);
      var size := CarryTail(pdst, dst.cpos, carry, 58, 256);
      dst.cpos := size;
    }
    assert src[..|src|] == src;
  }

  lemma DecodeStart(t: seq<byte>, first: seq<byte>)
    requires Ascii7(t) && first == [0]
    ensures first == Digits1(Accumulated(t[..0]), 256)
  {
    assert t[..0] == [];
  }

  /** A zero byte for every leading '1'. */
  method LeadingZeros(src: seq<byte>, dst: Find)
    requires dst.item != null && dst.cpos + Leading(src, 49) <= dst.item.Length < U64
    modifies dst`cpos, dst.item
    ensures dst.cpos == old(dst.cpos) + Leading(src, 49)
    ensures dst.item[..dst.cpos] == old(dst.item[..dst.cpos]) + Repeat(0, Leading(src, 49))
  {
    hide Leading;
    var pdst := dst.item;
    ghost var done := pdst[..dst.cpos];
    var i := 0;
    while i < |src| && src[i] == 49
      invariant i <= Leading(src, 49) && dst.cpos == old(dst.cpos) + i
      invariant pdst[..dst.cpos] == done + Repeat(0, i)
    {
      AtLeading(src, 49, i);
      pdst[dst.cpos] := 0;
      dst.cpos := dst.cpos + 1;
      i := i + 1;
      assert pdst[..dst.cpos] == done + Repeat(0, i);
    }
    AtLeading(src, 49, i);
  }

  /** The reversal in place: the upper half is swapped with the lower half, from the end inwards. */
  method ReverseInPlace(pdst: array<byte>, size: nat)
    requires 0 < size <= pdst.Length
    modifies pdst
    ensures pdst[..size] == Reverse(old(pdst[..size]))
    ensures forall k | size <= k < pdst.Length :: pdst[k] == old(pdst[k])
  {
    var z := size / 2 + size % 2;
    var i := size - 1;
    while i >= z
      invariant z - 1 <= i < size
      invariant forall k | i < k < size :: pdst[k] == old(pdst[size - 1 - k]) && pdst[size - 1 - k] == old(pdst[k])
      invariant forall k | size - 1 - i <= k <= i :: pdst[k] == old(pdst[k])
      invariant forall k | size <= k < pdst.Length :: pdst[k] == old(pdst[k])
    {
      var ch := pdst[i];
      pdst[i] := pdst[size - i - 1];
      pdst[size - i - 1] := ch;
      i := i - 1;
    }
  }

  /** base58_decode; a symbol of 128 or more would index outside the table. */
  method Decode(src: seq<byte>, capacity: u64) returns (dst: Find?)
    requires Ascii7(src) && (src != [] ==> |Bytes(src)| < capacity)
    ensures dst == null <==> src == []
    ensures dst != null ==> fresh(dst) && Returns(dst, Bytes(src))
  {
    if src == [] {
      return null;
    }
    hide Leading, Digits1, Accumulated, Reverse;
    dst := new Find(capacity, NOBLOCKSIZE);
    RadixBytes(src, dst);
    LeadingZeros(src, dst);
    ReversedBytes(src, dst.item[..dst.cpos]);
    ReverseInPlace(dst.item, dst.cpos);
    Finish(dst, Bytes(src));
  }

  /** The number before the zeros, back to front. */
  lemma ReversedBytes(t: seq<byte>, buffer: seq<byte>)
    requires Ascii7(t) && buffer == Digits1(Accumulated(t), 256) + Repeat(0, Leading(t, 49))
    ensures Reverse(buffer) == Bytes(t)
  {
    hide Leading, Accumulated, Digits1;
  }
}
