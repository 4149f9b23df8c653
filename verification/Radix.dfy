/** Bytes, and numbers written in a radix.  Digit sequences are little-endian unless a name says otherwise. */
module Radix {

  type byte = x: int | 0 <= x < 256

  function Reverse<T>(s: seq<T>): (r: seq<T>)
    ensures |r| == |s| && forall k | 0 <= k < |s| :: r[k] == s[|s| - 1 - k]
  {
    if s == [] then [] else Reverse(s[1..]) + [s[0]]
  }

  function Repeat(x: byte, n: nat): (r: seq<byte>)
    ensures |r| == n && forall k | 0 <= k < n :: r[k] == x
  {
    seq(n, k => x)
  }

  lemma Regroup<T>(a: seq<T>, b: seq<T>, c: seq<T>)
    ensures a + (b + c) == (a + b) + c
  {
  }

  /** The value of little-endian digits. */
  function Value(digits: seq<int>, base: nat): int {
    if digits == [] then 0 else digits[0] + base * Value(digits[1..], base)
  }

  /** The digits of `v`, without a leading zero: none at all for zero (or less). */
  function Digits(v: int, base: nat): (d: seq<int>)
    requires base >= 2
    ensures forall k | 0 <= k < |d| :: 0 <= d[k] < base
    ensures d != [] ==> d[|d| - 1] != 0
    ensures d == [] <==> v <= 0
    decreases v
  {
    if v <= 0 then []
    else
      DivSmaller(v, base);
      [v % base] + Digits(v / base, base)
  }

  /** The digits of `v`, with zero written as a single zero. */
  function Digits1(v: nat, base: nat): (d: seq<int>)
    requires base >= 2
    ensures forall k | 0 <= k < |d| :: 0 <= d[k] < base
    ensures d != []
  {
    if v == 0 then [0] else Digits(v, base)
  }

  lemma DivSmaller(v: int, base: nat)
    requires v > 0 && base >= 2
    ensures 0 <= v / base < v
  {
    var q, r := v / base, v % base;
    assert v == base * q + r;
    if q >= v {
      MulGrows(base, q);
    }
  }

  lemma MulGrows(base: nat, q: nat)
    requires base >= 2
    ensures base * q >= 2 * q
  {
  }

  lemma DigitsCons(v: int, base: nat)
    requires base >= 2 && v > 0
    ensures Digits(v, base) == [v % base] + Digits(v / base, base)
  {
  }

  lemma ValueCons(a: int, rest: seq<int>, base: nat)
    ensures Value([a] + rest, base) == a + base * Value(rest, base)
  {
    assert ([a] + rest)[1..] == rest;
  }

  lemma {:induction false} DigitsValue(v: int, base: nat)
    requires base >= 2 && v >= 0
    ensures Value(Digits(v, base), base) == v
    decreases v
  {
    if v > 0 {
      hide Digits, Value;
      DivSmaller(v, base);
      DigitsValue(v / base, base);
      DigitsCons(v, base);
      ValueStep(v, Digits(v / base, base), base);
    }
  }

  lemma ValueStep(v: nat, rest: seq<int>, base: nat)
    requires base >= 2 && Value(rest, base) == v / base
    ensures Value([v % base] + rest, base) == v
  {
    ValueCons(v % base, rest, base);
    hide Value;
  }

  lemma {:induction false} DigitsLengthMonotone(v: int, w: int, base: nat)
    requires base >= 2 && v <= w
    ensures |Digits(v, base)| <= |Digits(w, base)|
    decreases w
  {
    if v > 0 {
      DivSmaller(w, base);
      DivSmaller(v, base);
      DivMonotone(v, w, base);
      DigitsLengthMonotone(v / base, w / base, base);
    }
  }

  lemma DivMonotone(v: nat, w: nat, base: nat)
    requires base >= 2 && v <= w
    ensures v / base <= w / base
  {
    var q, p := v / base, w / base;
    assert v == base * q + v % base && w == base * p + w % base;
    if p < q {
      MulMonotone(base, p + 1, q);
    }
  }

  lemma MulMonotone(a: nat, x: int, y: int)
    requires x <= y
    ensures a * x <= a * y
  {
  }

  /** The value of big-endian digits, one digit after the other. */
  function Big(digits: seq<int>, base: nat): int {
    if digits == [] then 0 else Big(digits[..|digits| - 1], base) * base + digits[|digits| - 1]
  }

  lemma {:induction false} BigIsReversedValue(d: seq<int>, base: nat)
    ensures Big(Reverse(d), base) == Value(d, base)
  {
    if d != [] {
      var r := Reverse(d);
      assert r[..|r| - 1] == Reverse(d[1..]);
      BigIsReversedValue(d[1..], base);
    }
  }

  lemma {:induction false} BigBounds(d: seq<int>, base: nat)
    requires base >= 2 && forall k | 0 <= k < |d| :: 0 <= d[k] < base
    ensures Big(d, base) >= 0 && (d != [] && d[0] > 0 ==> Big(d, base) > 0)
  {
    if d != [] {
      BigBounds(d[..|d| - 1], base);
      MulMonotone(base, 0, Big(d[..|d| - 1], base));
      if |d| > 1 && d[0] > 0 {
        MulMonotone(base, 1, Big(d[..|d| - 1], base));
      }
    }
  }

  /** Big-endian digits without a leading zero are determined by their value. */
  lemma {:induction false} DigitsOfBig(d: seq<int>, base: nat)
    requires base >= 2 && forall k | 0 <= k < |d| :: 0 <= d[k] < base
    requires d != [] ==> d[0] > 0
    ensures Reverse(Digits(Big(d, base), base)) == d
  {
    hide Digits, Big;
    if d != [] {
      var init, last := d[..|d| - 1], d[|d| - 1];
      BigBounds(d, base);
      BigBounds(init, base);
      DigitsOfBig(init, base);
      BigLast(d, base);
      var v := Big(init, base);
      DigitsCons(Big(d, base), base);
      assert Reverse([last] + Digits(v, base)) == Reverse(Digits(v, base)) + [last];
    } else {
      BigNone(d, base);
    }
  }

  lemma BigNone(d: seq<int>, base: nat)
    requires d == [] && base >= 2
    ensures Big(d, base) == 0 && Digits(Big(d, base), base) == []
  {
  }

  lemma BigLast(d: seq<int>, base: nat)
    requires base >= 2 && d != [] && 0 <= d[|d| - 1] < base
    ensures Big(d, base) / base == Big(d[..|d| - 1], base) && Big(d, base) % base == d[|d| - 1]
  {
    DivUnique(Big(d, base), Big(d[..|d| - 1], base), d[|d| - 1], base);
  }

  /** Leading zeros do not change the value. */
  lemma {:induction false} BigOfZeros(n: nat, d: seq<int>, base: nat)
    ensures Big(Repeat(0, n) + d, base) == Big(d, base)
    decreases n + |d|
  {
    var s := Repeat(0, n) + d;
    if d != [] {
      assert s[..|s| - 1] == Repeat(0, n) + d[..|d| - 1];
      BigOfZeros(n, d[..|d| - 1], base);
    } else if n > 0 {
      assert s[..|s| - 1] == Repeat(0, n - 1) + [];
      BigOfZeros(n - 1, [], base);
    }
  }

  // ----- multiply and add, digit by digit

  /**
    One pass of "multiply by `m` and add `c`" over little-endian digits, then the digits of the carry
    that is left.  This is what the inner loops of base58_encode and base58_decode leave in the buffer.
   */
  function MulAdd(digits: seq<int>, m: nat, c: int, base: nat): seq<int>
    requires base >= 2
  {
    if digits == [] then Digits(c, base)
    else
      var t := c + digits[0] * m;
      [t % base] + MulAdd(digits[1..], m, t / base, base)
  }

  lemma DivUnique(n: int, q: int, r: int, base: nat)
    requires base >= 1 && n == base * q + r && 0 <= r < base
    ensures n / base == q && n % base == r
  {
    var p, s := n / base, n % base;
    assert base * (p - q) == r - s;
    if p - q >= 1 {
      MulMonotone(base, 1, p - q);
    } else if p - q <= -1 {
      MulMonotone(base, p - q, -1);
    }
  }

  /** Dividing `base * x + t` by `base`. */
  lemma DivAdd(x: int, t: int, base: nat)
    requires base >= 1
    ensures (base * x + t) / base == x + t / base && (base * x + t) % base == t % base
  {
    var d, e := t / base, t % base;
    assert base * x + t == base * (x + d) + e;
    DivUnique(base * x + t, x + d, e, base);
  }

  lemma DivTwice(v: nat, a: nat, b: nat)
    requires a > 0 && b > 0
    ensures v / a / b == v / (a * b)
  {
    var q, r := v / a, v % a;
    var q1, r1 := q / b, q % b;
    assert v == a * q + r && q == b * q1 + r1;
    assert v == (a * b) * q1 + (a * r1 + r);
    MulMonotone(a, r1 + 1, b);
    DivUnique(v, q1, a * r1 + r, a * b);
  }

  /** One digit of the pass, in terms of the number it works on. */
  lemma DigitStep(v: nat, m: nat, c: int, base: nat)
    requires base >= 2 && m >= 2 && -1 <= c && v > 0
    ensures var t, w := c + (v % base) * m, v * m + c;
      && w > 0 && t / base >= -1
      && w % base == t % base && w / base == (v / base) * m + t / base
      && w / base >= 0
  {
    var q, r := v / base, v % base;
    var t := c + r * m;
    assert v * m + c == base * (q * m) + t by {
      assert v == base * q + r;
      assert v * m == (base * q) * m + r * m;
    }
    DivAdd(q * m, t, base);
    MulMonotone(m, 1, v);
    MulMonotone(m, 0, r);
    CarryAtLeast(t, base);
    DivSmaller(v * m + c, base);
  }

  lemma MulAddNone(d: seq<int>, m: nat, c: int, base: nat)
    requires base >= 2 && d == []
    ensures MulAdd(d, m, c, base) == Digits(c, base)
  {
  }

  /** The step of the proof below, the arithmetic done. */
  lemma MulAddStep(v: nat, w: nat, m: nat, c: int, base: nat, t: int)
    requires base >= 2 && v > 0 && w > 0 && t == c + (v % base) * m
    requires w % base == t % base
    requires MulAdd(Digits(v / base, base), m, t / base, base) == Digits(w / base, base)
    ensures MulAdd(Digits(v, base), m, c, base) == Digits(w, base)
  {
    hide Digits, MulAdd;
    DigitsCons(v, base);
    DigitsCons(w, base);
    MulAddHead(Digits(v, base), m, c, base, v % base, Digits(v / base, base), t);
  }

  /** The pass computes exactly the digits of the new value. */
  lemma {:induction false} MulAddDigits(v: nat, m: nat, c: int, base: nat)
    requires base >= 2 && m >= 2 && -1 <= c && v * m + c >= 0
    ensures MulAdd(Digits(v, base), m, c, base) == Digits(v * m + c, base)
    decreases v
  {
    hide Digits, MulAdd;
    if v > 0 {
      DivSmaller(v, base);
      DigitStep(v, m, c, base);
      var t := c + (v % base) * m;
      MulAddDigits(v / base, m, t / base, base);
      MulAddStep(v, v * m + c, m, c, base, t);
    } else {
      MulAddNone([], m, c, base);
      assert Digits(0, base) == [];
      assert v * m == 0;
    }
  }

  lemma MulAddHead(d: seq<int>, m: nat, c: int, base: nat, head: int, tail: seq<int>, t: int)
    requires base >= 2 && d == [head] + tail && t == c + head * m
    ensures MulAdd(d, m, c, base) == [t % base] + MulAdd(tail, m, t / base, base)
  {
    assert d[1..] == tail;
  }

  lemma CarryAtLeast(t: int, base: nat)
    requires t >= -1 && base >= 2
    ensures t / base >= -1
  {
    if t == -1 {
      DivUnique(-1, -1, base - 1, base);
    } else {
      DivMonotone(0, t, base);
      DivUnique(0, 0, 0, base);
    }
  }

  /** From one zero digit onward the buffer holds `Digits1` of the running value. */
  lemma MulAddDigits1(v: nat, m: nat, c: int, base: nat)
    requires base >= 2 && m >= 2 && -1 <= c && v * m + c >= 0
    ensures MulAdd(Digits1(v, base), m, c, base) == Digits1(v * m + c, base)
  {
    MulAddDigits(v, m, c, base);
    if v == 0 {
      assert v * m == 0;
      assert MulAdd([0], m, c, base) == [c % base] + MulAdd([], m, c / base, base);
      if c == 0 {
        DivUnique(0, 0, 0, base);
      }
    } else {
      DigitStep(v, m, c, base);
    }
  }

}
