/**
  Polynomials over the two-element field and the reflected shift register that divides by one.

  A polynomial is the set of its exponents.  A register holds the remainder so far, reflected: the
  exponent 0 is the bit that leaves next.  Nothing here depends on a word size or on a lookup table.
 */
module Gf2 {

  type Poly = set<nat>

  /** Addition, which is also subtraction and the exclusive or of the coefficients. */
  function Sum(a: Poly, b: Poly): Poly {
    (a - b) + (b - a)
  }

  function Shift(p: Poly): (r: Poly)
    ensures forall e: nat :: e in r <==> e + 1 in p
  {
    var r := set e | e in p && e > 0 :: e - 1;
    assert forall e: nat :: e + 1 in p ==> e in r by {
      forall e: nat | e + 1 in p ensures e in r {
        assert (e + 1) - 1 == e;
      }
    }
    r
  }

  function ShiftBy(p: Poly, n: nat): (r: Poly)
    ensures forall e: nat :: e in r <==> e + n in p
    decreases n
  {
    if n == 0 then p else ShiftBy(Shift(p), n - 1)
  }

  lemma ShiftByAdd(p: Poly, m: nat, n: nat)
    ensures ShiftBy(ShiftBy(p, m), n) == ShiftBy(p, m + n)
  {
    hide ShiftBy;
    forall e: nat ensures e in ShiftBy(ShiftBy(p, m), n) <==> e in ShiftBy(p, m + n) {
      assert e in ShiftBy(ShiftBy(p, m), n) <==> e + n in ShiftBy(p, m);
      assert (e + n) + m == e + (m + n);
    }
  }

  lemma ShiftedOut(p: Poly, n: nat)
    requires ShiftBy(p, n) == {}
    ensures forall e | e in p :: e < n
  {
    hide ShiftBy;
    forall e | e in p ensures e < n {
      var x := if e >= n then e - n else 0;
      assert x in ShiftBy(p, n) <==> x + n in p;
    }
  }

  /** The part of `p` below exponent `n`. */
  function Low(p: Poly, n: nat): Poly {
    set e | e in p && e < n
  }

  predicate Below(p: Poly, n: nat) {
    forall e | e in p :: e < n
  }

  /** `g` generates a check of `degree` bits: its reflected form reaches, and stops at, `degree - 1`. */
  predicate Generator(g: Poly, degree: nat) {
    degree > 0 && Below(g, degree) && degree - 1 in g
  }

  function Step(g: Poly, p: Poly): Poly {
    if 0 in p then Sum(g, Shift(p)) else Shift(p)
  }

  function Steps(g: Poly, p: Poly, n: nat): Poly
    decreases n
  {
    if n == 0 then p else Steps(g, Step(g, p), n - 1)
  }

  /** Clocks one message bit into the register. */
  function Clock(g: Poly, p: Poly, bit: bool): Poly {
    Step(g, if bit then Sum(p, {0}) else p)
  }

  function ClockAll(g: Poly, p: Poly, bits: seq<bool>): Poly {
    if bits == [] then p
    else Clock(g, ClockAll(g, p, bits[..|bits| - 1]), bits[|bits| - 1])
  }

  // ----- linearity

  lemma SumSelf(p: Poly)
    ensures Sum(p, p) == {}
  {
  }

  lemma SumCancel(a: Poly, b: Poly, c: Poly)
    requires Sum(a, b) == c
    ensures Sum(a, c) == b
  {
  }

  lemma SumRegroup(a: Poly, b: Poly, c: Poly, d: Poly)
    ensures Sum(Sum(a, b), Sum(c, d)) == Sum(Sum(a, c), Sum(b, d))
  {
  }

  lemma LowSum(a: Poly, b: Poly, n: nat)
    requires Below(b, n)
    ensures Low(Sum(a, b), n) == Sum(Low(a, n), b)
  {
  }

  lemma ShiftBySum(a: Poly, b: Poly, n: nat)
    requires Below(b, n)
    ensures ShiftBy(Sum(a, b), n) == ShiftBy(a, n)
  {
  }

  lemma StepSum(g: Poly, a: Poly, b: Poly)
    ensures Step(g, Sum(a, b)) == Sum(Step(g, a), Step(g, b))
  {
    assert Shift(Sum(a, b)) == Sum(Shift(a), Shift(b));
  }

  lemma {:induction false} StepsSum(g: Poly, a: Poly, b: Poly, n: nat)
    ensures Steps(g, Sum(a, b), n) == Sum(Steps(g, a, n), Steps(g, b, n))
    decreases n
  {
    hide Step, Sum;
    if n > 0 {
      StepSum(g, a, b);
      StepsSum(g, Step(g, a), Step(g, b), n - 1);
    }
  }

  /** Steps that find only zeros to shift out never apply the generator. */
  lemma {:induction false} StepsShift(g: Poly, p: Poly, n: nat)
    requires forall e | e in p :: e >= n
    ensures Steps(g, p, n) == ShiftBy(p, n)
    decreases n
  {
    if n > 0 {
      assert Step(g, p) == Shift(p);
      hide Step;
      StepsShift(g, Shift(p), n - 1);
    }
  }

  /** Only the `n` lowest coefficients feed back during `n` steps; the rest is merely shifted down. */
  lemma StepsSplit(g: Poly, p: Poly, n: nat)
    ensures Steps(g, p, n) == Sum(Steps(g, Low(p, n), n), ShiftBy(p, n))
  {
    var high := p - Low(p, n);
    assert p == Sum(Low(p, n), high);
    StepsSum(g, Low(p, n), high, n);
    StepsShift(g, high, n);
    assert ShiftBy(high, n) == ShiftBy(p, n);
  }

  lemma ShiftBelow(p: Poly, n: nat)
    requires Below(p, n)
    ensures Below(Shift(p), n)
  {
    hide Shift;
    forall e | e in Shift(p) ensures e < n {
      assert e + 1 in p;
    }
  }

  lemma ShiftEmpty(p: Poly)
    requires Shift(p) == {} && 0 !in p
    ensures p == {}
  {
    hide Shift;
    forall e: nat ensures e !in p {
      if e > 0 {
        assert e - 1 in Shift(p) <==> (e - 1) + 1 in p;
      }
    }
  }

  /** One step stays below the degree and makes nothing of nothing only. */
  lemma StepZero(g: Poly, degree: nat, p: Poly)
    requires Generator(g, degree) && Below(p, degree)
    ensures Below(Step(g, p), degree)
    ensures Step(g, p) == {} <==> p == {}
  {
    ShiftBelow(p, degree);
    if 0 in p {
      hide Shift;
      assert degree - 1 !in Shift(p) by {
        assert degree - 1 in Shift(p) <==> degree in p;
      }
      assert degree - 1 in Step(g, p);
    } else if Shift(p) == {} {
      ShiftEmpty(p);
    }
  }

  /** Stepping is injective below the degree: only the zero register ever becomes zero. */
  lemma {:induction false} StepsZero(g: Poly, degree: nat, p: Poly, n: nat)
    requires Generator(g, degree) && Below(p, degree)
    ensures Below(Steps(g, p, n), degree)
    ensures Steps(g, p, n) == {} <==> p == {}
    decreases n
  {
    hide Step, Below, Generator;
    if n > 0 {
      StepZero(g, degree, p);
      StepsZero(g, degree, Step(g, p), n - 1);
    }
  }

  // ----- feeding a block of bits at once

  function Coefficients(b: Poly, n: nat): (bits: seq<bool>)
    ensures |bits| == n && forall k | 0 <= k < n :: bits[k] == (k in b)
  {
    seq(n, k requires 0 <= k < n => k in b)
  }

  lemma CoefficientsShift(b: Poly, n: nat)
    requires n > 0
    ensures Coefficients(b, n) == [0 in b] + Coefficients(Shift(b), n - 1)
  {
  }

  /** Adding a block and stepping clocks in its first bit and leaves the others still to come. */
  lemma StepIsClock(g: Poly, p: Poly, b: Poly)
    ensures Step(g, Sum(p, b)) == Sum(Clock(g, p, 0 in b), Shift(b))
  {
    var p', rest := if 0 in b then Sum(p, {0}) else p, b - {0};
    assert Sum(p, b) == Sum(p', rest);
    StepSum(g, p', rest);
    assert Shift(rest) == Shift(b);
  }

  /** Adding `n` bits to the register first and stepping `n` times is the same as clocking them in. */
  lemma {:induction false} StepsAreClocks(g: Poly, p: Poly, b: Poly, n: nat)
    requires Below(b, n)
    ensures Steps(g, Sum(p, b), n) == ClockAll(g, p, Coefficients(b, n))
    decreases n
  {
    if n == 0 {
      assert Sum(p, b) == p;
    } else {
      hide Sum, Clock, Step, Coefficients;
      var first := Clock(g, p, 0 in b);
      StepIsClock(g, p, b);
      StepsAreClocks(g, first, Shift(b), n - 1);
      CoefficientsShift(b, n);
      ClockAllConcat(g, p, [0 in b], Coefficients(Shift(b), n - 1));
      assert ClockAll(g, p, [0 in b]) == Clock(g, ClockAll(g, p, []), 0 in b);
    }
  }

  lemma {:induction false} ClockAllConcat(g: Poly, p: Poly, u: seq<bool>, v: seq<bool>)
    ensures ClockAll(g, p, u + v) == ClockAll(g, ClockAll(g, p, u), v)
  {
    if v == [] {
      assert u + v == u;
    } else {
      var v' := v[..|v| - 1];
      assert (u + v)[..|u + v| - 1] == u + v';
      ClockAllConcat(g, p, u, v');
    }
  }

  // ----- bursts

  /**
    One clock read backwards.  If two registers agree from exponent `n` up after a clock, and `n` is
    below the degree, then the generator was applied to both or to neither, for it would have set
    the top exponent.  So before the clock they agreed from `n + 1` up.
   */
  lemma ClockBack(g: Poly, degree: nat, p: Poly, q: Poly, x: bool, y: bool, n: nat)
    requires Generator(g, degree) && Below(Sum(p, q), degree) && n < degree
    requires Below(Sum(Clock(g, p, x), Clock(g, q, y)), n)
    ensures Below(Sum(p, q), n + 1)
    ensures x == y <==> 0 !in Sum(p, q)
  {
    var p', q' := if x then Sum(p, {0}) else p, if y then Sum(q, {0}) else q;
    var d := Sum(p', q');
    StepSum(g, p', q');
    assert degree - 1 !in Step(g, d);
    assert forall e: nat | e in Shift(d) :: e + 1 in Sum(p, q);
    assert 0 !in d;
    forall e | e in Sum(p, q) ensures e < n + 1 {
      if e > 0 {
        assert e - 1 in Shift(d);
      }
    }
  }

  /** The difference of two registers stays below the degree, whatever the registers started from. */
  lemma {:induction false} DifferenceBelow(g: Poly, degree: nat, p: Poly, q: Poly, u: seq<bool>, v: seq<bool>)
    requires Generator(g, degree) && |u| == |v| && Below(Sum(p, q), degree)
    ensures Below(Sum(ClockAll(g, p, u), ClockAll(g, q, v)), degree)
  {
    if u != [] {
      var n := |u| - 1;
      DifferenceBelow(g, degree, p, q, u[..n], v[..n]);
      var p1, q1 := ClockAll(g, p, u[..n]), ClockAll(g, q, v[..n]);
      var p', q' := if u[n] then Sum(p1, {0}) else p1, if v[n] then Sum(q1, {0}) else q1;
      assert Below(Sum(p', q'), degree);
      StepSum(g, p', q');
      assert forall e: nat | e in Shift(Sum(p', q')) :: e + 1 in Sum(p', q');
    }
  }

  /** Registers that start equal and end equal from `n` up, soon enough, have seen the same bits. */
  lemma {:induction false} BurstBack(g: Poly, degree: nat, p: Poly, u: seq<bool>, v: seq<bool>, n: nat)
    requires Generator(g, degree) && |u| == |v| && n + |u| <= degree
    requires Below(Sum(ClockAll(g, p, u), ClockAll(g, p, v)), n)
    ensures u == v
  {
    if u != [] {
      var m := |u| - 1;
      assert Sum(p, p) == {};
      DifferenceBelow(g, degree, p, p, u[..m], v[..m]);
      ClockBack(g, degree, ClockAll(g, p, u[..m]), ClockAll(g, p, v[..m]), u[m], v[m], n);
      BurstBack(g, degree, p, u[..m], v[..m], n + 1);
      assert u == u[..m] + [u[m]] && v == v[..m] + [v[m]];
    }
  }

  /** Clocking the same bits is injective in the register: a difference never disappears again. */
  lemma {:induction false} ClockAllInjective(g: Poly, degree: nat, p: Poly, q: Poly, u: seq<bool>)
    requires Generator(g, degree) && Below(Sum(p, q), degree)
    requires ClockAll(g, p, u) == ClockAll(g, q, u)
    ensures p == q
  {
    if u != [] {
      var m := |u| - 1;
      var p1, q1 := ClockAll(g, p, u[..m]), ClockAll(g, q, u[..m]);
      DifferenceBelow(g, degree, p, q, u[..m], u[..m]);
      assert Sum(Clock(g, p1, u[m]), Clock(g, q1, u[m])) == {};
      ClockBack(g, degree, p1, q1, u[m], u[m], 0);
      assert p1 == q1 by {
        forall e: nat ensures e in p1 <==> e in q1 {
          assert e !in Sum(p1, q1);
        }
      }
      ClockAllInjective(g, degree, p, q, u[..m]);
    }
  }

  /** `u` and `v` are equally long and differ, if at all, within `width` consecutive bits from `i`. */
  predicate WithinBurst(u: seq<bool>, v: seq<bool>, i: nat, width: nat) {
    && |u| == |v|
    && forall k | 0 <= k < |u| && !(i <= k < i + width) :: u[k] == v[k]
  }

  /** A check of `degree` bits detects every burst of at most `degree` bits. */
  lemma BurstDetected(g: Poly, degree: nat, p: Poly, u: seq<bool>, v: seq<bool>, i: nat)
    requires Generator(g, degree) && WithinBurst(u, v, i, degree)
    requires ClockAll(g, p, u) == ClockAll(g, p, v)
    ensures u == v
  {
    hide Clock, ClockAll, Sum;
    var lo := if i <= |u| then i else |u|;
    var hi := if i + degree <= |u| then i + degree else |u|;
    assert u[..lo] == v[..lo] && u[hi..] == v[hi..];
    assert u == u[..lo] + (u[lo..hi] + u[hi..]) && v == v[..lo] + (v[lo..hi] + v[hi..]);
    var r := ClockAll(g, p, u[..lo]);
    ClockAllConcat(g, p, u[..lo], u[lo..hi] + u[hi..]);
    ClockAllConcat(g, p, v[..lo], v[lo..hi] + v[hi..]);
    ClockAllConcat(g, r, u[lo..hi], u[hi..]);
    ClockAllConcat(g, r, v[lo..hi], v[hi..]);
    var a, b := ClockAll(g, r, u[lo..hi]), ClockAll(g, r, v[lo..hi]);
    SumSelf(r);
    DifferenceBelow(g, degree, r, r, u[lo..hi], v[lo..hi]);
    ClockAllInjective(g, degree, a, b, u[hi..]);
    SumSelf(a);
    BurstBack(g, degree, r, u[lo..hi], v[lo..hi], 0);
  }

  // ----- the difference of two messages

  /** Where two messages differ. */
  function Difference(u: seq<bool>, v: seq<bool>): (d: seq<bool>)
    requires |u| == |v|
    ensures |d| == |u| && forall k | 0 <= k < |u| :: d[k] == (u[k] != v[k])
  {
    seq(|u|, k requires 0 <= k < |u| => u[k] != v[k])
  }

  lemma ClockSum(g: Poly, p: Poly, q: Poly, x: bool, y: bool)
    ensures Sum(Clock(g, p, x), Clock(g, q, y)) == Clock(g, Sum(p, q), x != y)
  {
    var p', q' := if x then Sum(p, {0}) else p, if y then Sum(q, {0}) else q;
    StepSum(g, p', q');
    assert Sum(p', q') == if x != y then Sum(Sum(p, q), {0}) else Sum(p, q);
  }

  /** The register is linear in what it starts from and in the bits together. */
  lemma {:induction false} ClockAllSum(g: Poly, p: Poly, q: Poly, u: seq<bool>, v: seq<bool>)
    requires |u| == |v|
    ensures Sum(ClockAll(g, p, u), ClockAll(g, q, v)) == ClockAll(g, Sum(p, q), Difference(u, v))
  {
    if u != [] {
      hide Clock, Sum;
      var n := |u| - 1;
      ClockAllSum(g, p, q, u[..n], v[..n]);
      ClockSum(g, ClockAll(g, p, u[..n]), ClockAll(g, q, v[..n]), u[n], v[n]);
      assert Difference(u, v)[..n] == Difference(u[..n], v[..n]);
    }
  }

  /** Whether two messages collide depends on their difference alone, not on the start of the register. */
  lemma CollideByDifference(g: Poly, p: Poly, u: seq<bool>, v: seq<bool>)
    requires |u| == |v|
    ensures ClockAll(g, p, u) == ClockAll(g, p, v) <==> ClockAll(g, {}, Difference(u, v)) == {}
  {
    hide ClockAll, Sum;
    ClockAllSum(g, p, p, u, v);
    SumSelf(p);
    SumEmpty(ClockAll(g, p, u), ClockAll(g, p, v));
  }

  lemma SumEmpty(a: Poly, b: Poly)
    ensures Sum(a, b) == {} <==> a == b
  {
    if Sum(a, b) == {} {
      assert a - b == {} && b - a == {};
    }
  }

  lemma {:induction false} NothingClocked(g: Poly, u: seq<bool>)
    requires forall k | 0 <= k < |u| :: !u[k]
    ensures ClockAll(g, {}, u) == {}
  {
    if u != [] {
      NothingClocked(g, u[..|u| - 1]);
      assert Shift({}) == {};
    }
  }

  // ----- bursts one bit longer

  /** The bits of the whole generator polynomial, its top coefficient first. */
  function GeneratorBits(g: Poly, degree: nat): (bits: seq<bool>)
    ensures |bits| == degree + 1
  {
    [true] + Coefficients(g, degree)
  }

  lemma {:induction false} StepsNone(g: Poly, n: nat)
    ensures Steps(g, {}, n) == {}
    decreases n
  {
    if n > 0 {
      assert Shift({}) == {};
      StepsNone(g, n - 1);
    }
  }

  lemma FirstBit(g: Poly)
    ensures Clock(g, {}, true) == g
  {
    assert Sum({}, {0}) == {0} && Shift({0}) == {} && Sum(g, {}) == g;
  }

  /** The generator is the one message of its length that starts with a set bit and leaves nothing. */
  lemma OnlyGenerator(g: Poly, degree: nat, e: seq<bool>)
    requires Generator(g, degree) && |e| == degree + 1 && e[0]
    ensures ClockAll(g, {}, e) == {} <==> e == GeneratorBits(g, degree)
  {
    hide ClockAll, Clock, Sum, Coefficients;
    var rest := e[1..];
    assert e == [true] + rest;
    ClockAllConcat(g, {}, [true], rest);
    ClockFirst(g);
    assert ClockAll(g, {}, e) == ClockAll(g, g, rest);
    StepsAreClocks(g, g, g, degree);
    SumSelf(g);
    StepsNone(g, degree);
    if ClockAll(g, g, rest) == {} {
      SumSelf({});
      BurstBack(g, degree, g, rest, Coefficients(g, degree), 0);
    }
  }

  lemma ClockFirst(g: Poly)
    ensures ClockAll(g, {}, [true]) == g
  {
    FirstBit(g);
    assert [true][..0] == [];
  }

  /** `d` is set exactly where the generator, moved to place `i`, is. */
  predicate IsGeneratorAt(g: Poly, degree: nat, d: seq<bool>, i: nat) {
    && i + degree < |d|
    && forall k | 0 <= k < |d| :: d[k] <==> i <= k <= i + degree && GeneratorBits(g, degree)[k - i]
  }

  /** Bits that are not set in front and behind do not matter. */
  lemma TrimZeros(g: Poly, degree: nat, d: seq<bool>, i: nat, n: nat)
    requires Generator(g, degree) && i + n <= |d|
    requires forall k | 0 <= k < |d| && !(i <= k < i + n) :: !d[k]
    ensures ClockAll(g, {}, d) == {} <==> ClockAll(g, {}, d[i..i + n]) == {}
  {
    hide ClockAll, Clock, Sum;
    assert d == d[..i] + (d[i..i + n] + d[i + n..]);
    ClockAllConcat(g, {}, d[..i], d[i..i + n] + d[i + n..]);
    NothingClocked(g, d[..i]);
    ClockAllConcat(g, {}, d[i..i + n], d[i + n..]);
    NothingClocked(g, d[i + n..]);
    var r := ClockAll(g, {}, d[i..i + n]);
    if ClockAll(g, r, d[i + n..]) == {} {
      SumSelf({});
      NothingBelow(g, degree, d[i..i + n]);
      ClockAllInjective(g, degree, r, {}, d[i + n..]);
    }
  }

  lemma NothingBelow(g: Poly, degree: nat, u: seq<bool>)
    requires Generator(g, degree)
    ensures Below(Sum(ClockAll(g, {}, u), {}), degree)
  {
    var zeros := seq(|u|, k => false);
    SumSelf({});
    DifferenceBelow(g, degree, {}, {}, u, zeros);
    NothingClocked(g, zeros);
  }

  /**
    Two messages that differ within `degree + 1` bits from `i` collide exactly if they are equal or
    differ by the generator polynomial, whatever the register started from.
   */
  lemma LongerBurst(g: Poly, degree: nat, p: Poly, u: seq<bool>, v: seq<bool>, i: nat)
    requires Generator(g, degree) && WithinBurst(u, v, i, degree + 1)
    ensures ClockAll(g, p, u) == ClockAll(g, p, v) <==>
      u == v || IsGeneratorAt(g, degree, Difference(u, v), i)
  {
    hide ClockAll, GeneratorBits;
    var d := Difference(u, v);
    if i + degree < |u| && d[i] {
      var e := d[i..i + degree + 1];
      CollideByDifference(g, p, u, v);
      TrimZeros(g, degree, d, i, degree + 1);
      OnlyGenerator(g, degree, e);
      assert e == GeneratorBits(g, degree) <==> IsGeneratorAt(g, degree, d, i) by {
        SameBits(e, GeneratorBits(g, degree), d, i);
      }
    } else {
      if i + degree < |u| {
        assert WithinBurst(u, v, i + 1, degree);
        assert GeneratorBits(g, degree)[0] by { StartsSet(g, degree); }
      }
      var j := if i + degree < |u| then i + 1 else i;
      if ClockAll(g, p, u) == ClockAll(g, p, v) {
        BurstDetected(g, degree, p, u, v, j);
      }
    }
  }

  lemma StartsSet(g: Poly, degree: nat)
    ensures GeneratorBits(g, degree)[0]
  {
  }

  lemma SameBits(e: seq<bool>, bits: seq<bool>, d: seq<bool>, i: nat)
    requires i + |bits| <= |d| && e == d[i..i + |bits|]
    requires forall k | 0 <= k < |d| && !(i <= k < i + |bits|) :: !d[k]
    ensures e == bits <==> forall k | 0 <= k < |d| :: d[k] <==> i <= k < i + |bits| && bits[k - i]
  {
    assert forall j | 0 <= j < |bits| :: e[j] == d[i + j];
    assert forall k | i <= k < i + |bits| :: d[k] == e[k - i];
    if forall k | 0 <= k < |d| :: d[k] <==> i <= k < i + |bits| && bits[k - i] {
      forall j | 0 <= j < |bits| ensures e[j] == bits[j] {
        assert d[i + j] == bits[i + j - i];
      }
    }
  }

  // ----- odd errors

  /** An odd number of bits is set. */
  predicate OddOnes(u: seq<bool>) {
    u != [] && OddOnes(u[..|u| - 1]) != u[|u| - 1]
  }

  predicate Odd(p: Poly) {
    |p| % 2 == 1
  }

  lemma SizeSplit(a: Poly, b: Poly)
    ensures |a| == |a - b| + |a * b|
  {
    assert a == (a - b) + (a * b);
  }

  lemma SumSize(a: Poly, b: Poly)
    ensures |Sum(a, b)| == |a - b| + |b - a|
  {
  }

  lemma SumOdd(a: Poly, b: Poly)
    ensures Odd(Sum(a, b)) <==> Odd(a) != Odd(b)
  {
    SizeSplit(a, b);
    SizeSplit(b, a);
    assert a * b == b * a;
    SumSize(a, b);
    hide Sum;
  }

  lemma ShiftWithout(p: Poly, e: nat)
    requires e in p && e > 0
    ensures Shift(p) == Shift(p - {e}) + {e - 1} && e - 1 !in Shift(p - {e})
  {
    hide Shift;
    forall x: nat ensures x in Shift(p) <==> x in Shift(p - {e}) + {e - 1} {
      assert x in Shift(p) <==> x + 1 in p;
      assert x in Shift(p - {e}) <==> x + 1 in p - {e};
    }
  }

  /** Shifting moves every exponent but zero. */
  lemma {:induction false} ShiftSize(p: Poly)
    requires 0 !in p
    ensures |Shift(p)| == |p|
    decreases |p|
  {
    hide Shift;
    if e: nat :| e in p {
      ShiftSize(p - {e});
      ShiftWithout(p, e);
    } else {
      assert Shift(p) == {} by {
        forall x: nat ensures x !in Shift(p) {
          assert x in Shift(p) <==> x + 1 in p;
        }
      }
    }
  }

  lemma ShiftDropsZero(p: Poly)
    ensures Shift(p) == Shift(p - {0})
  {
    hide Shift;
    forall x: nat ensures x in Shift(p) <==> x in Shift(p - {0}) {
      assert x in Shift(p) <==> x + 1 in p;
      assert x in Shift(p - {0}) <==> x + 1 in p - {0};
    }
  }

  lemma WithoutZero(p: Poly)
    ensures |p| == |p - {0}| + if 0 in p then 1 else 0
  {
    if 0 in p {
      assert p == (p - {0}) + {0};
    } else {
      assert p == p - {0};
    }
  }

  lemma ShiftOdd(p: Poly)
    ensures Odd(Shift(p)) <==> Odd(p) != (0 in p)
  {
    hide Shift;
    ShiftDropsZero(p);
    ShiftSize(p - {0});
    WithoutZero(p);
  }

  /** A generator with an odd number of coefficients below the top one keeps the parity of the register. */
  lemma StepOdd(g: Poly, p: Poly)
    requires Odd(g)
    ensures Odd(Step(g, p)) <==> Odd(p)
  {
    hide Odd, Sum, Shift;
    ShiftOdd(p);
    SumOdd(g, Shift(p));
  }

  lemma {:induction false} ClockAllOdd(g: Poly, p: Poly, u: seq<bool>)
    requires Odd(g)
    ensures Odd(ClockAll(g, p, u)) <==> Odd(p) != OddOnes(u)
  {
    if u != [] {
      hide Odd, Clock;
      var n := |u| - 1;
      ClockAllOdd(g, p, u[..n]);
      ClockOdd(g, ClockAll(g, p, u[..n]), u[n]);
    }
  }

  lemma ClockOdd(g: Poly, p: Poly, x: bool)
    requires Odd(g)
    ensures Odd(Clock(g, p, x)) <==> Odd(p) != x
  {
    assert Odd({0});
    hide Odd, Sum, Step;
    SumOdd(p, {0});
    StepOdd(g, if x then Sum(p, {0}) else p);
  }

  /** Such a check detects every error in an odd number of bits. */
  lemma OddDetected(g: Poly, p: Poly, u: seq<bool>, v: seq<bool>)
    requires Odd(g) && |u| == |v| && OddOnes(Difference(u, v))
    ensures ClockAll(g, p, u) != ClockAll(g, p, v)
  {
    assert !Odd({});
    hide *;
    CollideByDifference(g, p, u, v);
    ClockAllOdd(g, {}, Difference(u, v));
  }
}
