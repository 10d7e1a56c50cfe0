/** The flag macros of src/cpu/parse.c. They are formulas on the highest bits of
  the operands and the result; an operand of a width is a number below twice
  `half`, the weight of its highest bit. */
module FlagFormulas {

  /** The highest bit of a number. */
  predicate Top(half: nat, x: nat) { x >= half }

  predicate AddCarry(half: nat, x: nat, y: nat, z: nat) {
    (Top(half, x) && Top(half, y)) || (Top(half, x) && !Top(half, z)) || (Top(half, y) && !Top(half, z))
  }

  predicate SubCarry(half: nat, x: nat, y: nat, z: nat) {
    !((Top(half, x) && !Top(half, y)) || (Top(half, x) && !Top(half, z)) || (!Top(half, y) && !Top(half, z)))
  }

  predicate AddOverflow(half: nat, x: nat, y: nat, z: nat) {
    (Top(half, x) && Top(half, y) && !Top(half, z)) || (!Top(half, x) && !Top(half, y) && Top(half, z))
  }

  predicate SubOverflow(half: nat, x: nat, y: nat, z: nat) {
    (Top(half, x) && !Top(half, y) && !Top(half, z)) || (!Top(half, x) && Top(half, y) && Top(half, z))
  }

  /** The flags that the conditions test. */
  datatype Flags = Flags(cf: bool, zf: bool, sf: bool, of: bool) {
    predicate B() { cf }
    predicate BE() { B() || zf }
    predicate L() { sf != of }
    predicate LE() { L() || zf }
  }

  function Bit(b: bool): nat { if b then 1 else 0 }

  /** The two's complement meaning of a number. */
  function Signed(half: nat, x: nat): int {
    if Top(half, x) then x - 2 * half else x
  }

  /** The result of a width: a sum or difference that wraps at most once. */
  function Wrap(half: nat, x: int): int {
    if x < 0 then x + 2 * half else if x < 2 * half then x else x - 2 * half
  }

  /** A sum with carry in, and the flags of an addition. */
  function Add(half: nat, x: nat, y: nat, c: bool): (z: nat)
    requires x < 2 * half && y < 2 * half
    ensures z < 2 * half
  {
    Wrap(half, x + y + Bit(c))
  }

  function AddFlags(half: nat, x: nat, y: nat, z: nat): Flags {
    Flags(AddCarry(half, x, y, z), z == 0, Top(half, z), AddOverflow(half, x, y, z))
  }

  /** A difference with borrow in, and the flags of a subtraction. */
  function Sub(half: nat, x: nat, y: nat, c: bool): (z: nat)
    requires x < 2 * half && y < 2 * half
    ensures z < 2 * half
  {
    Wrap(half, x - y - Bit(c))
  }

  function SubFlags(half: nat, x: nat, y: nat, z: nat): Flags {
    Flags(SubCarry(half, x, y, z), z == 0, Top(half, z), SubOverflow(half, x, y, z))
  }

  /** After an addition, the carry is what the result lacks; overflow means that
    the signed sum does not fit. */
  lemma AddMeaning(half: nat, x: nat, y: nat, c: bool)
    requires x < 2 * half && y < 2 * half
    ensures var z := Add(half, x, y, c); var f := AddFlags(half, x, y, z);
      && z + 2 * half * Bit(f.cf) == x + y + Bit(c)
      && (f.of <==> !(0 <= half + Signed(half, x) + Signed(half, y) + Bit(c) < 2 * half))
  {
  }

  /** After a subtraction, the borrow is what the result has too much; overflow
    means that the signed difference does not fit; and the sign, corrected by
    overflow, is the sign of the signed difference. */
  lemma SubMeaning(half: nat, x: nat, y: nat, c: bool)
    requires x < 2 * half && y < 2 * half
    ensures var z := Sub(half, x, y, c); var f := SubFlags(half, x, y, z);
      && z + y + Bit(c) == x + 2 * half * Bit(f.cf)
      && (f.of <==> !(0 <= half + Signed(half, x) - Signed(half, y) - Bit(c) < 2 * half))
      && (f.L() <==> Signed(half, x) < Signed(half, y) + Bit(c))
  {
  }

  /** After a comparison every condition is the comparison it is named for. */
  lemma CompareMeaning(half: nat, x: nat, y: nat)
    requires x < 2 * half && y < 2 * half
    ensures var f := SubFlags(half, x, y, Sub(half, x, y, false));
      && (f.B() <==> x < y) && (f.BE() <==> x <= y)
      && (f.L() <==> Signed(half, x) < Signed(half, y)) && (f.LE() <==> Signed(half, x) <= Signed(half, y))
  {
    SubMeaning(half, x, y, false);
  }

  // Numbers of several limbs, the lowest first.

  predicate Limbs(half: nat, s: seq<nat>) {
    forall i :: 0 <= i < |s| ==> s[i] < 2 * half
  }

  /** The weight of limb `n`. */
  function Weight(half: nat, n: nat): nat {
    if n == 0 then 1 else 2 * half * Weight(half, n - 1)
  }

  function LimbsValue(half: nat, s: seq<nat>): nat {
    if |s| == 0 then 0 else s[0] + 2 * half * LimbsValue(half, s[1..])
  }

  /** A chain of additions, each carrying into the next: the limbs of the result
    and the flags after the last. */
  function AddChain(half: nat, x: seq<nat>, y: seq<nat>, f: Flags): (r: (seq<nat>, Flags))
    requires |x| == |y| && Limbs(half, x) && Limbs(half, y)
    ensures |r.0| == |x| && Limbs(half, r.0)
  {
    if |x| == 0 then ([], f)
    else
      var z := Add(half, x[0], y[0], f.cf);
      var (rest, flags) := AddChain(half, x[1..], y[1..], AddFlags(half, x[0], y[0], z));
      ([z] + rest, flags)
  }

  /** A chain of subtractions, each borrowing from the next. */
  function SubChain(half: nat, x: seq<nat>, y: seq<nat>, f: Flags): (r: (seq<nat>, Flags))
    requires |x| == |y| && Limbs(half, x) && Limbs(half, y)
    ensures |r.0| == |x| && Limbs(half, r.0)
  {
    if |x| == 0 then ([], f)
    else
      var z := Sub(half, x[0], y[0], f.cf);
      var (rest, flags) := SubChain(half, x[1..], y[1..], SubFlags(half, x[0], y[0], z));
      ([z] + rest, flags)
  }

  lemma Combine(full: nat, n: nat, a: nat, b: nat)
    ensures full * (n + a) == full * n + full * a
    ensures full * (a * b) == full * a * b
  {
    assert full * (a * b) == (full * a) * b;
  }

  /** A chain of additions gives the exact sum of numbers of any length, the last
    carry being its highest digit. */
  lemma {:induction false} AddChainIsSum(half: nat, x: seq<nat>, y: seq<nat>, f: Flags)
    requires |x| == |y| && Limbs(half, x) && Limbs(half, y)
    ensures var (z, flags) := AddChain(half, x, y, f);
      LimbsValue(half, z) + Weight(half, |x|) * Bit(flags.cf) == LimbsValue(half, x) + LimbsValue(half, y) + Bit(f.cf)
  {
    if |x| == 0 {
    } else {
      var full := 2 * half;
      var z0 := Add(half, x[0], y[0], f.cf);
      var f0 := AddFlags(half, x[0], y[0], z0);
      var (rest, flags) := AddChain(half, x[1..], y[1..], f0);
      AddChainIsSum(half, x[1..], y[1..], f0);
      AddMeaning(half, x[0], y[0], f.cf);
      Step(full, LimbsValue(half, rest), Weight(half, |x| - 1), Bit(flags.cf), LimbsValue(half, x[1..]),
        LimbsValue(half, y[1..]), Bit(f0.cf));
      assert ([z0] + rest)[1..] == rest;
    }
  }

  /** One limb up. */
  lemma Step(full: nat, z: nat, w: nat, c': nat, x: nat, y: nat, c: nat)
    requires z + w * c' == x + y + c
    ensures full * z + full * w * c' == full * x + full * y + full * c
  {
    Combine(full, z, w, c');
    assert full * (z + w * c') == full * z + full * (w * c');
    assert full * (x + y + c) == full * x + full * y + full * c;
  }

  /** A chain of subtractions gives the exact difference; the last borrow is the
    unsigned comparison of the whole numbers. */
  lemma {:induction false} SubChainIsDifference(half: nat, x: seq<nat>, y: seq<nat>, f: Flags)
    requires |x| == |y| && Limbs(half, x) && Limbs(half, y)
    ensures var (z, flags) := SubChain(half, x, y, f);
      LimbsValue(half, z) + LimbsValue(half, y) + Bit(f.cf) == LimbsValue(half, x) + Weight(half, |x|) * Bit(flags.cf)
  {
    if |x| == 0 {
    } else {
      var full := 2 * half;
      var z0 := Sub(half, x[0], y[0], f.cf);
      var f0 := SubFlags(half, x[0], y[0], z0);
      var (rest, flags) := SubChain(half, x[1..], y[1..], f0);
      SubChainIsDifference(half, x[1..], y[1..], f0);
      SubMeaning(half, x[0], y[0], f.cf);
      Step(full, LimbsValue(half, x[1..]), Weight(half, |x| - 1), Bit(flags.cf), LimbsValue(half, rest),
        LimbsValue(half, y[1..]), Bit(f0.cf));
      assert ([z0] + rest)[1..] == rest;
    }
  }

  lemma {:induction false} LimbsFit(half: nat, s: seq<nat>)
    requires Limbs(half, s)
    ensures LimbsValue(half, s) < Weight(half, |s|)
  {
    if |s| == 0 {
    } else {
      LimbsFit(half, s[1..]);
      FitsOneUp(2 * half, s[0], LimbsValue(half, s[1..]), Weight(half, |s| - 1));
    }
  }

  lemma FitsOneUp(full: nat, x: nat, n: nat, w: nat)
    requires x < full && n < w
    ensures x + full * n < full * w
  {
    var k: nat := w - n - 1;
    var rest: nat := full * k;
    assert w == n + 1 + k;
    assert full * w == full * n + full + rest;
  }

  /** The two's complement meaning of a number of several limbs. */
  function SignedLimbs(half: nat, s: seq<nat>): int
    requires |s| > 0
  {
    if |s| == 1 then Signed(half, s[0]) else s[0] + 2 * half * SignedLimbs(half, s[1..])
  }

  lemma Difference(full: nat, a: int, b: int)
    ensures full * (a - b) == full * a - full * b
  {
  }

  lemma {:induction false} SignedLimbsMeaning(half: nat, s: seq<nat>)
    requires |s| > 0
    ensures SignedLimbs(half, s) == LimbsValue(half, s) - (if Top(half, s[|s| - 1]) then Weight(half, |s|) else 0)
  {
    if |s| > 1 {
      SignedLimbsMeaning(half, s[1..]);
      Difference(2 * half, LimbsValue(half, s[1..]), Weight(half, |s| - 1));
    } else {
      assert LimbsValue(half, s[1..]) == 0 && Weight(half, 0) == 1;
    }
  }

  /** A lower limb decides a comparison only through its borrow. */
  lemma LimbCompare(full: nat, d: int, e: int)
    requires 0 <= e + full < 2 * full
    ensures e < full * d <==> if e < 0 then d >= 0 else d >= 1
  {
    if d >= 1 {
      assert full * d >= full;
    } else if d <= -1 {
      assert full * d <= full * -1;
    }
  }

  lemma LowerLimb(full: nat, x: nat, y: nat, c: nat, high: int, high': int)
    requires x < full && y < full && c <= 1
    ensures x + full * high < y + full * high' + c <==> high < high' + (if x < y + c then 1 else 0)
  {
    LimbCompare(full, high' - high, x - y - c);
    Difference(full, high', high);
  }

  /** After a chain of subtractions, the conditions B and L compare the whole
    numbers, unsigned and signed. */
  lemma {:induction false} SubChainCompares(half: nat, x: seq<nat>, y: seq<nat>, f: Flags)
    requires |x| == |y| > 0 && Limbs(half, x) && Limbs(half, y)
    ensures var flags := SubChain(half, x, y, f).1;
      && (flags.B() <==> LimbsValue(half, x) < LimbsValue(half, y) + Bit(f.cf))
      && (flags.L() <==> SignedLimbs(half, x) < SignedLimbs(half, y) + Bit(f.cf))
  {
    SubChainIsDifference(half, x, y, f);
    LimbsFit(half, SubChain(half, x, y, f).0);
    SignedChain(half, x, y, f);
  }

  lemma {:induction false} SignedChain(half: nat, x: seq<nat>, y: seq<nat>, f: Flags)
    requires |x| == |y| > 0 && Limbs(half, x) && Limbs(half, y)
    ensures SubChain(half, x, y, f).1.L() <==> SignedLimbs(half, x) < SignedLimbs(half, y) + Bit(f.cf)
  {
    var z0 := Sub(half, x[0], y[0], f.cf);
    var f0 := SubFlags(half, x[0], y[0], z0);
    SubMeaning(half, x[0], y[0], f.cf);
    assert SubChain(half, x, y, f).1 == SubChain(half, x[1..], y[1..], f0).1;
    if |x| > 1 {
      SignedChain(half, x[1..], y[1..], f0);
      LowerLimb(2 * half, x[0], y[0], Bit(f.cf), SignedLimbs(half, x[1..]), SignedLimbs(half, y[1..]));
    } else {
      assert SubChain(half, x[1..], y[1..], f0).1 == f0;
    }
  }
}
