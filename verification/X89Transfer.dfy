/** DMA transfers of the Intel 8089 (src/cpu/x89.c). A transfer copies one unit
  per channel step, optionally translated through a 256-byte table and compared
  against a mask; it stops when the byte count runs out or a compared unit
  fires, and the cause selects where the channel program resumes. */
module X89Transfer {
  import opened Arithmetic
  import opened ByteMemory

  type u20 = x: int | 0 <= x < 0x10_0000

  const GA := 0
  const GB := 1
  const GC := 2
  const BC := 3
  const TP := 4
  const IX := 5
  const CC := 6
  const MC := 7

  /** A pointer register: a 20-bit address and the tag that selects I/O space. */
  datatype Pointer = Pointer(address: u20, tag: bool)

  /** Adds to a 20-bit register. */
  function Add(a: u20, n: nat): u20 {
    (a + n) % 0x10_0000
  }

  /** Whether the masked bits of a unit equal those of the pattern. */
  predicate MaskedMatch(data: word, mc: word) {
    (data as bv16 ^ (mc as bv16 & 0xFF)) & ((mc as bv16 >> 8) & 0xFF) == 0
  }

  /** The registers a transfer does not change, and their fields. */
  datatype Config = Config(cc: u20, mc: u20, table: u20, wideSource: bool, wideDestination: bool) {
    function SearchMode(): nat { cc % 8 }
    function CountMode(): nat { cc / 8 % 4 }
    predicate Single() { cc / 0x80 % 2 == 1 }
    predicate FromGB() { cc / 0x400 % 2 == 1 }
    predicate Translate() { cc / 0x2000 % 2 == 1 }
    function SourceSize(): nat { if wideSource then 2 else 1 }
    function DestinationSize(): nat { if wideDestination then 2 else 1 }
    function SourceStride(): nat { if cc / 0x4000 % 2 == 1 then SourceSize() else 0 }
    function DestinationStride(): nat { if cc / 0x8000 % 2 == 1 then DestinationSize() else 0 }

    predicate Matches(data: word) { MaskedMatch(data, mc % 0x1_0000) }

    /** Whether this unit ends the transfer. */
    predicate Fires(data: word) {
      if 1 <= SearchMode() <= 3 then Matches(data) else if 5 <= SearchMode() then !Matches(data) else false
    }

    /** The displacements of the two causes of termination. */
    function SearchDisplacement(): nat { if SearchMode() % 4 == 0 then 0 else 4 * (SearchMode() % 4 - 1) }
    function CountDisplacement(): nat { if CountMode() == 0 then 0 else 4 * (CountMode() - 1) }

    /** What is written for a unit, in memory `m`. */
    function Value(m: Memory, data: word): word {
      if Translate() then m(Add(table, data % 0x100)) else data
    }
  }

  // When a unit ends the transfer, in binary digits.

  lemma LowDigits(x: nat)
    ensures (Digit(x, 0) <==> x % 2 == 1) && (Digit(x, 1) <==> x / 2 % 2 == 1)
    ensures (Digit(x, 2) <==> x / 4 % 2 == 1) && (Digit(x, 3) <==> x / 8 % 2 == 1)
    ensures (Digit(x, 4) <==> x / 0x10 % 2 == 1) && (Digit(x, 5) <==> x / 0x20 % 2 == 1)
    ensures (Digit(x, 6) <==> x / 0x40 % 2 == 1) && (Digit(x, 7) <==> x / 0x80 % 2 == 1)
  {
    hide Digit;
    DigitIsQuotient(x, 0);
    DigitIsQuotient(x, 1);
    DigitIsQuotient(x, 2);
    DigitIsQuotient(x, 3);
    DigitIsQuotient(x, 4);
    DigitIsQuotient(x, 5);
    DigitIsQuotient(x, 6);
    DigitIsQuotient(x, 7);
    assert Power2(3) == 8;
    assert Power2(5) == 0x20;
  }

  lemma HighDigits(x: nat)
    ensures (Digit(x, 8) <==> x / 0x100 % 2 == 1) && (Digit(x, 9) <==> x / 0x200 % 2 == 1)
    ensures (Digit(x, 10) <==> x / 0x400 % 2 == 1) && (Digit(x, 11) <==> x / 0x800 % 2 == 1)
    ensures (Digit(x, 12) <==> x / 0x1000 % 2 == 1) && (Digit(x, 13) <==> x / 0x2000 % 2 == 1)
    ensures (Digit(x, 14) <==> x / 0x4000 % 2 == 1) && (Digit(x, 15) <==> x / 0x8000 % 2 == 1)
  {
    hide Digit;
    DigitIsQuotient(x, 8);
    DigitIsQuotient(x, 9);
    DigitIsQuotient(x, 10);
    DigitIsQuotient(x, 11);
    DigitIsQuotient(x, 12);
    DigitIsQuotient(x, 13);
    DigitIsQuotient(x, 14);
    DigitIsQuotient(x, 15);
    assert Power2(3) == 8;
    assert Power2(6) == 0x40;
    assert Power2(9) == 0x200;
    assert Power2(12) == 0x1000;
  }

  /** The digits of a word as bits. */
  lemma LowBits(x: word)
    ensures var b := x as bv16;
      && (b & 0x01 != 0 <==> x % 2 == 1) && (b & 0x02 != 0 <==> x / 2 % 2 == 1)
      && (b & 0x04 != 0 <==> x / 4 % 2 == 1) && (b & 0x08 != 0 <==> x / 8 % 2 == 1)
      && (b & 0x10 != 0 <==> x / 0x10 % 2 == 1) && (b & 0x20 != 0 <==> x / 0x20 % 2 == 1)
      && (b & 0x40 != 0 <==> x / 0x40 % 2 == 1) && (b & 0x80 != 0 <==> x / 0x80 % 2 == 1)
  {
  }

  lemma HighBits(x: word)
    ensures var b := x as bv16;
      && (b & 0x0100 != 0 <==> x / 0x0100 % 2 == 1) && (b & 0x0200 != 0 <==> x / 0x0200 % 2 == 1)
      && (b & 0x0400 != 0 <==> x / 0x0400 % 2 == 1) && (b & 0x0800 != 0 <==> x / 0x0800 % 2 == 1)
      && (b & 0x1000 != 0 <==> x / 0x1000 % 2 == 1) && (b & 0x2000 != 0 <==> x / 0x2000 % 2 == 1)
      && (b & 0x4000 != 0 <==> x / 0x4000 % 2 == 1) && (b & 0x8000 != 0 <==> x / 0x8000 % 2 == 1)
  {
  }

  /** The comparison of the code, bit by bit. */
  lemma MaskedEqual(d: bv16, m: bv16)
    ensures (d ^ (m & 0xFF)) & ((m >> 8) & 0xFF) == 0 <==>
      && (m & 0x0100 != 0 ==> (d & 0x01 != 0 <==> m & 0x01 != 0))
      && (m & 0x0200 != 0 ==> (d & 0x02 != 0 <==> m & 0x02 != 0))
      && (m & 0x0400 != 0 ==> (d & 0x04 != 0 <==> m & 0x04 != 0))
      && (m & 0x0800 != 0 ==> (d & 0x08 != 0 <==> m & 0x08 != 0))
      && (m & 0x1000 != 0 ==> (d & 0x10 != 0 <==> m & 0x10 != 0))
      && (m & 0x2000 != 0 ==> (d & 0x20 != 0 <==> m & 0x20 != 0))
      && (m & 0x4000 != 0 ==> (d & 0x40 != 0 <==> m & 0x40 != 0))
      && (m & 0x8000 != 0 ==> (d & 0x80 != 0 <==> m & 0x80 != 0))
  {
  }

  /** Two words agree in a digit if it is set in the mask. */
  predicate AgreeIfSet(d: nat, m: nat, i: nat) {
    Digit(m, 8 + i) ==> (Digit(d, i) <==> Digit(m, i))
  }

  lemma MatchInEight(d: word, m: word)
    ensures MaskedMatch(d, m) <==>
      && AgreeIfSet(d, m, 0) && AgreeIfSet(d, m, 1) && AgreeIfSet(d, m, 2) && AgreeIfSet(d, m, 3)
      && AgreeIfSet(d, m, 4) && AgreeIfSet(d, m, 5) && AgreeIfSet(d, m, 6) && AgreeIfSet(d, m, 7)
  {
    hide Digit;
    MaskedEqual(d as bv16, m as bv16);
    LowBits(d);
    LowBits(m);
    HighBits(m);
    LowDigits(d);
    LowDigits(m);
    HighDigits(m);
  }

  lemma EightDigits(d: nat, m: nat)
    ensures (forall i: nat :: i < 8 ==> AgreeIfSet(d, m, i)) <==>
      && AgreeIfSet(d, m, 0) && AgreeIfSet(d, m, 1) && AgreeIfSet(d, m, 2) && AgreeIfSet(d, m, 3)
      && AgreeIfSet(d, m, 4) && AgreeIfSet(d, m, 5) && AgreeIfSet(d, m, 6) && AgreeIfSet(d, m, 7)
  {
    hide AgreeIfSet;
    if && AgreeIfSet(d, m, 0) && AgreeIfSet(d, m, 1) && AgreeIfSet(d, m, 2) && AgreeIfSet(d, m, 3)
       && AgreeIfSet(d, m, 4) && AgreeIfSet(d, m, 5) && AgreeIfSet(d, m, 6) && AgreeIfSet(d, m, 7) {
      forall i: nat | i < 8
        ensures AgreeIfSet(d, m, i)
      {
      }
    }
  }

  /** The digits of MC are those of its low word. */
  lemma SameAgreement(d: nat, mc: nat, i: nat)
    requires i < 8
    ensures AgreeIfSet(d, mc % 0x1_0000, i)
      <==> Digit(mc / 0x100, i) ==> (Digit(d, i) <==> Digit(mc, i))
  {
    hide Digit;
    assert Power2(16) == 0x1_0000 && Power2(8) == 0x100 by {
      assert Power2(4) == 0x10;
      assert Power2(8) == 0x100;
      assert Power2(12) == 0x1000;
    }
    hide Power2;
    DigitsJoined(mc % 0x100, 8, mc / 0x100, 8 + i);
    DigitsJoined(mc % 0x1_0000, 16, mc / 0x1_0000, i);
    DigitsJoined(mc % 0x1_0000, 16, mc / 0x1_0000, 8 + i);
  }

  /** A unit agrees with the low byte of MC in every binary digit that is set in
    the high byte. */
  ghost predicate Agrees(mc: nat, data: nat) {
    forall i :: 0 <= i < 8 && Digit(mc / 0x100, i) ==> (Digit(data, i) <==> Digit(mc, i))
  }

  lemma MatchesMeaning(c: Config, data: word)
    ensures c.Matches(data) <==> Agrees(c.mc, data)
  {
    hide Digit;
    hide AgreeIfSet;
    hide MaskedMatch;
    var m: word := c.mc % 0x1_0000;
    MatchInEight(data, m);
    EightDigits(data, m);
    if c.Matches(data) {
      forall i: nat | i < 8 && Digit(c.mc / 0x100, i)
        ensures Digit(data, i) <==> Digit(c.mc, i)
      {
        SameAgreement(data, c.mc, i);
        assert AgreeIfSet(data, m, i);
      }
    } else {
      var i: nat :| i < 8 && !AgreeIfSet(data, m, i);
      SameAgreement(data, c.mc, i);
    }
  }

  /** When a unit ends the transfer, in terms of CC and MC. */
  ghost predicate Ends(cc: nat, mc: nat, data: nat) {
    (1 <= cc % 8 <= 3 && Agrees(mc, data)) || (5 <= cc % 8 <= 7 && !Agrees(mc, data))
  }

  lemma FiresMeaning(c: Config, data: word)
    ensures c.Fires(data) <==> Ends(c.cc, c.mc, data)
  {
    hide Config.Matches;
    hide Agrees;
    MatchesMeaning(c, data);
  }

  lemma LowMode(n: nat)
    ensures n % 8 % 4 == n % 4
  {
  }

  /** The displacements of the program pointer. */
  lemma Displacements(c: Config)
    ensures c.SearchDisplacement() == if c.cc % 4 == 2 then 4 else if c.cc % 4 == 3 then 8 else 0
    ensures c.CountDisplacement()
      == if c.cc / 8 % 4 == 2 then 4 else if c.cc / 8 % 4 == 3 then 8 else 0
  {
    LowMode(c.cc);
    assert c.SearchMode() == c.cc % 8 && c.CountMode() == c.cc / 8 % 4;
    hide Config.SearchMode;
    hide Config.CountMode;
  }

  function Low(data: word): byte { data % 0x100 }

  function LoadUnit(m: Memory, a: nat, size: nat): word {
    if size == 1 then m(a) else Word(m, a)
  }

  function StoreUnit(m: Memory, a: nat, size: nat, data: word): Memory {
    if size == 1 then Store<byte>(m, a, [Low(data)]) else StoreWord(m, a, data)
  }

  /** The registers and the memory that a transfer changes. */
  datatype Dma = Dma(source: u20, destination: u20, count: u20, program: u20, active: bool, memory: Memory)

  /** One channel step: the new state, and whether a unit was transferred. */
  function Step(c: Config, s: Dma): (Dma, bool) {
    if !s.active then (s, false)
    else if c.CountMode() != 0 && s.count % 0x1_0000 == 0 then
      (s.(active := false, program := Add(s.program, c.CountDisplacement())), false)
    else
      var data := LoadUnit(s.memory, s.source, c.SourceSize());
      (Dma(Add(s.source, c.SourceStride()), Add(s.destination, c.DestinationStride()), (s.count + 0xFFFF) % 0x1_0000,
           if c.Fires(data) then Add(s.program, c.SearchDisplacement()) else s.program,
           !c.Single() && !c.Fires(data),
           StoreUnit(s.memory, s.destination, c.DestinationSize(), c.Value(s.memory, data))), true)
  }

  /** The address of source unit and destination unit `i` of a transfer from `s`. */
  function SourceAt(c: Config, s: Dma, i: nat): u20 { Add(s.source, i * c.SourceStride()) }

  function DestinationAt(c: Config, s: Dma, i: nat): u20 { Add(s.destination, i * c.DestinationStride()) }

  /** Memory after the first `n` units have been written, each read and
    translated when its turn comes. */
  function Written(c: Config, s: Dma, n: nat): Memory {
    if n == 0 then s.memory
    else
      var m := Written(c, s, n - 1);
      StoreUnit(m, DestinationAt(c, s, n - 1), c.DestinationSize(),
                c.Value(m, LoadUnit(m, SourceAt(c, s, n - 1), c.SourceSize())))
  }

  /** Unit `i` as the transfer reads it, and what it writes for it. */
  function UnitAt(c: Config, s: Dma, i: nat): word {
    LoadUnit(Written(c, s, i), SourceAt(c, s, i), c.SourceSize())
  }

  function ValueAt(c: Config, s: Dma, i: nat): word { c.Value(Written(c, s, i), UnitAt(c, s, i)) }

  /** Source unit `i` as it is before the transfer. */
  function SourceUnit(c: Config, s: Dma, i: nat): word { LoadUnit(s.memory, SourceAt(c, s, i), c.SourceSize()) }

  /** The number of units the byte count allows. */
  function Limit(s: Dma): nat { s.count % 0x1_0000 }

  /** The state after `n` units none of which ended the transfer. */
  function After(c: Config, s: Dma, n: nat): Dma
    requires n <= Limit(s)
  {
    Dma(SourceAt(c, s, n), DestinationAt(c, s, n), if n == 0 then s.count else Limit(s) - n, s.program, s.active,
        Written(c, s, n))
  }

  /** The first unit from `i` on that fires, or the count if none does. */
  function FirstFiring(c: Config, s: Dma, i: nat): (k: nat)
    requires i <= Limit(s)
    ensures i <= k <= Limit(s)
    decreases Limit(s) - i
  {
    if i == Limit(s) || c.Fires(UnitAt(c, s, i)) then i else FirstFiring(c, s, i + 1)
  }

  lemma {:induction false} FirstFires(c: Config, s: Dma, i: nat)
    requires i <= Limit(s)
    ensures var k := FirstFiring(c, s, i);
      (forall j :: i <= j < k ==> !c.Fires(UnitAt(c, s, j))) && (k < Limit(s) ==> c.Fires(UnitAt(c, s, k)))
    decreases Limit(s) - i
  {
    hide Config.Fires;
    hide UnitAt;
    hide Written;
    if i < Limit(s) && !c.Fires(UnitAt(c, s, i)) {
      FirstFires(c, s, i + 1);
    }
  }

  /** The state that a transfer with both causes armed ends in: the first firing
    unit is still transferred; the cause that came first displaces the program
    pointer. */
  function Final(c: Config, s: Dma): Dma {
    var stop := FirstFiring(c, s, 0);
    if stop < Limit(s) then
      After(c, s, stop + 1).(active := false, program := Add(s.program, c.SearchDisplacement()))
    else
      After(c, s, stop).(active := false, program := Add(s.program, c.CountDisplacement()))
  }

  predicate Overlap(a: nat, n: nat, b: nat, k: nat) {
    a < b + k && b < a + n
  }

  /** No unit is read after a write to it, and the table is not written. */
  ghost predicate Independent(c: Config, s: Dma, n: nat) {
    && (forall i, j :: 0 <= j < i < n ==>
      !Overlap(DestinationAt(c, s, j), c.DestinationSize(), SourceAt(c, s, i), c.SourceSize()))
    && (c.Translate() ==> forall j, x: byte :: 0 <= j < n ==>
      !Overlap(DestinationAt(c, s, j), c.DestinationSize(), Add(c.table, x), 1))
  }

  lemma StoreUnitElsewhere(m: Memory, a: nat, size: nat, data: word, b: nat, size': nat)
    requires 1 <= size <= 2 && 1 <= size' <= 2 && !Overlap(a, size, b, size')
    ensures LoadUnit(StoreUnit(m, a, size, data), b, size') == LoadUnit(m, b, size')
  {
  }

  lemma StoreUnitThere(m: Memory, a: nat, size: nat, data: word)
    requires 1 <= size <= 2
    ensures LoadUnit(StoreUnit(m, a, size, data), a, size) == Fit(data, size)
  {
  }

  lemma LoadByte(m: Memory, a: nat)
    ensures LoadUnit(m, a, 1) == m(a)
  {
  }

  /** Units still to be read are as they were. */
  lemma {:induction false} SourceUnchanged(c: Config, s: Dma, n: nat, i: nat, limit: nat)
    requires Independent(c, s, limit) && n <= i < limit
    ensures LoadUnit(Written(c, s, n), SourceAt(c, s, i), c.SourceSize()) == SourceUnit(c, s, i)
  {
    hide StoreUnit;
    hide LoadUnit;
    hide Config.Value;
    if n == 0 {
    } else {
      SourceUnchanged(c, s, n - 1, i, limit);
      StoreUnitElsewhere(Written(c, s, n - 1), DestinationAt(c, s, n - 1), c.DestinationSize(), ValueAt(c, s, n - 1),
                         SourceAt(c, s, i), c.SourceSize());
    }
  }

  lemma {:induction false} TableUnchanged(c: Config, s: Dma, n: nat, x: byte, limit: nat)
    requires Independent(c, s, limit) && n <= limit && c.Translate()
    ensures Written(c, s, n)(Add(c.table, x)) == s.memory(Add(c.table, x))
  {
    hide StoreUnit;
    hide Config.Value;
    if n == 0 {
    } else {
      TableUnchanged(c, s, n - 1, x, limit);
      StoreUnitElsewhere(Written(c, s, n - 1), DestinationAt(c, s, n - 1), c.DestinationSize(), ValueAt(c, s, n - 1),
                         Add(c.table, x), 1);
    }
  }

  /** When source, table and destination are apart, each unit is read and
    translated as it was before the transfer. */
  lemma IndependentUnits(c: Config, s: Dma, i: nat, limit: nat)
    requires Independent(c, s, limit) && i < limit
    ensures UnitAt(c, s, i) == SourceUnit(c, s, i)
    ensures ValueAt(c, s, i) == c.Value(s.memory, SourceUnit(c, s, i))
  {
    hide Written;
    SourceUnchanged(c, s, i, i, limit);
    if c.Translate() {
      TableUnchanged(c, s, i, UnitAt(c, s, i) % 0x100, limit);
    }
  }

  lemma AddAgain(x: nat, n: nat)
    requires n <= 2
    ensures (x % 0x10_0000 + n) % 0x10_0000 == (x + n) % 0x10_0000
  {
  }

  lemma AddTwice(a: u20, k: nat, stride: nat)
    requires stride <= 2
    ensures Add(Add(a, k * stride), stride) == Add(a, (k + 1) * stride)
  {
    var x, y := k * stride, (k + 1) * stride;
    assert y == x + stride;
    AddAgain(a + x, stride);
    assert a + y == a + x + stride;
  }

  lemma CountDown(count: u20, left: nat)
    requires 0 < left == count % 0x1_0000
    ensures (count + 0xFFFF) % 0x1_0000 == left - 1
  {
  }

  lemma StepStopped(c: Config, s: Dma)
    requires !s.active
    ensures Step(c, s) == (s, false)
  {
  }

  lemma StepOnCount(c: Config, s: Dma)
    requires s.active && c.CountMode() != 0 && s.count % 0x1_0000 == 0
    ensures Step(c, s) == (s.(active := false, program := Add(s.program, c.CountDisplacement())), false)
  {
  }

  /** A step that transfers a unit: take it, compare it, deliver it. */
  lemma StepOfUnit(c: Config, s: Dma, data: word)
    requires s.active && (c.CountMode() == 0 || s.count % 0x1_0000 != 0)
    requires data == LoadUnit(s.memory, s.source, c.SourceSize())
    ensures var taken := s.(source := Add(s.source, c.SourceStride()), count := (s.count + 0xFFFF) % 0x1_0000,
      active := !c.Single());
      var compared := if c.Fires(data)
        then taken.(active := false, program := Add(s.program, c.SearchDisplacement())) else taken;
      Step(c, s) == (compared.(destination := Add(s.destination, c.DestinationStride()),
        memory := StoreUnit(s.memory, s.destination, c.DestinationSize(), c.Value(s.memory, data))), true)
  {
  }

  /** One step in the middle of a transfer. */
  lemma StepAfter(c: Config, s: Dma, n: nat)
    requires c.CountMode() != 0 && !c.Single() && s.active && n < Limit(s)
    ensures var (s', transferred) := Step(c, After(c, s, n));
      transferred && s' ==
        if c.Fires(UnitAt(c, s, n))
        then After(c, s, n + 1).(active := false, program := Add(s.program, c.SearchDisplacement()))
        else After(c, s, n + 1)
  {
    hide Step;
    hide Config.Fires;
    hide Config.Value;
    hide StoreUnit;
    hide LoadUnit;
    var now, data := After(c, s, n), UnitAt(c, s, n);
    CountDown(now.count, Limit(s) - n);
    AddTwice(s.source, n, c.SourceStride());
    AddTwice(s.destination, n, c.DestinationStride());
    StepOfUnit(c, now, data);
    WrittenNext(c, s, n);
  }

  /** The steps of a transfer up to its end. */
  lemma Progress(c: Config, s: Dma, n: nat)
    requires c.CountMode() != 0 && !c.Single() && s.active && n <= FirstFiring(c, s, 0)
    ensures After(c, s, n).active && !Final(c, s).active
    ensures Step(c, After(c, s, n)) ==
      if n < FirstFiring(c, s, 0) then (After(c, s, n + 1), true) else (Final(c, s), n < Limit(s))
  {
    hide Step;
    hide UnitAt;
    hide Config.Fires;
    hide Written;
    hide FirstFiring;
    FirstFires(c, s, 0);
    if n < Limit(s) {
      StepAfter(c, s, n);
    } else {
      StepOnCount(c, After(c, s, n));
    }
  }

  lemma WrappedApart(x: nat, y: nat, w: nat)
    requires 1 <= w <= 2 && (x + w <= y <= x + 0x2_0000 || y + w <= x <= y + 0x2_0000)
    ensures !Overlap(x % 0x10_0000, w, y % 0x10_0000, w)
  {
    var d := x % 0x10_0000 - y % 0x10_0000;
    assert d == x - y || d == x - y + 0x10_0000 || d == x - y - 0x10_0000;
  }

  /** Destination units of an incrementing transfer do not overlap. */
  lemma DestinationsApart(c: Config, s: Dma, i: nat, j: nat)
    requires c.DestinationStride() == c.DestinationSize() && i < 0x1_0000 && j < 0x1_0000 && i != j
    ensures !Overlap(DestinationAt(c, s, i), c.DestinationSize(), DestinationAt(c, s, j), c.DestinationSize())
  {
    if c.wideDestination {
      assert i * c.DestinationStride() == 2 * i && j * c.DestinationStride() == 2 * j;
      WrappedApart(s.destination + 2 * i, s.destination + 2 * j, 2);
    } else {
      assert i * c.DestinationStride() == i && j * c.DestinationStride() == j;
      WrappedApart(s.destination + i, s.destination + j, 1);
    }
  }

  /** The part of a value that fits in a unit. */
  function Fit(data: word, size: nat): word {
    if size == 1 then data % 0x100 else data
  }

  /** No unit of the first `n` is written at `a`. */
  ghost predicate Untouched(c: Config, s: Dma, n: nat, a: nat) {
    forall i :: 0 <= i < n ==> !Overlap(DestinationAt(c, s, i), c.DestinationSize(), a, 1)
  }

  lemma UntouchedBefore(c: Config, s: Dma, n: nat, a: nat)
    requires Untouched(c, s, n + 1, a)
    ensures Untouched(c, s, n, a) && !Overlap(DestinationAt(c, s, n), c.DestinationSize(), a, 1)
  {
  }

  lemma WrittenNone(c: Config, s: Dma)
    ensures Written(c, s, 0) == s.memory
  {
  }

  lemma WrittenNext(c: Config, s: Dma, n: nat)
    ensures Written(c, s, n + 1)
      == StoreUnit(Written(c, s, n), DestinationAt(c, s, n), c.DestinationSize(), ValueAt(c, s, n))
  {
  }

  /** After `n` units of an incrementing transfer, each destination unit holds
    what was written for it and no other byte has changed. */
  lemma {:induction false} WrittenExact(c: Config, s: Dma, n: nat)
    requires c.DestinationStride() == c.DestinationSize() && n < 0x1_0000
    ensures forall i :: 0 <= i < n ==>
      LoadUnit(Written(c, s, n), DestinationAt(c, s, i), c.DestinationSize())
        == Fit(ValueAt(c, s, i), c.DestinationSize())
    ensures forall a: nat :: Untouched(c, s, n, a) ==> Written(c, s, n)(a) == s.memory(a)
  {
    hide Written;
    hide ValueAt;
    hide Untouched;
    hide StoreUnit;
    hide LoadUnit;
    hide Config.Value;
    hide DestinationAt;
    if n == 0 {
      WrittenNone(c, s);
    } else {
      WrittenExact(c, s, n - 1);
      WrittenNext(c, s, n - 1);
      var m, a, size, value := Written(c, s, n - 1), DestinationAt(c, s, n - 1), c.DestinationSize(),
        ValueAt(c, s, n - 1);
      assert Written(c, s, n) == StoreUnit(m, a, size, value);
      forall i | 0 <= i < n
        ensures LoadUnit(Written(c, s, n), DestinationAt(c, s, i), size) == Fit(ValueAt(c, s, i), size)
      {
        if i == n - 1 {
          StoreUnitThere(m, a, size, value);
        } else {
          DestinationsApart(c, s, n - 1, i);
          StoreUnitElsewhere(m, a, size, value, DestinationAt(c, s, i), size);
        }
      }
      forall b: nat | Untouched(c, s, n, b)
        ensures Written(c, s, n)(b) == s.memory(b)
      {
        UntouchedBefore(c, s, n - 1, b);
        StoreUnitElsewhere(m, a, size, value, b, 1);
        assert LoadUnit(m, b, 1) == m(b) && LoadUnit(Written(c, s, n), b, 1) == Written(c, s, n)(b) by {
          LoadByte(m, b);
          LoadByte(Written(c, s, n), b);
        }
      }
    }
  }

  /** The number of units a transfer copies: up to and including the first that
    fires, at most the byte count. */
  function Copied(c: Config, s: Dma): (n: nat)
    ensures n <= Limit(s)
  {
    var stop := FirstFiring(c, s, 0);
    if stop < Limit(s) then stop + 1 else stop
  }

  /** A search with an incrementing destination: what it leaves in memory and
    registers, and that the program pointer moves once, by the displacement of
    the cause that came first. */
  lemma SearchTransfer(c: Config, s: Dma)
    requires c.DestinationStride() == c.DestinationSize()
    ensures var n, final := Copied(c, s), Final(c, s);
      && (forall i :: 0 <= i < n ==>
            LoadUnit(final.memory, DestinationAt(c, s, i), c.DestinationSize())
              == Fit(ValueAt(c, s, i), c.DestinationSize()))
      && (forall a: nat :: Untouched(c, s, n, a) ==> final.memory(a) == s.memory(a))
      && final.source == SourceAt(c, s, n) && final.destination == DestinationAt(c, s, n)
      && !final.active && final.count == (if n == 0 then s.count else Limit(s) - n)
      && (forall i :: 0 <= i < n - 1 ==> !Ends(c.cc, c.mc, UnitAt(c, s, i)))
      && (n < Limit(s) ==> 0 < n && Ends(c.cc, c.mc, UnitAt(c, s, n - 1)))
      && var cause := if 0 < n && Ends(c.cc, c.mc, UnitAt(c, s, n - 1)) then c.cc % 4 else c.cc / 8 % 4;
         final.program == (s.program + if cause == 2 then 4 else if cause == 3 then 8 else 0) % 0x10_0000
  {
    Displacements(c);
    forall i: nat {
      FiresMeaning(c, UnitAt(c, s, i));
    }
    hide Ends;
    hide Written;
    hide Untouched;
    hide ValueAt;
    hide UnitAt;
    hide Config.Fires;
    hide LoadUnit;
    hide SourceAt;
    hide DestinationAt;
    FirstFires(c, s, 0);
    WrittenExact(c, s, Copied(c, s));
  }

  /** Without a search exactly the byte count is copied: to a destination of the
    same width, incrementing on both sides, destination equals source, or the
    table entry of the source byte. */
  lemma BlockTransfer(c: Config, s: Dma)
    requires c.SearchMode() % 4 == 0 && c.wideSource == c.wideDestination
    requires c.DestinationStride() == c.DestinationSize() && c.SourceStride() == c.SourceSize()
    requires Independent(c, s, Limit(s))
    ensures var n, w, final := Limit(s), c.SourceSize(), Final(c, s);
      && Copied(c, s) == n
      && (forall i :: 0 <= i < n ==>
            LoadUnit(final.memory, DestinationAt(c, s, i), w)
            == if c.Translate() then s.memory(Add(c.table, SourceUnit(c, s, i) % 0x100)) else SourceUnit(c, s, i))
      && (forall a: nat :: Untouched(c, s, n, a) ==> final.memory(a) == s.memory(a))
      && final.source == SourceAt(c, s, n) && final.destination == DestinationAt(c, s, n)
      && final.program == Add(s.program, c.CountDisplacement()) && !final.active
      && final.count == (if n == 0 then s.count else 0)
  {
    hide Written;
    hide Untouched;
    hide UnitAt;
    hide Config.Fires;
    hide LoadUnit;
    hide Independent;
    hide SourceUnit;
    hide ValueAt;
    NeverFires(c, s);
    WrittenExact(c, s, Limit(s));
    forall i | 0 <= i < Limit(s)
      ensures Fit(ValueAt(c, s, i), c.SourceSize())
        == if c.Translate() then s.memory(Add(c.table, SourceUnit(c, s, i) % 0x100)) else SourceUnit(c, s, i)
    {
      IndependentUnits(c, s, i, Limit(s));
      SameWidthFits(c, s, i);
    }
  }

  lemma NeverFires(c: Config, s: Dma)
    requires c.SearchMode() % 4 == 0
    ensures FirstFiring(c, s, 0) == Limit(s)
  {
    hide UnitAt;
    hide FirstFiring;
    FirstFires(c, s, 0);
  }

  lemma SameWidthFits(c: Config, s: Dma, i: nat)
    ensures Fit(c.Value(s.memory, SourceUnit(c, s, i)), c.SourceSize())
      == if c.Translate() then s.memory(Add(c.table, SourceUnit(c, s, i) % 0x100)) else SourceUnit(c, s, i)
  {
  }

  /** The units of a transfer of bytes that increments both pointers. */
  lemma ByteUnits(c: Config, s: Dma, i: nat)
    requires !c.wideSource && !c.wideDestination && c.cc / 0x4000 % 2 == 1 && c.cc / 0x8000 % 2 == 1
    ensures c.SourceSize() == c.SourceStride() == c.DestinationSize() == c.DestinationStride() == 1
    ensures SourceAt(c, s, i) == Around(0x10_0000, s.source, i)
    ensures DestinationAt(c, s, i) == Around(0x10_0000, s.destination, i)
  {
    assert i * c.SourceStride() == i && i * c.DestinationStride() == i;
  }

  /** Bytes that do not overlap. */
  lemma BytesApart(c: Config, s: Dma, n: nat)
    requires !c.wideSource && !c.wideDestination && c.cc / 0x4000 % 2 == 1 && c.cc / 0x8000 % 2 == 1
    requires c.cc / 0x2000 % 2 == 0
    requires forall i, j :: 0 <= j < i < n ==> Around(0x10_0000, s.destination, j) != Around(0x10_0000, s.source, i)
    ensures Independent(c, s, n)
  {
    hide SourceAt;
    hide DestinationAt;
    hide Around;
    ByteUnits(c, s, 0);
    forall i, j | 0 <= j < i < n
      ensures !Overlap(DestinationAt(c, s, j), c.DestinationSize(), SourceAt(c, s, i), c.SourceSize())
    {
      ByteUnits(c, s, i);
      ByteUnits(c, s, j);
    }
  }

  /** Units of one byte are bytes. */
  lemma UnitsAreBytes(c: Config, s: Dma, m: Memory, n: nat)
    requires !c.wideSource && !c.wideDestination && c.cc / 0x4000 % 2 == 1 && c.cc / 0x8000 % 2 == 1
    requires forall i :: 0 <= i < n ==> LoadUnit(m, DestinationAt(c, s, i), 1) == SourceUnit(c, s, i)
    requires forall a: nat :: Untouched(c, s, n, a) ==> m(a) == s.memory(a)
    ensures forall i :: 0 <= i < n ==>
      m(Around(0x10_0000, s.destination, i)) == s.memory(Around(0x10_0000, s.source, i))
    ensures forall a: nat :: (forall i :: 0 <= i < n ==> Around(0x10_0000, s.destination, i) != a) ==>
      m(a) == s.memory(a)
  {
    hide Around;
    hide SourceAt;
    hide DestinationAt;
    forall i | 0 <= i < n
      ensures m(Around(0x10_0000, s.destination, i)) == s.memory(Around(0x10_0000, s.source, i))
    {
      ByteUnits(c, s, i);
    }
    forall a: nat | forall i :: 0 <= i < n ==> Around(0x10_0000, s.destination, i) != a
      ensures Untouched(c, s, n, a)
    {
      forall i | 0 <= i < n
        ensures !Overlap(DestinationAt(c, s, i), c.DestinationSize(), a, 1)
      {
        ByteUnits(c, s, i);
      }
    }
  }

  lemma RegistersInNumbers(c: Config, s: Dma, final: Dma)
    requires !c.wideSource && !c.wideDestination && c.cc / 0x4000 % 2 == 1 && c.cc / 0x8000 % 2 == 1
    requires final.source == SourceAt(c, s, Limit(s)) && final.destination == DestinationAt(c, s, Limit(s))
    requires final.program == Add(s.program, c.CountDisplacement())
    ensures final.source == (s.source + s.count % 0x1_0000) % 0x10_0000
    ensures final.destination == (s.destination + s.count % 0x1_0000) % 0x10_0000
    ensures var mode := c.cc / 8 % 4;
      final.program == (s.program + if mode == 2 then 4 else if mode == 3 then 8 else 0) % 0x10_0000
  {
    ByteUnits(c, s, Limit(s));
    Displacements(c);
  }

  lemma PlainMode(c: Config)
    requires c.cc % 4 == 0 && c.cc / 0x2000 % 2 == 0
    ensures c.SearchMode() % 4 == 0 && !c.Translate()
  {
  }

  lemma LimitInNumbers(s: Dma)
    ensures Limit(s) == s.count % 0x1_0000
  {
  }

  /** A copy of bytes without a search. */
  lemma BytesCopied(c: Config, s: Dma)
    requires c.cc % 4 == 0 && !c.wideSource && !c.wideDestination
    requires c.cc / 0x2000 % 2 == 0 && c.cc / 0x4000 % 2 == 1 && c.cc / 0x8000 % 2 == 1
    requires forall i, j :: 0 <= j < i < Limit(s) ==>
      Around(0x10_0000, s.destination, j) != Around(0x10_0000, s.source, i)
    ensures var n, final := Limit(s), Final(c, s);
      && (forall i :: 0 <= i < n ==>
           final.memory(Around(0x10_0000, s.destination, i)) == s.memory(Around(0x10_0000, s.source, i)))
      && (forall a: nat :: (forall i :: 0 <= i < n ==> Around(0x10_0000, s.destination, i) != a) ==>
           final.memory(a) == s.memory(a))
      && final.source == SourceAt(c, s, n) && final.destination == DestinationAt(c, s, n)
      && final.count == (if n == 0 then s.count else 0) && !final.active
      && final.program == Add(s.program, c.CountDisplacement())
  {
    hide *;
    ByteUnits(c, s, 0);
    BytesApart(c, s, Limit(s));
    PlainMode(c);
    BlockTransfer(c, s);
    UnitsAreBytes(c, s, Final(c, s).memory, Limit(s));
  }

  lemma CopyInNumbers(c: Config, s: Dma, n: nat)
    requires c.cc % 4 == 0 && !c.wideSource && !c.wideDestination && n == s.count % 0x1_0000
    requires c.cc / 0x2000 % 2 == 0 && c.cc / 0x4000 % 2 == 1 && c.cc / 0x8000 % 2 == 1
    requires forall i, j :: 0 <= j < i < n ==> Around(0x10_0000, s.destination, j) != Around(0x10_0000, s.source, i)
    ensures var final := Final(c, s);
      && (forall i :: 0 <= i < n ==>
           final.memory(Around(0x10_0000, s.destination, i)) == s.memory(Around(0x10_0000, s.source, i)))
      && (forall a: nat :: (forall i :: 0 <= i < n ==> Around(0x10_0000, s.destination, i) != a) ==>
           final.memory(a) == s.memory(a))
      && final.source == (s.source + n) % 0x10_0000 && final.destination == (s.destination + n) % 0x10_0000
      && final.count == (if n == 0 then s.count else 0) && !final.active
      && var mode := c.cc / 8 % 4;
         final.program == (s.program + if mode == 2 then 4 else if mode == 3 then 8 else 0) % 0x10_0000
  {
    hide *;
    LimitInNumbers(s);
    BytesCopied(c, s);
    RegistersInNumbers(c, s, Final(c, s));
  }

  lemma AddZero(c: Config, s: Dma)
    ensures After(c, s, 0) == s
  {
  }

  class Channel {
    const r: array<Pointer>
    var psw: bv8
    var memory: Memory

    ghost predicate Valid()
    {
      r.Length == 8
    }

    /** All pointers in use address memory rather than I/O space. */
    ghost predicate MemoryOnly()
      reads this, r
      requires Valid()
    {
      !r[GA].tag && !r[GB].tag && (Conf().Translate() ==> !r[GC].tag)
    }

    function Conf(): (c: Config)
      reads this, r
      requires Valid()
      ensures c.cc == r[6].address && c.mc == r[7].address && c.table == r[2].address
      ensures c.wideSource == (psw & 0x02 != 0)
      ensures c.wideDestination == (psw & 0x01 != 0)
    {
      Config(r[CC].address, r[MC].address, r[GC].address, psw & 0x02 != 0, psw & 0x01 != 0)
    }

    ghost function Abs(): (s: Dma)
      reads this, r
      requires Valid()
      ensures s.source == r[SourceRegister()].address && s.destination == r[DestinationRegister()].address
      ensures s.active == (psw & 0x40 != 0) && s.count == r[3].address && s.memory == memory
      ensures s.program == r[4].address
    {
      var gs := SourceRegister();
      Dma(r[gs].address, r[1 - gs].address, r[BC].address, r[TP].address, psw & 0x40 != 0, memory)
    }

    /** What a transfer never touches: the index register, and the status bits
      other than XF. */
    ghost function Others(): (Pointer, bv8)
      reads this`psw, r
      requires Valid()
    {
      (r[IX], psw & 0xBF)
    }

    /** The registers of the pointers to the source and the destination. */
    function SourceRegister(): (gs: nat)
      reads this, r
      requires Valid()
      ensures gs == r[6].address / 0x400 % 2
    {
      if Conf().FromGB() then GB else GA
    }

    function DestinationRegister(): nat
      reads this, r
      requires Valid()
    {
      1 - SourceRegister()
    }

    method AdvanceRegister(reg: nat, n: nat)
      requires Valid() && reg in {GA, GB, TP}
      modifies r
      ensures Valid() && Conf() == old(Conf())
      ensures forall i :: 0 <= i < 8 ==> r[i].tag == old(r[i].tag)
      ensures Others() == old(Others())
      ensures reg == TP ==> Abs() == old(Abs()).(program := Add(old(Abs()).program, n))
      ensures reg == old(SourceRegister()) ==> Abs() == old(Abs()).(source := Add(old(Abs()).source, n))
      ensures reg == old(DestinationRegister()) ==> Abs() == old(Abs()).(destination := Add(old(Abs()).destination, n))
    {
      r[reg] := r[reg].(address := Add(r[reg].address, n));
    }

    method ClearTransfer()
      requires Valid()
      modifies this`psw
      ensures Conf() == old(Conf()) && Abs() == old(Abs()).(active := false)
      ensures Others() == old(Others())
    {
      psw := psw & !0x40;
    }

    /** Ends the transfer and moves the program pointer by `displacement`. */
    method Terminate(displacement: nat)
      requires Valid()
      modifies this`psw, r
      ensures Valid() && Conf() == old(Conf())
      ensures Abs() == old(Abs()).(active := false, program := Add(old(Abs()).program, displacement))
      ensures forall i :: 0 <= i < 8 ==> r[i].tag == old(r[i].tag)
      ensures Others() == old(Others())
    {
      hide Channel.Conf;
      hide Channel.Abs;
      hide Channel.Others;
      ClearTransfer();
      if displacement != 0 {
        AdvanceRegister(TP, displacement);
      }
    }

    /** Ends a transfer whose count has run out. */
    method StopOnCount()
      requires Valid() && Conf().CountMode() != 0
      modifies this`psw, r
      ensures Valid() && Conf() == old(Conf())
      ensures Abs() == old(Abs()).(active := false, program := Add(old(Abs()).program, Conf().CountDisplacement()))
      ensures var mode := r[6].address / 8 % 4;
        Abs().program == (old(Abs()).program + if mode == 2 then 4 else if mode == 3 then 8 else 0) % 0x10_0000
      ensures forall i :: 0 <= i < 8 ==> r[i].tag == old(r[i].tag)
      ensures Others() == old(Others())
    {
      Displacements(Conf());
      hide Channel.Conf;
      hide Channel.Abs;
      hide Channel.Others;
      match r[CC].address / 8 % 4 {
        case 2 => Terminate(4);
        case 3 => Terminate(8);
        case _ => Terminate(0);
      }
    }

    /** Compares a unit and ends the transfer if it fires. */
    method Compare(data: word)
      requires Valid()
      modifies this`psw, r
      ensures Valid() && Conf() == old(Conf())
      ensures Abs() == if Conf().Fires(data)
        then old(Abs()).(active := false,
          program := Add(old(Abs()).program, Conf().SearchDisplacement())) else old(Abs())
      ensures forall i :: 0 <= i < 8 ==> r[i].tag == old(r[i].tag)
      ensures Others() == old(Others())
      ensures var cc := r[6].address;
        var n := if cc % 4 == 2 then 4 else if cc % 4 == 3 then 8 else 0;
        Abs() == if Ends(cc, r[7].address, data)
          then old(Abs()).(active := false, program := (old(Abs()).program + n) % 0x10_0000) else old(Abs())
    {
      hide Ends;
      hide Config.SearchDisplacement;
      FiresMeaning(Conf(), data);
      Displacements(Conf());
      LowMode(r[CC].address);
      hide Channel.Conf;
      hide Channel.Abs;
      hide Channel.Others;
      hide Config.Matches;
      var matched := Conf().Matches(data);
      match r[CC].address % 8 {
        case 1 => if matched { Terminate(0); }
        case 2 => if matched { Terminate(4); }
        case 3 => if matched { Terminate(8); }
        case 5 => if !matched { Terminate(0); }
        case 6 => if !matched { Terminate(4); }
        case 7 => if !matched { Terminate(8); }
        case _ =>
      }
    }

    method CountUnit()
      requires Valid()
      modifies r
      ensures Valid() && Conf() == old(Conf())
      ensures Abs() == old(Abs()).(count := (old(Abs()).count + 0xFFFF) % 0x1_0000)
      ensures forall i :: 0 <= i < 8 ==> r[i].tag == old(r[i].tag)
      ensures Others() == old(Others())
    {
      r[BC] := r[BC].(address := (r[BC].address + 0xFFFF) % 0x1_0000);
    }

    /** Counts and reads a unit. */
    method Take(gs: nat, srcSize: nat) returns (data: word)
      requires Valid() && gs == SourceRegister() && srcSize == Conf().SourceSize()
      modifies this`psw, r
      ensures Valid() && Conf() == old(Conf())
      ensures data == LoadUnit(memory, old(Abs()).source, srcSize)
      ensures Abs() == old(Abs()).(source := Add(old(Abs()).source, Conf().SourceStride()),
        count := (old(Abs()).count + 0xFFFF) % 0x1_0000, active := old(Abs()).active && !Conf().Single())
      ensures forall i :: 0 <= i < 8 ==> r[i].tag == old(r[i].tag)
      ensures Others() == old(Others())
    {
      hide Channel.Abs;
      hide Channel.Others;
      hide Channel.Conf;
      hide Word;
      CountUnit();
      data := if srcSize == 1 then memory(r[gs].address) else Word(memory, r[gs].address);
      if r[CC].address / 0x4000 % 2 != 0 {
        AdvanceRegister(gs, srcSize);
      }
      if r[CC].address / 0x80 % 2 != 0 {
        ClearTransfer();
      }
    }

    /** One step of a transfer. */
    method ChannelTransfer() returns (transferred: bool)
      requires Valid() && MemoryOnly()
      modifies this`psw, this`memory, r
      ensures Valid() && MemoryOnly() && Conf() == old(Conf()) && Others() == old(Others())
      ensures (Abs(), transferred) == Step(Conf(), old(Abs()))
    {
      hide Step;
      hide Channel.Abs;
      hide Channel.Others;
      hide Channel.Conf;
      hide Config.Matches;
      hide Config.Fires;
      hide LoadUnit;
      hide StoreUnit;
      ghost var c, s := Conf(), Abs();
      if psw & 0x40 == 0 {
        StepStopped(c, s);
        return false;
      }
      var gs := if r[CC].address / 0x400 % 2 == 0 then GA else GB;
      var gd := 1 - gs;
      var dstSize := if psw & 0x01 == 0 then 1 else 2;
      var srcSize := if psw & 0x02 == 0 then 1 else 2;
      if r[CC].address / 8 % 4 != 0 {
        if r[BC].address % 0x1_0000 == 0 {
          StopOnCount();
          StepOnCount(c, s);
          return false;
        }
      }
      var data := Take(gs, srcSize);
      Compare(data);
      transferred := Deliver(data, gd, dstSize);
      StepOfUnit(c, s, data);
    }

    method WriteUnit(gd: nat, size: nat, value: word)
      requires Valid() && gd == DestinationRegister() && 1 <= size <= 2
      modifies this`memory
      ensures Valid() && Conf() == old(Conf())
      ensures Abs() == old(Abs()).(memory := StoreUnit(old(memory), old(Abs()).destination, size, value))
    {
      if size == 1 {
        memory := Store<byte>(memory, r[gd].address, [Low(value)]);
      } else {
        memory := StoreWord(memory, r[gd].address, value);
      }
    }

    /** Translates a unit and writes it. */
    method Deliver(data: word, gd: nat, dstSize: nat) returns (transferred: bool)
      requires Valid() && gd == DestinationRegister() && dstSize == Conf().DestinationSize()
      modifies this`memory, r
      ensures Valid() && Conf() == old(Conf()) && transferred
      ensures Abs() == old(Abs()).(destination := Add(old(Abs()).destination, Conf().DestinationStride()),
        memory := StoreUnit(old(memory), old(Abs()).destination, dstSize, Conf().Value(old(memory), data)))
      ensures forall i :: 0 <= i < 8 ==> r[i].tag == old(r[i].tag)
      ensures Others() == old(Others())
    {
      hide Channel.Abs;
      hide Channel.Others;
      hide Channel.Conf;
      hide StoreUnit;
      var value: word := data;
      if r[CC].address / 0x2000 % 2 != 0 {
        value := memory(Add(r[GC].address, data % 0x100));
      }
      WriteUnit(gd, dstSize, value);
      if r[CC].address / 0x8000 % 2 != 0 {
        AdvanceRegister(gd, dstSize);
      }
      transferred := true;
    }

    /** Channel steps until the transfer is over, both the search and the count
      being armed as the configuration says. */
    method RunTransfer()
      requires Valid() && MemoryOnly() && Abs().active
      requires Conf().CountMode() != 0 && !Conf().Single()
      modifies this`psw, this`memory, r
      ensures Valid() && Conf() == old(Conf()) && Abs() == Final(Conf(), old(Abs())) && Others() == old(Others())
    {
      hide Step;
      hide After;
      hide Final;
      hide FirstFiring;
      hide Channel.Abs;
      hide Channel.Others;
      hide Channel.Conf;
      ghost var c, s := Conf(), Abs();
      ghost var n, stop := 0, FirstFiring(c, s, 0);
      AddZero(c, s);
      var transferred := true;
      while transferred
        invariant Valid() && MemoryOnly() && Conf() == c && Others() == old(Others())
        invariant 0 <= n <= stop
        invariant if Abs().active then transferred && Abs() == After(c, s, n) else Abs() == Final(c, s)
        decreases transferred, Abs().active, stop - n
      {
        Progress(c, s, n);
        ghost var before := Abs();
        if !before.active {
          StepStopped(c, before);
        }
        transferred := ChannelTransfer();
        if before.active && n < stop {
          n := n + 1;
          Progress(c, s, n);
        }
      }
    }
  }

  lemma StatusBits(psw: bv8)
    ensures psw & 0x43 == 0x40 ==> psw & 0x40 != 0 && psw & 0x02 == 0 && psw & 0x01 == 0
    ensures psw & 0x40 == 0 ==> psw == psw & 0xBF
  {
  }

  /** A copy of bytes between ranges that do not overlap, in terms of the registers:
    the low word of BC counts the bytes, CC selects which of GA and GB is the
    source, and TP moves by the displacement of the count mode. */
  method CopyBytes(channel: Channel, ghost from: u20, ghost to: u20, ghost n: nat)
    requires channel.Valid() && channel.psw & 0x43 == 0x40 && !channel.r[0].tag && !channel.r[1].tag
    requires var cc := channel.r[6].address;
      && cc % 4 == 0 && cc / 8 % 4 != 0 && cc / 0x80 % 2 == 0
      && cc / 0x2000 % 2 == 0 && cc / 0x4000 % 2 == 1 && cc / 0x8000 % 2 == 1
      && from == channel.r[cc / 0x400 % 2].address && to == channel.r[1 - cc / 0x400 % 2].address
    requires n == channel.r[3].address % 0x1_0000
    requires forall i, j :: 0 <= j < i < n ==> Around(0x10_0000, to, j) != Around(0x10_0000, from, i)
    modifies channel`psw, channel`memory, channel.r
    ensures channel.Valid() && channel.psw == old(channel.psw) & 0xBF
    ensures forall i :: 0 <= i < n ==>
      channel.memory(Around(0x10_0000, to, i)) == old(channel.memory)(Around(0x10_0000, from, i))
    ensures forall a: nat :: (forall i :: 0 <= i < n ==> Around(0x10_0000, to, i) != a) ==>
      channel.memory(a) == old(channel.memory)(a)
    ensures var cc, r := channel.r[6].address, channel.r;
      && cc == old(r[6].address) && r[2].address == old(r[2].address) && r[7].address == old(r[7].address)
      && r[cc / 0x400 % 2].address == (from + n) % 0x10_0000
      && r[1 - cc / 0x400 % 2].address == (to + n) % 0x10_0000
      && r[3].address == (if n == 0 then old(r[3].address) else 0)
      && r[4].address == (old(r[4].address)
           + if cc / 8 % 4 == 2 then 4 else if cc / 8 % 4 == 3 then 8 else 0) % 0x10_0000
      && r[5] == old(r[5])
  {
    ghost var c, s, psw := channel.Conf(), channel.Abs(), channel.psw;
    StatusBits(psw);
    assert c.CountMode() != 0 && !c.Single() && channel.MemoryOnly();
    hide Channel.Abs;
    hide Channel.Conf;
    hide Final;
    hide Around;
    CopyInNumbers(c, s, n);
    channel.RunTransfer();
    StatusBits(channel.psw);
    assert (channel.r[5], channel.psw & 0xBF) == (old(channel.r[5]), psw & 0xBF);
  }
}
