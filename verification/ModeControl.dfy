/** Control registers and the EFER register (src/cpu/registers.c): paging and
  long mode. A register is the set of the numbers of its bits that are set; the
  code touches these registers only through bitwise operations. */
module ModeControl {
  import opened Arithmetic

  // CR0
  const PE := 0
  const TS := 3
  const NW := 29
  const CD := 30
  const PG := 31
  // CR4
  const PAE := 5
  const VA57 := 12
  const PCIDE := 17
  // EFER
  const LME := 8
  const LMA := 10

  /** The processors that the setters tell apart. */
  datatype Model = I386 | I376 | I486 | Later(cpuidPae: bool)

  datatype Fault = InvalidOpcode | GeneralProtection
  datatype Option<T> = None | Some(value: T)

  /** The control registers CR0 to CR8 and EFER. */
  datatype Registers = Registers(cr: seq<bits>, efer: bits)

  ghost predicate Active(s: Registers) {
    LMA in s.efer
  }

  /** Long mode is active exactly when it is enabled and paging is on, and then
    physical address extension is on. */
  ghost predicate Coherent(s: Registers) {
    && |s.cr| == 9
    && (LMA in s.efer <==> LME in s.efer && PG in s.cr[0])
    && (LMA in s.efer ==> PAE in s.cr[4])
  }

  ghost predicate AlwaysActive(states: seq<Registers>, i: nat, j: nat)
    requires j < |states|
  {
    forall k :: i <= k <= j ==> Active(states[k])
  }

  /** The paging structure bits of CR4 are the same. */
  ghost predicate SamePaging(s: Registers, s': Registers) {
    && |s.cr| == |s'.cr| == 9
    && (PAE in s.cr[4] <==> PAE in s'.cr[4]) && (VA57 in s.cr[4] <==> VA57 in s'.cr[4])
  }

  datatype Write =
    | Control32(number: nat, value: bits)
    | Control64(number: nat, value: bits)
    | Efer(value: bits)
    | StatusWord(value: bits)
    | ClearTaskSwitched

  /** What a 32-bit write of CR0 keeps of the value. */
  function Cr0Value(model: Model, value: bits): bits {
    match model
    case I376 => value * {0, 1, 2, 3, 4} + {0, 4}
    case I386 => value * {0, 1, 2, 3, 4, 31}
    case _ => value * {0, 1, 2, 3, 4, 5, 16, 18, 29, 30, 31}
  }

  /** What a 32-bit write of CR3 keeps of the value. */
  function Cr3Value(model: Model, value: bits): bits {
    match model
    case I386 => value - {0, 1, 2, 3, 4, 5, 6, 7, 8, 9, 10, 11}
    case I486 => value - {0, 1, 2, 5, 6, 7, 8, 9, 10, 11}
    case _ => value
  }

  /** What a 32-bit write of CR4 keeps of the value. */
  function Cr4Value(model: Model, value: bits): bits {
    if model.Later? && model.cpuidPae then value else value - {PAE}
  }

  function Value32(model: Model, number: nat, value: bits): bits {
    if number == 0 then Cr0Value(model, value)
    else if number == 3 then Cr3Value(model, value)
    else if number == 4 then Cr4Value(model, value)
    else value
  }

  /** A mask with a run of `k` ones put above its `n` lowest digits. */
  lemma RunOfOnes(low: nat, n: nat, k: nat, mask: nat, b: nat)
    requires low < Power2(n) && mask - low == (Power2(k) - 1) * Power2(n)
    ensures Digit(mask, b) <==> if b < n then Digit(low, b) else b < n + k
  {
    hide Digit;
    var ones: nat := Power2(k) - 1;
    hide Power2;
    DigitsJoined(low, n, ones, b);
    if b >= n {
      DigitsOfOnes(k, b - n);
    }
  }

  /** The powers of two that the masks are made of. */
  lemma MaskPowers()
    ensures Power2(0) == 1 && Power2(1) == 2 && Power2(2) == 4 && Power2(3) == 8 && Power2(4) == 0x10
    ensures Power2(5) == 0x20 && Power2(6) == 0x40 && Power2(12) == 0x1000 && Power2(16) == 0x1_0000
    ensures Power2(18) == 0x4_0000 && Power2(20) == 0x10_0000 && Power2(29) == 0x2000_0000 && Power2(31) == 0x8000_0000
  {
    assert Power2(9) == 0x200;
    assert Power2(12) == 0x1000;
    assert Power2(15) == 0x8000;
    assert Power2(18) == 0x4_0000;
    assert Power2(21) == 0x20_0000;
    assert Power2(24) == 0x100_0000;
    assert Power2(27) == 0x800_0000;
    assert Power2(30) == 0x4000_0000;
  }

  /** The masks of the code, digit by digit. */
  lemma MaskDigits(b: nat)
    ensures Digit(0x1F, b) <==> b < 5
    ensures Digit(0x11, b) <==> b == 0 || b == 4
    ensures Digit(0x8000_001F, b) <==> b < 5 || b == 31
    ensures Digit(0xE005_003F, b) <==> b < 6 || b == 16 || b == 18 || 29 <= b < 32
    ensures Digit(0xFFFF_F000, b) <==> 12 <= b < 32
    ensures Digit(0xFFFF_F018, b) <==> b == 3 || b == 4 || 12 <= b < 32
  {
    hide Digit;
    MaskPowers();
    hide Power2;
    DigitsOfOnes(0, b);
    RunOfOnes(0, 0, 1, 1, b);
    RunOfOnes(1, 4, 1, 0x11, b);
    RunOfOnes(0, 0, 5, 0x1F, b);
    RunOfOnes(0x1F, 31, 1, 0x8000_001F, b);
    RunOfOnes(0, 0, 6, 0x3F, b);
    RunOfOnes(0x3F, 16, 1, 0x1_003F, b);
    RunOfOnes(0x1_003F, 18, 1, 0x5_003F, b);
    RunOfOnes(0x5_003F, 29, 3, 0xE005_003F, b);
    RunOfOnes(0, 3, 2, 0x18, b);
    RunOfOnes(0, 12, 20, 0xFFFF_F000, b);
    RunOfOnes(0x18, 12, 20, 0xFFFF_F018, b);
  }

  /** Registers that the 32-bit form does not know. */
  predicate Undefined32(model: Model, number: nat) {
    || number !in {0, 2, 3, 4, 8}
    || (number in {2, 3} && model == I376)
    || (number == 4 && !model.Later?)
    || (number == 8 && (model == I386 || model == I376))
  }

  /** The code's guard of CR0: paging cannot be on with long mode enabled unless
    PAE is set, and neither 64-bit code nor process-context identifiers allow it
    to be off. */
  predicate PagingRejected(s: Registers, codeL: bool, value: bits)
    requires |s.cr| == 9
  {
    || (PG in value && LME in s.efer && PAE !in s.cr[4])
    || (PG !in value && ((codeL && PE in s.cr[0] && LMA in s.efer) || PCIDE in s.cr[4]))
  }

  /** The code's guard of CR4: the paging structure cannot change while paging is
    on with long mode enabled. */
  predicate StructureRejected(s: Registers, value: bits)
    requires |s.cr| == 9
  {
    PG in s.cr[0] && LME in s.efer && value * {PAE, VA57} != s.cr[4] * {PAE, VA57}
  }

  /** The registers after a control register is stored: LMA follows PG. */
  function Stored(s: Registers, number: nat, value: bits): Registers
    requires |s.cr| == 9 && number < 9
  {
    Registers(s.cr[number := value],
              if number != 0 then s.efer
              else if LME in s.efer && PG in value then s.efer + {LMA}
              else s.efer - {LMA})
  }

  /** LMSW replaces the low four bits of CR0; the 376 keeps PE set. */
  function StatusLoaded(model: Model, cr0: bits, value: bits): bits {
    cr0 - (if model == I376 then {1, 2, 3} else {0, 1, 2, 3}) + value * {0, 1, 2, 3}
  }

  /** The outcome of one write: the new registers and the fault, if any. */
  function Written(model: Model, codeL: bool, s: Registers, w: Write): (r: (Registers, Option<Fault>))
    requires |s.cr| == 9
    ensures |r.0.cr| == 9
  {
    match w
    case Control32(number, value) =>
      var v := Value32(model, number, value);
      if Undefined32(model, number) then (s, Some(InvalidOpcode))
      else if number == 0 && PagingRejected(s, codeL, v) then (s, Some(GeneralProtection))
      else if number == 4 && StructureRejected(s, v) then (s, Some(GeneralProtection))
      else (Stored(s, number, v), None)
    case Control64(number, value) =>
      if number !in {0, 2, 3, 4, 8} then (s, Some(InvalidOpcode))
      else if number == 0 && PagingRejected(s, codeL, value) then (s, Some(GeneralProtection))
      else if number == 4 && StructureRejected(s, value) then (s, Some(GeneralProtection))
      else (Stored(s, number, value), None)
    case Efer(value) =>
      if PG in s.cr[0] && (LME in value) != (LME in s.efer) then (s, Some(GeneralProtection))
      else (s.(efer := if LME in value && PG in s.cr[0] then value + {LMA} else value - {LMA}), None)
    case StatusWord(value) => (s.(cr := s.cr[0 := StatusLoaded(model, s.cr[0], value)]), None)
    case ClearTaskSwitched => (s.(cr := s.cr[0 := s.cr[0] - {TS}]), None)
  }

  /** No write makes a coherent state incoherent, or changes the paging structure
    while long mode stays active; a rejected one changes nothing; and only CR0
    switches long mode. */
  lemma WriteKeepsMode(model: Model, codeL: bool, s: Registers, w: Write)
    requires Coherent(s)
    ensures var (s', fault) := Written(model, codeL, s, w);
      && Coherent(s') && (fault.Some? ==> s' == s)
      && (Active(s) && Active(s') ==> SamePaging(s, s'))
      && (((w.Control32? || w.Control64?) && w.number == 0) || (Active(s) <==> Active(s')))
  {
    match w
    case Control32(number, value) =>
      StructureKept(s, Value32(model, number, value));
    case Control64(number, value) =>
      StructureKept(s, value);
    case Efer(_) =>
    case StatusWord(_) =>
    case ClearTaskSwitched =>
  }

  lemma StructureKept(s: Registers, value: bits)
    requires Coherent(s)
    ensures !StructureRejected(s, value) && Active(s) ==>
      (PAE in value <==> PAE in s.cr[4]) && (VA57 in value <==> VA57 in s.cr[4])
  {
    SamePair(value, s.cr[4]);
  }

  lemma SamePair(v: bits, w: bits)
    ensures v * {PAE, VA57} == w * {PAE, VA57} <==> (PAE in v <==> PAE in w) && (VA57 in v <==> VA57 in w)
  {
    var a, b := v * {PAE, VA57}, w * {PAE, VA57};
    assert (PAE in a <==> PAE in v) && (VA57 in a <==> VA57 in v);
    assert (PAE in b <==> PAE in w) && (VA57 in b <==> VA57 in w);
  }

  // The conditions of the manual, reserved bits apart.

  /** MOV to CR0 in the Intel SDM, volume 2, with section 9.8.5 of volume 3A: the
    invalid combinations are PG without PE and NW without CD; long mode is
    activated only with PAE set, from a code segment without L bit and with a TSS
    that is not a 16-bit one; and 64-bit code and process-context identifiers need
    paging. */
  predicate ManualRejectsPaging(s: Registers, codeL: bool, tss16: bool, value: bits)
    requires |s.cr| == 9
  {
    || (PG in value && PE !in value)
    || (NW in value && CD !in value)
    || (PG in value && PG !in s.cr[0] && LME in s.efer && (PAE !in s.cr[4] || codeL || tss16))
    || (PG !in value && PG in s.cr[0] && ((codeL && PE in s.cr[0] && LMA in s.efer) || PCIDE in s.cr[4]))
  }

  /** MOV to CR4: in long mode PAE cannot be cleared and VA57 cannot change, and
    process-context identifiers are enabled only in long mode, with the low twelve
    bits of CR3 clear. */
  predicate ManualRejectsStructure(s: Registers, value: bits)
    requires |s.cr| == 9
  {
    || (LMA in s.efer && PAE !in value)
    || (LMA in s.efer && (VA57 in value) != (VA57 in s.cr[4]))
    || (PCIDE in value && PCIDE !in s.cr[4] && (LMA !in s.efer || exists i :: i in s.cr[3] && i < 12))
  }

  /** Where the guard of CR0 and the manual disagree: the code does not check the
    combinations, the code segment and the TSS; and, since it lets process-context
    identifiers be enabled without paging, it then rejects leaving paging off. */
  lemma PagingAgainstManual(s: Registers, codeL: bool, tss16: bool, value: bits)
    requires Coherent(s)
    ensures (PagingRejected(s, codeL, value) <==> ManualRejectsPaging(s, codeL, tss16, value)) <==>
      var invalid := (PG in value && PE !in value) || (NW in value && CD !in value);
      var activates := PG in value && PG !in s.cr[0] && LME in s.efer;
      if PagingRejected(s, codeL, value)
      then invalid || PG in value || PG in s.cr[0]
      else !invalid && (activates ==> !codeL && !tss16)
  {
  }

  /** Where the guard of CR4 and the manual disagree: the code does not check
    process-context identifiers. */
  lemma StructureAgainstManual(s: Registers, value: bits)
    requires Coherent(s)
    ensures (StructureRejected(s, value) <==> ManualRejectsStructure(s, value)) <==>
      StructureRejected(s, value)
      || !(PCIDE in value && PCIDE !in s.cr[4] && (LMA !in s.efer || exists i :: i in s.cr[3] && i < 12))
  {
    SamePair(value, s.cr[4]);
  }

  /** A write that activates long mode from a code segment with L bit, which the
    manual rejects and the code accepts. */
  lemma ActivationFromL()
    ensures var s := Registers([{PE}, {}, {}, {}, {PAE}, {}, {}, {}, {}], {LME});
      && Coherent(s) && ManualRejectsPaging(s, true, false, {PE, PG})
      && Written(Later(true), true, s, Control32(0, {PE, PG})).1.None?
  {
    assert PG in Cr0Value(Later(true), {PE, PG});
  }

  /** `states` and `faults` are what the writes lead to, one after the other. */
  ghost predicate IsRun(model: Model, writes: seq<Write>, code: seq<bool>, states: seq<Registers>,
                        faults: seq<Option<Fault>>) {
    && |states| == |writes| + 1 && |faults| == |writes| == |code|
    && (forall k :: 0 <= k < |states| ==> |states[k].cr| == 9)
    && forall k :: 0 <= k < |writes| ==> var next := k + 1;
        (states[next], faults[k]) == Written(model, code[k], states[k], writes[k])
  }

  lemma LongerRun(model: Model, writes: seq<Write>, code: seq<bool>, states: seq<Registers>, faults: seq<Option<Fault>>,
                  n: nat, s: Registers, fault: Option<Fault>)
    requires n < |writes| == |code| && IsRun(model, writes[..n], code[..n], states, faults)
    requires |s.cr| == 9 && (s, fault) == Written(model, code[n], states[n], writes[n])
    ensures IsRun(model, writes[..n + 1], code[..n + 1], states + [s], faults + [fault])
  {
    hide Written;
  }

  /** What a run keeps. */
  lemma RunKeepsMode(model: Model, writes: seq<Write>, code: seq<bool>, states: seq<Registers>,
                     faults: seq<Option<Fault>>)
    requires IsRun(model, writes, code, states, faults) && Coherent(states[0])
    ensures forall k :: 0 <= k < |states| ==> Coherent(states[k])
    ensures forall k :: 0 <= k < |faults| ==> var next := k + 1; faults[k].Some? ==> states[next] == states[k]
    ensures forall i, j :: 0 <= i <= j < |states| && AlwaysActive(states, i, j) ==> SamePaging(states[i], states[j])
  {
    hide Written;
    hide Coherent;
    for n := 0 to |writes|
      invariant forall k :: 0 <= k <= n ==> Coherent(states[k])
    {
      WriteKeepsMode(model, code[n], states[n], writes[n]);
    }
    forall k | 0 <= k < |writes|
      ensures var next := k + 1;
        (faults[k].Some? ==> states[next] == states[k])
        && (Active(states[k]) && Active(states[next]) ==> SamePaging(states[k], states[next]))
    {
      WriteKeepsMode(model, code[k], states[k], writes[k]);
    }
    forall i, j | 0 <= i <= j < |states| && AlwaysActive(states, i, j)
      ensures SamePaging(states[i], states[j])
    {
      StructureFrozen(states, i, j);
    }
  }

  lemma {:induction false} StructureFrozen(states: seq<Registers>, i: nat, j: nat)
    requires i <= j < |states| && forall k :: 0 <= k < |states| ==> |states[k].cr| == 9
    requires AlwaysActive(states, i, j)
    requires forall k :: 0 <= k < |states| - 1 ==> var next := k + 1;
      Active(states[k]) && Active(states[next]) ==> SamePaging(states[k], states[next])
    ensures SamePaging(states[i], states[j])
    decreases j - i
  {
    if i == j {
    } else {
      StructureFrozen(states, i, j - 1);
      assert Active(states[j - 1]) && Active(states[j]);
    }
  }

  class ControlUnit {
    const model: Model
    var cr: seq<bits>
    var efer: bits
    /** The L bit of the code segment. */
    var codeL: bool

    ghost function State(): Registers
      reads this
    {
      Registers(cr, efer)
    }

    /** Hardware reset. */
    constructor (model: Model, fpu387: bool)
      ensures Coherent(State()) && !Active(State()) && this.model == model
      ensures efer == {} && forall i :: 0 < i < 9 ==> cr[i] == {}
      ensures forall b: nat :: b in cr[0] <==>
        (if model == I376 then b < 5 else b == 29 || b == 30) || (b == 4 && fpu387)
    {
      this.model := model;
      var cr0 := (if model == I376 then {0, 1, 2, 3, 4} else {29, 30}) + (if fpu387 then {4} else {});
      cr := [cr0, {}, {}, {}, {}, {}, {}, {}, {}];
      efer := {};
      codeL := false;
    }

    /** Reset without initialisation of the whole processor: it clears CR4 but
      keeps PG and EFER, so it leaves a coherent state unless long mode is active. */
    method SoftReset(fpu387: bool)
      requires Coherent(State())
      modifies this`cr
      ensures Coherent(State()) <==> !old(Active(State()))
      ensures |cr| == 9 && cr[2] == cr[3] == cr[4] == {} && cr[1] == old(cr[1]) && cr[5..] == old(cr[5..])
      ensures forall b: nat :: b in cr[0] <==>
        (if model == I376 then b < 5 else b in old(cr[0]) && b != 29 && b != 30) || (b == 4 && fpu387)
    {
      var cr0 := (if model == I376 then {0, 1, 2, 3, 4} else cr[0] - {29, 30}) + (if fpu387 then {4} else {});
      cr := cr[0 := cr0][2 := {}][3 := {}][4 := {}];
    }

    predicate Is64BitMode()
      reads this
      requires |cr| == 9
    {
      PE in cr[0] && LMA in efer && codeL
    }

    /** Stores a control register; LMA follows PG. */
    method Store(number: nat, value: bits)
      requires |cr| == 9 && number < 9
      modifies this`cr, this`efer
      ensures State() == Stored(old(State()), number, value)
    {
      cr := cr[number := value];
      if number == 0 {
        if LME in efer && PG in cr[0] {
          efer := efer + {LMA};
        } else {
          efer := efer - {LMA};
        }
      }
    }

    /** MOV to a control register, 32-bit form. */
    method SetControl32(number: nat, value: bits) returns (fault: Option<Fault>)
      requires |cr| == 9
      modifies this`cr, this`efer
      ensures (State(), fault) == Written(model, codeL, old(State()), Control32(number, value))
      ensures fault == Some(InvalidOpcode) <==>
        match number
        case 0 => false
        case 2 => model == I376
        case 3 => model == I376
        case 4 => model == I386 || model == I376 || model == I486
        case 8 => model == I386 || model == I376
        case _ => true
      ensures number == 0 ==> (fault == Some(GeneralProtection) <==>
        || (31 in value && model != I376 && 8 in efer && 5 !in cr[4])
        || ((31 !in value || model == I376) && (17 in cr[4] || (codeL && 10 in old(efer) && 0 in old(cr[0])))))
      ensures number == 4 && model.Later? ==> (fault == Some(GeneralProtection) <==>
        31 in cr[0] && 8 in efer
        && ((5 in value && model.cpuidPae) != (5 in old(cr[4])) || (12 in value) != (12 in old(cr[4]))))
      ensures fault == Some(GeneralProtection) ==> number == 0 || number == 4
      ensures fault.Some? ==> cr == old(cr) && efer == old(efer)
      ensures |cr| == 9 && forall i :: 0 <= i < 9 && i != number ==> cr[i] == old(cr[i])
      ensures fault.None? && number == 0 ==> forall b: nat :: b in cr[0] <==>
        match model
        case I376 => (b in value && Digit(0x1F, b)) || Digit(0x11, b)
        case I386 => b in value && Digit(0x8000_001F, b)
        case _ => b in value && Digit(0xE005_003F, b)
      ensures fault.None? && number == 3 ==> forall b :: 0 <= b < 32 ==> (b in cr[3] <==>
        match model
        case I386 => b in value && Digit(0xFFFF_F000, b)
        case I486 => b in value && Digit(0xFFFF_F018, b)
        case _ => b in value)
      ensures fault.None? && number == 4 ==> forall b: nat :: b in cr[4] <==> b in value && (b == 5 ==> model.cpuidPae)
      ensures fault.None? && number !in {0, 3, 4} ==> cr[number] == value
      ensures forall b: nat :: b in efer <==> if b == 10 && number == 0 && fault.None?
        then 8 in old(efer) && 31 in cr[0] else b in old(efer)
    {
      forall b: nat {
        MaskDigits(b);
      }
      hide Digit;
      var v := value;
      match number {
        case 0 =>
          v := Cr0Value(model, v);
          if PAE !in cr[4] && LME in efer && PG in v {
            return Some(GeneralProtection);
          }
          if (Is64BitMode() || PCIDE in cr[4]) && PG !in v {
            return Some(GeneralProtection);
          }
        case 2 =>
          if model == I376 {
            return Some(InvalidOpcode);
          }
        case 3 =>
          if model == I376 {
            return Some(InvalidOpcode);
          } else if model == I386 {
            v := v - {0, 1, 2, 3, 4, 5, 6, 7, 8, 9, 10, 11};
          } else if model == I486 {
            v := v - {0, 1, 2, 5, 6, 7, 8, 9, 10, 11};
          }
        case 4 =>
          if !model.Later? {
            return Some(InvalidOpcode);
          }
          if !model.cpuidPae {
            v := v - {PAE};
          }
          SamePair(v, cr[4]);
          if PG in cr[0] && LME in efer && v * {PAE, VA57} != cr[4] * {PAE, VA57} {
            return Some(GeneralProtection);
          }
        case 8 =>
          if model == I386 || model == I376 {
            return Some(InvalidOpcode);
          }
        case _ =>
          return Some(InvalidOpcode);
      }
      Store(number, v);
      fault := None;
    }

    /** MOV to a control register, 64-bit form: the value is stored as it is. */
    method SetControl64(number: nat, value: bits) returns (fault: Option<Fault>)
      requires |cr| == 9
      modifies this`cr, this`efer
      ensures (State(), fault) == Written(model, codeL, old(State()), Control64(number, value))
      ensures fault == Some(InvalidOpcode) <==> number !in {0, 2, 3, 4, 8}
      ensures number == 0 ==> (fault == Some(GeneralProtection) <==>
        || (31 in value && 8 in efer && 5 !in cr[4])
        || (31 !in value && (17 in cr[4] || (codeL && 10 in old(efer) && 0 in old(cr[0])))))
      ensures number == 4 ==> (fault == Some(GeneralProtection) <==>
        31 in cr[0] && 8 in efer && ((5 in value) != (5 in old(cr[4])) || (12 in value) != (12 in old(cr[4]))))
      ensures fault == Some(GeneralProtection) ==> number == 0 || number == 4
      ensures cr == if fault.None? then old(cr)[number := value] else old(cr)
      ensures forall b: nat :: b in efer <==> if b == 10 && number == 0 && fault.None?
        then 8 in old(efer) && 31 in value else b in old(efer)
    {
      SamePair(value, cr[4]);
      match number {
        case 0 =>
          if PAE !in cr[4] && LME in efer && PG in value {
            return Some(GeneralProtection);
          }
          if (Is64BitMode() || PCIDE in cr[4]) && PG !in value {
            return Some(GeneralProtection);
          }
        case 2 =>
        case 3 =>
        case 4 =>
          if PG in cr[0] && LME in efer && cr[4] * {PAE, VA57} != value * {PAE, VA57} {
            return Some(GeneralProtection);
          }
        case 8 =>
        case _ =>
          return Some(InvalidOpcode);
      }
      Store(number, value);
      fault := None;
    }

    /** WRMSR to EFER: long mode cannot be enabled or disabled while paging is
      on, and LMA cannot be written. */
    method SetEfer(value: bits) returns (fault: Option<Fault>)
      requires |cr| == 9
      modifies this`efer
      ensures (State(), fault) == Written(model, codeL, old(State()), Efer(value))
      ensures fault == (if 31 in cr[0] && (8 in value) != (8 in old(efer)) then Some(GeneralProtection) else None)
      ensures forall b: nat :: b in efer <==>
        if fault.Some? then b in old(efer) else if b == 10 then 8 in value && 31 in cr[0] else b in value
    {
      if PG in cr[0] && (LME in value) != (LME in efer) {
        return Some(GeneralProtection);
      }
      if LME in value && PG in cr[0] {
        efer := value + {LMA};
      } else {
        efer := value - {LMA};
      }
      fault := None;
    }

    /** LMSW: the low four bits of CR0; the 376 stays in protected mode. */
    method LoadStatusWord(value: bits)
      requires |cr| == 9
      modifies this`cr
      ensures (State(), None) == Written(model, codeL, old(State()), StatusWord(value))
      ensures |cr| == 9 && forall i :: 0 < i < 9 ==> cr[i] == old(cr[i])
      ensures forall b: nat :: b in cr[0] <==>
        if b < 4 then b in value || (b == 0 && model == I376 && b in old(cr[0])) else b in old(cr[0])
    {
      if model == I376 {
        cr := cr[0 := cr[0] - {1, 2, 3} + value * {0, 1, 2, 3}];
      } else {
        cr := cr[0 := cr[0] - {0, 1, 2, 3} + value * {0, 1, 2, 3}];
      }
    }

    /** CLTS. */
    method ClearTaskSwitchedFlag()
      requires |cr| == 9
      modifies this`cr
      ensures (State(), None) == Written(model, codeL, old(State()), ClearTaskSwitched)
      ensures |cr| == 9 && forall i :: 0 < i < 9 ==> cr[i] == old(cr[i])
      ensures forall b: nat :: b in cr[0] <==> b in old(cr[0]) && b != 3
    {
      cr := cr[0 := cr[0] - {TS}];
    }

    method Perform(w: Write) returns (fault: Option<Fault>)
      requires |cr| == 9
      modifies this`cr, this`efer
      ensures (State(), fault) == Written(model, codeL, old(State()), w)
    {
      fault := None;
      match w {
        case Control32(number, value) => fault := SetControl32(number, value);
        case Control64(number, value) => fault := SetControl64(number, value);
        case Efer(value) => fault := SetEfer(value);
        case StatusWord(value) => LoadStatusWord(value);
        case ClearTaskSwitched => ClearTaskSwitchedFlag();
      }
    }

    /** Any run of writes from a coherent state, the code segment changing in
      between: every state is coherent, and the paging structure is the same
      throughout any stretch in which long mode stays active. */
    method Run(writes: seq<Write>, code: seq<bool>) returns (ghost states: seq<Registers>, faults: seq<Option<Fault>>)
      requires Coherent(State()) && |code| == |writes|
      modifies this
      ensures IsRun(model, writes, code, states, faults)
      ensures states[0] == old(State()) && states[|writes|] == State()
      ensures forall k :: 0 <= k < |states| ==> Coherent(states[k])
      ensures forall k :: 0 <= k < |faults| ==> var next := k + 1; faults[k].Some? ==> states[next] == states[k]
      ensures forall i, j :: 0 <= i <= j < |states| && AlwaysActive(states, i, j) ==> SamePaging(states[i], states[j])
    {
      hide Written;
      states := [State()];
      faults := [];
      for n := 0 to |writes|
        invariant IsRun(model, writes[..n], code[..n], states, faults)
        invariant states[0] == old(State()) && states[n] == State()
      {
        codeL := code[n];
        var fault := Perform(writes[n]);
        LongerRun(model, writes, code, states, faults, n, State(), fault);
        faults := faults + [fault];
        states := states + [State()];
      }
      assert writes[..|writes|] == writes && code[..|writes|] == code;
      RunKeepsMode(model, writes, code, states, faults);
    }
  }

  /** The usual way into long mode, and a reset without initialisation from there:
    LMA stays set although PAE is now clear. */
  method LongModeThenSoftReset() returns (unit: ControlUnit)
    ensures |unit.cr| == 9 && Active(unit.State()) && PAE !in unit.cr[4]
  {
    unit := new ControlUnit(Later(true), false);
    var fault := unit.SetControl32(4, {PAE});
    fault := unit.SetEfer({LME});
    assert LME in {LME} - {LMA} && PG in Cr0Value(unit.model, {PE, PG});
    fault := unit.SetControl32(0, {PE, PG});
    unit.SoftReset(false);
  }
}
