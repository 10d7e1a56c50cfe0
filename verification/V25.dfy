/** The on-chip RAM of the NEC V25 (src/cpu/memory.c, src/cpu/registers.c).
  The processor keeps its registers twice: in the register file and, for each of
  eight banks, in the first 256 bytes of the on-chip RAM, which is itself mapped
  into memory. The words of the current bank are a write-back cache of the
  register file: they are brought up to date before a memory access to them and
  loaded back after one. */
module V25 {
  import opened Arithmetic
  import opened ByteMemory
  import opened FlagsWord

  const MIB := 0x10_0000

  // Special function registers, as offsets in the on-chip RAM.
  const FLAG := 0x1EA
  const PRC := 0x1EB
  const IDB := 0x1FF

  // Words of a register bank.
  const VECTOR_PC := 1
  const PSW_SAVE := 2
  const PC_SAVE := 3

  /** The register whose value word `w` of the current bank caches. */
  function LiveWord(selectors: seq<word>, registers: seq<word>, w: nat): word
    requires |selectors| == 4 && |registers| == 8 && 4 <= w < 16
  {
    if w < 8 then selectors[7 - w] else registers[15 - w]
  }

  function HalfOf(value: word, k: nat): byte {
    if k % 2 == 0 then value % 0x100 else value / 0x100
  }

  /** Whether byte `k` of the on-chip RAM caches a register in bank `rb`. */
  predicate Cached(rb: nat, k: nat) {
    rb * 32 + 8 <= k < rb * 32 + 32
  }

  /** Byte `k` of the on-chip RAM as a program must see it: the live register if
    the byte belongs to the current bank, the stored byte otherwise. */
  function InternalByte(ram: seq<byte>, rb: nat, selectors: seq<word>, registers: seq<word>, k: nat): byte
    requires |ram| == 0x200 && |selectors| == 4 && |registers| == 8 && k < 0x200
  {
    if Cached(rb, k) then HalfOf(LiveWord(selectors, registers, (k - rb * 32) / 2), k) else ram[k]
  }

  /** Word `w` of bank `bank`. */
  function BankWord(ram: seq<byte>, bank: nat, w: nat): word
    requires |ram| == 0x200 && bank < 8 && w < 16
  {
    WordOf(ram[bank * 32 + 2 * w], ram[bank * 32 + 2 * w + 1])
  }

  /** The address of the first byte of the on-chip RAM. */
  function InternalBase(ram: seq<byte>): nat
    requires |ram| == 0x200
  {
    ram[IDB] as int * 0x1000 + 0xE00
  }

  /** The first address at which the on-chip RAM is mapped: the register banks
    can be hidden. */
  function InternalStart(ram: seq<byte>): nat
    requires |ram| == 0x200
  {
    InternalBase(ram) + (if ram[PRC] / 0x40 % 2 == 1 then 0 else 0x100)
  }

  /** Byte `a` of the memory below 1 MiB as a program must see it. */
  function ViewByte(ram: seq<byte>, rb: nat, selectors: seq<word>, registers: seq<word>, external: Memory, a: nat): byte
    requires |ram| == 0x200 && |selectors| == 4 && |registers| == 8 && rb < 8 && a < MIB
  {
    var idb := ram[IDB] as int * 0x1000;
    if InternalStart(ram) <= a < idb + 0x1000 then InternalByte(ram, rb, selectors, registers, a - (idb + 0xE00))
    else if a == MIB - 1 then ram[IDB]
    else external(a)
  }

  /** Two states that show the same on-chip RAM show the same memory. */
  lemma SameView(ram: seq<byte>, rb: nat, selectors: seq<word>, registers: seq<word>,
                 ram': seq<byte>, rb': nat, selectors': seq<word>, registers': seq<word>, external: Memory)
    requires |ram| == 0x200 && |selectors| == 4 && |registers| == 8 && rb < 8
    requires |ram'| == 0x200 && |selectors'| == 4 && |registers'| == 8 && rb' < 8
    requires forall k :: 0 <= k < 0x200 ==>
      InternalByte(ram', rb', selectors', registers', k) == InternalByte(ram, rb, selectors, registers, k)
    ensures forall a :: 0 <= a < MIB ==>
      ViewByte(ram', rb', selectors', registers', external, a) == ViewByte(ram, rb, selectors, registers, external, a)
  {
    assert InternalByte(ram, rb, selectors, registers, IDB) == ram[IDB];
    assert InternalByte(ram, rb, selectors, registers, PRC) == ram[PRC];
  }

  /** A write, as far as byte `a` is concerned. */
  function Overwritten(start: nat, data: seq<byte>, a: nat, otherwise: byte): byte {
    if start <= a < start + |data| then data[a - start] else otherwise
  }

  /** A write that updates both the on-chip RAM and the external memory updates
    the view. */
  lemma WriteView(ram: seq<byte>, selectors: seq<word>, registers: seq<word>, external: Memory,
                  ram': seq<byte>, selectors': seq<word>, registers': seq<word>, external': Memory,
                  rb: nat, start: nat, data: seq<byte>)
    requires |ram| == |ram'| == 0x200 && |selectors| == |selectors'| == 4 && |registers| == |registers'| == 8 && rb < 8
    requires ram[IDB] == ram'[IDB] && ram[PRC] == ram'[PRC] && start + |data| < MIB
    requires forall k :: InternalStart(ram) - InternalBase(ram) <= k < 0x200 ==>
      InternalByte(ram', rb, selectors', registers', k)
      == Overwritten(start, data, InternalBase(ram) + k, InternalByte(ram, rb, selectors, registers, k))
    requires forall a: nat :: a < InternalStart(ram) || InternalBase(ram) + 0x200 <= a < MIB - 1 ==>
      external'(a) == Overwritten(start, data, a, external(a))
    ensures forall a :: 0 <= a < MIB ==>
      ViewByte(ram', rb, selectors', registers', external', a)
      == Overwritten(start, data, a, ViewByte(ram, rb, selectors, registers, external, a))
  {
    forall a | 0 <= a < MIB
      ensures ViewByte(ram', rb, selectors', registers', external', a)
        == Overwritten(start, data, a, ViewByte(ram, rb, selectors, registers, external, a))
    {
      var internal := InternalBase(ram);
      if InternalStart(ram) <= a < internal + 0x200 {
        assert InternalByte(ram', rb, selectors', registers', a - internal)
          == Overwritten(start, data, internal + (a - internal),
            InternalByte(ram, rb, selectors, registers, a - internal));
      }
    }
  }

  /** Consecutive bytes of the memory below 1 MiB. */
  function ViewLoad(ram: seq<byte>, rb: nat, selectors: seq<word>, registers: seq<word>, external: Memory,
                    a: nat, n: nat): (s: seq<byte>)
    requires |ram| == 0x200 && |selectors| == 4 && |registers| == 8 && rb < 8 && a + n <= MIB
    ensures |s| == n
    ensures forall i :: 0 <= i < n ==> s[i] == ViewByte(ram, rb, selectors, registers, external, a + i)
  {
    seq<byte>(n, i requires 0 <= i < n => ViewByte(ram, rb, selectors, registers, external, a + i))
  }

  /** Registers loaded from the current bank are up to date. */
  lemma LoadedBank(ram: seq<byte>, rb: nat, selectors: seq<word>, registers: seq<word>)
    requires |ram| == 0x200 && |selectors| == 4 && |registers| == 8 && rb < 8
    requires forall v :: 4 <= v < 8 ==> selectors[7 - v] == BankWord(ram, rb, v)
    requires forall v :: 8 <= v < 16 ==> registers[15 - v] == BankWord(ram, rb, v)
    ensures forall k :: 0 <= k < 0x200 ==> InternalByte(ram, rb, selectors, registers, k) == ram[k]
  {
    forall k | 0 <= k < 0x200
      ensures InternalByte(ram, rb, selectors, registers, k) == ram[k]
    {
      if Cached(rb, k) {
        var w := (k - rb * 32) / 2;
        assert LiveWord(selectors, registers, w) == BankWord(ram, rb, w);
        assert k == rb * 32 + 2 * w || k == rb * 32 + 2 * w + 1;
      }
    }
  }

  /** The on-chip RAM with the words of the current bank below `w` brought up to date. */
  function Synced(ram: seq<byte>, rb: nat, selectors: seq<word>, registers: seq<word>, w: nat): (r: seq<byte>)
    requires |ram| == 0x200 && |selectors| == 4 && |registers| == 8 && rb < 8
    ensures |r| == 0x200
  {
    seq<byte>(0x200, k requires 0 <= k < 0x200 =>
      if k < rb * 32 + 2 * w then InternalByte(ram, rb, selectors, registers, k) else ram[k])
  }

  lemma SyncedStart(ram: seq<byte>, rb: nat, selectors: seq<word>, registers: seq<word>)
    requires |ram| == 0x200 && |selectors| == 4 && |registers| == 8 && rb < 8
    ensures Synced(ram, rb, selectors, registers, 4) == ram
  {
  }

  lemma SyncedNext(ram: seq<byte>, rb: nat, selectors: seq<word>, registers: seq<word>, w: nat)
    requires |ram| == 0x200 && |selectors| == 4 && |registers| == 8 && rb < 8 && 4 <= w < 16
    ensures var value := LiveWord(selectors, registers, w);
      Synced(ram, rb, selectors, registers, w + 1)
      == Synced(ram, rb, selectors, registers,
        w)[rb * 32 + 2 * w := HalfOf(value, 0)][rb * 32 + 2 * w + 1 := HalfOf(value, 1)]
  {
    assert (rb * 32 + 2 * w + 1 - rb * 32) / 2 == w;
  }

  /** Bringing the whole bank up to date shows the same on-chip RAM. */
  lemma SyncedEnd(ram: seq<byte>, rb: nat, selectors: seq<word>, registers: seq<word>)
    requires |ram| == 0x200 && |selectors| == 4 && |registers| == 8 && rb < 8
    ensures var r := Synced(ram, rb, selectors, registers, 16);
      forall k :: 0 <= k < 0x200 ==>
        r[k] == InternalByte(ram, rb, selectors, registers, k) && InternalByte(r, rb, selectors, registers, k) == r[k]
  {
  }

  /** The flags that the processor keeps outside of the on-chip RAM. */
  datatype Status = Status(cf: bool, ibrk: bool, pf: bool, af: bool, zf: bool, sf: bool,
                           tf: bool, ief: bool, df: bool, of: bool)

  /** The digits of the FLAGS word: F0 and F1 are bits of an on-chip register,
    the bank number takes bits 12 to 14 and bit 15 is the native mode flag. */
  function PswBits(s: Status, flag: byte, rb: nat): (bits: seq<bool>)
    ensures |bits| == 16
  {
    [s.cf, s.ibrk, s.pf, flag / 8 % 2 == 1, s.af, flag / 32 % 2 == 1, s.zf, s.sf,
     s.tf, s.ief, s.df, s.of, rb % 2 == 1, rb / 2 % 2 == 1, rb / 4 == 1, true]
  }

  function StatusFrom(b: seq<bool>): Status
    requires |b| == 16
  {
    Status(b[0], b[1], b[2], b[4], b[6], b[7], b[8], b[9], b[10], b[11])
  }

  function FlagByteFrom(b: seq<bool>): byte
    requires |b| == 16
  {
    (if b[3] then 8 else 0) + (if b[5] then 32 else 0)
  }

  function BankFrom(b: seq<bool>): (rb: nat)
    requires |b| == 16
    ensures rb < 8
  {
    (if b[12] then 1 else 0) + (if b[13] then 2 else 0) + (if b[14] then 4 else 0)
  }

  function FlagsOf(s: Status, flag: byte, rb: nat): word {
    PackWord(PswBits(s, flag, rb))
  }

  function StatusOf(psw: word): Status { StatusFrom(Bits(psw)) }

  function FlagByteOf(psw: word): byte { FlagByteFrom(Bits(psw)) }

  function BankOf(psw: word): (rb: nat)
    ensures rb < 8
  {
    BankFrom(Bits(psw))
  }

  // The same in numbers.

  /** What a program sees of the on-chip RAM: register `i` of the register file in
    the two bytes from 30 - 2 * i on of the current bank, segment register `i` in
    those from 14 - 2 * i on, and the stored bytes elsewhere. */
  lemma BankImage(ram: seq<byte>, rb: nat, selectors: seq<word>, registers: seq<word>)
    requires |ram| == 0x200 && |selectors| == 4 && |registers| == 8 && rb < 8
    ensures forall i :: 0 <= i < 8 ==>
      && InternalByte(ram, rb, selectors, registers, 32 * rb + 30 - 2 * i) as int == registers[i] % 0x100
      && InternalByte(ram, rb, selectors, registers, 32 * rb + 31 - 2 * i) as int == registers[i] / 0x100
    ensures forall i :: 0 <= i < 4 ==>
      && InternalByte(ram, rb, selectors, registers, 32 * rb + 14 - 2 * i) as int == selectors[i] % 0x100
      && InternalByte(ram, rb, selectors, registers, 32 * rb + 15 - 2 * i) as int == selectors[i] / 0x100
    ensures forall k :: 0 <= k < 0x200 && (k < 32 * rb + 8 || 32 * rb + 32 <= k) ==>
      InternalByte(ram, rb, selectors, registers, k) == ram[k]
  {
    forall i | 0 <= i < 12
      ensures (32 * rb + 30 - 2 * i - rb * 32) / 2 == 15 - i && (32 * rb + 31 - 2 * i - rb * 32) / 2 == 15 - i
    {
    }
    forall i | 0 <= i < 4
      ensures LiveWord(selectors, registers, 7 - i) == selectors[i]
    {
    }
  }

  /** Where a program sees it: 512 bytes below the next 4 KiB boundary after the
    address in the base register, of which PRC can hide the first 256; and the base
    register itself in the last byte of the first 1 MiB. */
  lemma ViewImage(ram: seq<byte>, rb: nat, selectors: seq<word>, registers: seq<word>, external: Memory, a: nat)
    requires |ram| == 0x200 && |selectors| == 4 && |registers| == 8 && rb < 8 && a < 0x10_0000
    ensures var top: nat, hidden: nat := 0x1000 * ram[0x1FF] as int + 0x1000, if Digit(ram[0x1EB], 6) then 0 else 0x100;
      ViewByte(ram, rb, selectors, registers, external, a) ==
        if top - 0x200 + hidden <= a < top then InternalByte(ram, rb, selectors, registers, a + 0x200 - top)
        else if a == 0xF_FFFF then ram[0x1FF]
        else external(a)
  {
    DigitIsQuotient(ram[0x1EB], 6);
    assert Power2(3) == 8;
    assert Power2(6) == 0x40;
  }

  /** A word of a bank. */
  lemma BankWordImage(ram: seq<byte>, bank: nat, w: nat)
    requires |ram| == 0x200 && bank < 8 && w < 16
    ensures BankWord(ram, bank, w) as int == ram[32 * bank + 2 * w] as int + 0x100 * ram[32 * bank + 2 * w + 1] as int
  {
  }

  lemma PackedPsw(s: Status, flag: byte, rb: nat)
    ensures FlagsOf(s, flag, rb) == PackWord(PswBits(s, flag, rb))
  {
    hide PackWord;
    hide PswBits;
  }

  lemma LowPswDigits(s: Status, flag: byte, rb: nat)
    ensures var b := PswBits(s, flag, rb);
      b[0] == s.cf && b[1] == s.ibrk && b[2] == s.pf && b[3] == (flag / 8 % 2 == 1)
  {
  }

  lemma MiddlePswDigits(s: Status, flag: byte, rb: nat)
    ensures var b := PswBits(s, flag, rb);
      b[4] == s.af && b[5] == (flag / 32 % 2 == 1) && b[6] == s.zf && b[7] == s.sf
  {
  }

  lemma HighPswDigits(s: Status, flag: byte, rb: nat)
    ensures var b := PswBits(s, flag, rb);
      && b[8] == s.tf && b[9] == s.ief && b[10] == s.df && b[11] == s.of
      && b[12] == (rb % 2 == 1) && b[13] == (rb / 2 % 2 == 1) && b[14] == (rb / 4 == 1) && b[15]
  {
  }

  lemma PswNibbles(s: Status, flag: byte, rb: nat)
    requires rb < 8
    ensures Nibble(s.cf, s.ibrk, s.pf, flag / 8 % 2 == 1)
      == Bit(s.cf) + 2 * Bit(s.ibrk) + 4 * Bit(s.pf) + flag / 8 % 2 * 8
    ensures Nibble(s.af, flag / 32 % 2 == 1, s.zf, s.sf)
      == Bit(s.af) + flag / 32 % 2 * 2 + 4 * Bit(s.zf) + 8 * Bit(s.sf)
    ensures Nibble(s.tf, s.ief, s.df, s.of) == Bit(s.tf) + 2 * Bit(s.ief) + 4 * Bit(s.df) + 8 * Bit(s.of)
    ensures Nibble(rb % 2 == 1, rb / 2 % 2 == 1, rb / 4 == 1, true) == rb + 8
  {
  }

  /** The FLAGS word as a number: F0 and F1 are taken from the flag register, and
    the bank number is in the bits 12 to 14. */
  lemma PswImage(s: Status, flag: byte, rb: nat)
    requires rb < 8
    ensures FlagsOf(s, flag, rb) as int == 0x8000 + 0x1000 * rb + 8 * (flag / 8 % 2) + 0x20 * (flag / 32 % 2)
      + Bit(s.cf) + 2 * Bit(s.ibrk) + 4 * Bit(s.pf) + 0x10 * Bit(s.af) + 0x40 * Bit(s.zf) + 0x80 * Bit(s.sf)
      + 0x100 * Bit(s.tf) + 0x200 * Bit(s.ief) + 0x400 * Bit(s.df) + 0x800 * Bit(s.of)
  {
    hide *;
    PackedPsw(s, flag, rb);
    LowPswDigits(s, flag, rb);
    MiddlePswDigits(s, flag, rb);
    HighPswDigits(s, flag, rb);
    PswNibbles(s, flag, rb);
    PackedWord(PswBits(s, flag, rb));
  }

  /** What a FLAGS word is loaded into. */
  lemma PswLoaded(psw: word)
    ensures var s := StatusOf(psw);
      && s.cf == Digit(psw, 0) && s.ibrk == Digit(psw, 1) && s.pf == Digit(psw, 2) && s.af == Digit(psw, 4)
      && s.zf == Digit(psw, 6) && s.sf == Digit(psw, 7) && s.tf == Digit(psw, 8) && s.ief == Digit(psw, 9)
      && s.df == Digit(psw, 10) && s.of == Digit(psw, 11)
    ensures FlagByteOf(psw) as int == 8 * Bit(Digit(psw, 3)) + 0x20 * Bit(Digit(psw, 5))
    ensures BankOf(psw) == Bit(Digit(psw, 12)) + 2 * Bit(Digit(psw, 13)) + 4 * Bit(Digit(psw, 14))
  {
    hide Bits;
    hide Digit;
    DigitsOfWord(psw);
  }

  /** Appends the next bytes of what a read is to return. */
  function Extended(ghost goal: seq<byte>, done: seq<byte>, chunk: seq<byte>): (r: seq<byte>)
    requires |done| + |chunk| <= |goal| && done == goal[..|done|]
    requires forall i :: 0 <= i < |chunk| ==> chunk[i] == goal[|done| + i]
    ensures r == goal[..|done| + |chunk|] && (|done| + |chunk| == |goal| ==> r == goal)
  {
    done + chunk
  }

  /** The two words of bank `rb` that hold the interrupted FLAGS and IP. */
  predicate SaveArea(rb: nat, k: nat) {
    rb * 32 + 2 * PSW_SAVE <= k < rb * 32 + 2 * PC_SAVE + 2
  }

  lemma BankBits(rb: nat)
    requires rb < 8
    ensures rb == (if rb % 2 == 1 then 1 else 0) + (if rb / 2 % 2 == 1 then 2 else 0) + (if rb / 4 == 1 then 4 else 0)
  {
  }

  lemma FlagByteBits(f0: bool, f1: bool)
    ensures var f: int := (if f0 then 8 else 0) + (if f1 then 32 else 0);
      (f / 8 % 2 == 1) == f0 && (f / 32 % 2 == 1) == f1
  {
  }

  lemma PswBitsRoundTrip(s: Status, flag: byte, rb: nat)
    requires rb < 8
    ensures var b := PswBits(s, flag, rb);
      StatusFrom(b) == s && BankFrom(b) == rb && FlagByteFrom(b) == (if b[3] then 8 else 0) + (if b[5] then 32 else 0)
  {
    BankBits(rb);
  }

  lemma SamePswBits(s: Status, flag: byte, flag': byte, rb: nat)
    requires (flag / 8 % 2 == 1) == (flag' / 8 % 2 == 1) && (flag / 32 % 2 == 1) == (flag' / 32 % 2 == 1)
    ensures PswBits(s, flag, rb) == PswBits(s, flag', rb)
  {
  }

  /** Setting FLAGS from a saved FLAGS word restores every flag. */
  lemma FlagsRoundTrip(s: Status, flag: byte, rb: nat)
    requires rb < 8
    ensures var psw := FlagsOf(s, flag, rb);
      StatusOf(psw) == s && BankOf(psw) == rb && FlagsOf(s, FlagByteOf(psw), rb) == psw
  {
    PswBitsRoundTrip(s, flag, rb);
    FlagByteBits(flag / 8 % 2 == 1, flag / 32 % 2 == 1);
    SamePswBits(s, flag, FlagByteFrom(PswBits(s, flag, rb)), rb);
  }

  /** The current bank determines the registers. */
  lemma SameBankSameRegisters(ram: seq<byte>, selectors: seq<word>, registers: seq<word>,
                              ram': seq<byte>, selectors': seq<word>, registers': seq<word>, rb: nat)
    requires |ram| == |ram'| == 0x200 && |selectors| == |selectors'| == 4 && |registers| == |registers'| == 8 && rb < 8
    requires forall k :: 0 <= k < 0x200 && Cached(rb, k) ==>
      InternalByte(ram, rb, selectors, registers, k) == InternalByte(ram', rb, selectors', registers', k)
    ensures selectors == selectors' && registers == registers'
  {
    forall w | 4 <= w < 16
      ensures LiveWord(selectors, registers, w) == LiveWord(selectors', registers', w)
    {
      var k := rb * 32 + 2 * w;
      assert Cached(rb, k) && Cached(rb, k + 1) && (k - rb * 32) / 2 == w && (k + 1 - rb * 32) / 2 == w;
    }
    forall i | 0 <= i < 4
      ensures selectors[i] == selectors'[i]
    {
      assert LiveWord(selectors, registers, 7 - i) == LiveWord(selectors', registers', 7 - i);
    }
    forall i | 0 <= i < 8
      ensures registers[i] == registers'[i]
    {
      assert LiveWord(selectors, registers, 15 - i) == LiveWord(selectors', registers', 15 - i);
    }
  }

  /** Whether a write covers one of the registers that place the on-chip RAM in
    memory; the base register also shows at the last byte of the first 1 MiB. */
  predicate MovesRam(ram: seq<byte>, start: nat, n: nat)
    requires |ram| == 0x200
  {
    || start <= InternalBase(ram) + IDB < start + n
    || start <= InternalBase(ram) + PRC < start + n
    || start <= MIB - 1 < start + n
  }

  class Cpu {
    const iram: array<byte>
    const gpr: array<word>
    const selector: array<word>
    const base: array<nat>
    var external: Memory
    var rb: nat
    var ip: word
    var status: Status

    ghost predicate Valid()
      reads this`rb, selector, base
    {
      && iram.Length == 0x200 && gpr.Length == 8 && selector.Length == 4 && base.Length == 4
      && gpr != selector && rb < 8
      && forall i :: 0 <= i < 4 ==> base[i] == selector[i] as int * 16
    }

    /** Byte `k` of the on-chip RAM, live registers included. */
    ghost function Internal(k: nat): byte
      reads this`rb, iram, gpr, selector, base
      requires Valid() && k < 0x200
    {
      InternalByte(iram[..], rb, selector[..], gpr[..], k)
    }

    /** The memory below 1 MiB as a program must see it. */
    ghost function View(a: nat): byte
      reads this`rb, this`external, iram, gpr, selector, base
      requires Valid() && a < MIB
    {
      ViewByte(iram[..], rb, selector[..], gpr[..], external, a)
    }

    /** The registers that place the RAM are no part of a bank. */
    lemma SpecialRegisters()
      requires Valid()
      ensures Internal(IDB) == iram[IDB] && Internal(PRC) == iram[PRC]
    {
    }

    method StoreRegisterBank()
      requires Valid()
      modifies iram
      ensures forall k :: 0 <= k < 0x200 ==> iram[k] == Internal(k) == old(Internal(k))
    {
      ghost var was := iram[..];
      SyncedStart(was, rb, selector[..], gpr[..]);
      for w := 4 to 8
        invariant iram[..] == Synced(was, rb, selector[..], gpr[..], w)
      {
        StoreBankWord(w, selector[7 - w]);
        SyncedNext(was, rb, selector[..], gpr[..], w);
      }
      for w := 8 to 16
        invariant iram[..] == Synced(was, rb, selector[..], gpr[..], w)
      {
        StoreBankWord(w, gpr[15 - w]);
        SyncedNext(was, rb, selector[..], gpr[..], w);
      }
      SyncedEnd(was, rb, selector[..], gpr[..]);
    }

    method StoreBankWord(w: nat, value: word)
      requires Valid() && w < 16
      modifies iram
      ensures iram[..] == old(iram[..])[rb * 32 + 2 * w := HalfOf(value, 0)][rb * 32 + 2 * w + 1 := HalfOf(value, 1)]
    {
      iram[rb * 32 + 2 * w] := value % 0x100;
      iram[rb * 32 + 2 * w + 1] := value / 0x100;
    }

    method LoadRegisterBank()
      requires Valid()
      modifies gpr, selector, base
      ensures Valid()
      ensures forall k :: 0 <= k < 0x200 ==> Internal(k) == iram[k]
    {
      hide InternalByte;
      for w := 4 to 8
        invariant Valid()
        invariant forall v :: 4 <= v < w ==> selector[7 - v] == BankWord(iram[..], rb, v)
      {
        selector[7 - w] := WordOf(iram[rb * 32 + 2 * w], iram[rb * 32 + 2 * w + 1]);
        base[7 - w] := selector[7 - w] as int * 16;
      }
      for w := 8 to 16
        invariant Valid()
        invariant forall v :: 4 <= v < 8 ==> selector[7 - v] == BankWord(iram[..], rb, v)
        invariant forall v :: 8 <= v < w ==> gpr[15 - v] == BankWord(iram[..], rb, v)
      {
        gpr[15 - w] := WordOf(iram[rb * 32 + 2 * w], iram[rb * 32 + 2 * w + 1]);
      }
      LoadedBank(iram[..], rb, selector[..], gpr[..]);
    }

    /** Reads memory below 1 MiB. */
    method ReadNoPaging(address: nat, size: nat) returns (buffer: seq<byte>)
      requires Valid() && address % MIB + size <= MIB
      modifies iram
      ensures buffer == old(ViewLoad(iram[..], rb, selector[..], gpr[..], external, address % MIB, size))
      ensures forall a :: 0 <= a < MIB ==> View(a) == old(View(a))
    {
      ghost var from := address % MIB;
      ghost var goal := ViewLoad(iram[..], rb, selector[..], gpr[..], external, from, size);
      var idb := iram[IDB] as int * 0x1000;
      var a, n := address % MIB, size;
      buffer := [];
      var mapped := idb + (if iram[PRC] / 0x40 % 2 != 0 then 0xE00 else 0xF00);
      if a < mapped {
        var count := Min(n, mapped - a);
        buffer := Load(external, a, count);
        assert buffer == goal[..count];
        if count == n {
          return;
        }
        a, n := a + count, n - count;
      }
      if iram[PRC] / 0x40 % 2 != 0 {
        StoreRegisterBank();
        SameView(old(iram[..]), rb, selector[..], gpr[..], iram[..], rb, selector[..], gpr[..], external);
      }
      buffer := ReadRest(goal, from, a, n, idb, buffer);
    }

    /** The part of a read that starts at or after the on-chip RAM. */
    method ReadRest(ghost goal: seq<byte>, ghost from: nat, address: nat, size: nat, idb: nat, done: seq<byte>)
      returns (buffer: seq<byte>)
      requires Valid() && idb == iram[IDB] as int * 0x1000
      requires from + |done| == address && |done| + size == |goal| && from + |goal| <= MIB
      requires done == goal[..|done|] && idb + 0xE00 <= address
      requires forall i :: |done| <= i < |goal| ==>
        goal[i] == (if from + i < idb + 0x1000 then iram[from + i - (0xE00 + idb)]
                    else if from + i == MIB - 1 then iram[IDB] else external(from + i))
      ensures buffer == goal
    {
      hide ViewLoad;
      var a, n := address, size;
      buffer := done;
      if a < idb + 0x1000 {
        var count := Min(n, idb + 0x1000 - a);
        var chunk := iram[a - (0xE00 + idb)..a - (0xE00 + idb) + count];
        buffer := Extended(goal, buffer, chunk);
        if count == n {
          return;
        }
        a, n := a + count, n - count;
      }
      if a < 0xFFFFF {
        var count := Min(n, 0xFFFFF - a);
        buffer := Extended(goal, buffer, Load(external, a, count));
        if count == n {
          return;
        }
        a, n := a + count, n - count;
      }
      if a < MIB {
        buffer := Extended(goal, buffer, iram[IDB..IDB + Min(n, 0x1_0000)]);
      }
    }

    /** Writes memory below 1 MiB. Unless the write moves the on-chip RAM, exactly
      the addressed bytes of the view change. */
    method WriteNoPaging(address: nat, data: seq<byte>)
      requires Valid() && address % MIB + |data| <= MIB
      modifies this`external, iram, gpr, selector, base
      ensures Valid()
      ensures !MovesRam(old(iram[..]), address % MIB, |data|) ==>
        forall a :: 0 <= a < MIB ==> View(a) == Overwritten(address % MIB, data, a, old(View(a)))
      ensures !MovesRam(old(iram[..]), address % MIB, |data|) ==>
        forall a :: 0 <= a < 0x10_0000 ==> var i := a - address % 0x10_0000;
          View(a) == if 0 <= i < |data| then data[i] else old(View(a))
    {
      ghost var ram, selectors, registers, was, from := iram[..], selector[..], gpr[..], external, address % MIB;
      WriteMapped(address, data);
      if !MovesRam(ram, from, |data|) {
        assert Internal(PRC) == iram[PRC] && old(Internal(PRC)) == ram[PRC];
        forall k | InternalStart(ram) - InternalBase(ram) <= k < 0x200
          ensures InternalByte(iram[..], rb, selector[..], gpr[..], k)
            == Overwritten(from, data, InternalBase(ram) + k, InternalByte(ram, rb, selectors, registers, k))
        {
          assert k != IDB ==> Internal(k) == Overwritten(from, data, InternalBase(ram) + k, old(Internal(k)));
        }
        WriteView(ram, selectors, registers, was, iram[..], selector[..], gpr[..], external, rb, from, data);
      }
    }

    /** Each byte of a write lands where the on-chip RAM was mapped before the
      write, even if the write moves it. */
    method WriteMapped(address: nat, data: seq<byte>)
      requires Valid() && address % MIB + |data| <= MIB
      modifies this`external, iram, gpr, selector, base
      ensures Valid()
      ensures forall k :: 0 <= k < IDB ==>
        Internal(k) == (if InternalStart(old(iram[..])) <= InternalBase(old(iram[..])) + k
                        then Overwritten(address % MIB, data, InternalBase(old(iram[..])) + k, old(Internal(k)))
                        else old(Internal(k)))
      ensures iram[IDB] == Overwritten(address % MIB, data, MIB - 1,
        Overwritten(address % MIB, data, InternalBase(old(iram[..])) + IDB, old(iram[IDB])))
      ensures forall a: nat ::
        a < InternalStart(old(iram[..])) || InternalBase(old(iram[..])) + 0x200 <= a < MIB - 1 ==>
        external(a) == Overwritten(address % MIB, data, a, old(external)(a))
    {
      hide Cpu.Internal;
      hide InternalByte;
      SpecialRegisters();
      var idb := iram[IDB] as int * 0x1000;
      var a, rest := address % MIB, data;
      var mapped := idb + (if iram[PRC] / 0x40 % 2 != 0 then 0xE00 else 0xF00);
      if a < mapped {
        var count := Min(|rest|, mapped - a);
        external := Store(external, a, rest[..count]);
        if count == |rest| {
          return;
        }
        a, rest := a + count, rest[count..];
      }
      if iram[PRC] / 0x40 % 2 != 0 {
        StoreRegisterBank();
      }
      WriteRest(a, rest, idb);
    }

    /** The part of a write that starts at or after the on-chip RAM. */
    method WriteRest(address: nat, data: seq<byte>, idb: nat)
      requires Valid() && idb == iram[IDB] as int * 0x1000
      requires InternalStart(iram[..]) <= address && address + |data| <= MIB
      requires address < idb + 0xF00 ==> forall k :: 0 <= k < 0x200 ==> iram[k] == Internal(k)
      modifies this`external, iram, gpr, selector, base
      ensures Valid()
      ensures forall k :: 0 <= k < IDB ==> Internal(k) == Overwritten(address, data, idb + 0xE00 + k, old(Internal(k)))
      ensures iram[IDB] == Overwritten(address, data, MIB - 1, Overwritten(address, data, idb + 0xFFF, old(iram[IDB])))
      ensures forall a: nat :: a < MIB - 1 ==>
        external(a) == if a < idb + 0x1000 then old(external)(a) else Overwritten(address, data, a, old(external)(a))
    {
      hide Cpu.Internal;
      var a, rest := address, data;
      if a < idb + 0x1000 {
        var count := Min(|rest|, idb + 0x1000 - a);
        WriteInternal(a - (0xE00 + idb), rest[..count], a < idb + 0xF00);
        if count == |rest| {
          return;
        }
        a, rest := a + count, rest[count..];
      }
      if a < 0xFFFFF {
        var count := Min(|rest|, 0xFFFFF - a);
        external := Store(external, a, rest[..count]);
        if count == |rest| {
          return;
        }
        a, rest := a + count, rest[count..];
      }
      if a < MIB && |rest| > 0 {
        SetBaseRegister(rest[0]);
      }
    }

    method SetBaseRegister(value: byte)
      requires Valid()
      modifies iram
      ensures Valid() && iram[IDB] == value && forall k :: 0 <= k < IDB ==> Internal(k) == old(Internal(k))
    {
      iram[IDB] := value;
    }

    /** Copies into the on-chip RAM; `reload` if the register banks may change. */
    method WriteInternal(start: nat, chunk: seq<byte>, reload: bool)
      requires Valid() && start + |chunk| <= 0x200
      requires reload || start >= 0x100
      requires reload ==> forall k :: 0 <= k < 0x200 ==> iram[k] == Internal(k)
      modifies iram, gpr, selector, base
      ensures Valid()
      ensures forall k :: 0 <= k < 0x200 ==> Internal(k) == Overwritten(start, chunk, k, old(Internal(k)))
      ensures iram[IDB] == Overwritten(start, chunk, IDB, old(iram[IDB]))
    {
      forall i | 0 <= i < |chunk| {
        iram[start + i] := chunk[i];
      }
      if reload {
        LoadRegisterBank();
      }
    }

    /** Switches to another register bank. */
    method SetRegisterBankNumber(number: nat)
      requires Valid()
      modifies this`rb, iram, gpr, selector, base
      ensures Valid() && rb == number % 8
      ensures forall k :: 0 <= k < 0x200 ==> iram[k] == old(Internal(k))
      ensures forall k :: 0 <= k < 0x200 ==> Internal(k) == old(Internal(k))
      ensures forall a :: 0 <= a < MIB ==> View(a) == old(View(a))
    {
      ghost var ram, was, selectors, registers := iram[..], rb, selector[..], gpr[..];
      StoreRegisterBank();
      ghost var stored := iram[..];
      rb := number % 8;
      LoadRegisterBank();
      assert iram[..] == stored;
      forall k | 0 <= k < 0x200
        ensures Internal(k) == InternalByte(ram, was, selectors, registers, k)
      {
        assert stored[k] == old(Internal(k));
        assert Internal(k) == iram[k];
      }
      SameView(ram, was, selectors, registers, iram[..], rb, selector[..], gpr[..], external);
    }

    /** Loads the FLAGS word; a change of its bank number switches banks. */
    method FlagsSet16(value: word)
      requires Valid()
      modifies this`rb, this`status, iram, gpr, selector, base
      ensures Valid() && rb == BankOf(value) && status == StatusOf(value)
      ensures forall k :: 0 <= k < 0x200 ==> Internal(k) == if k == FLAG then FlagByteOf(value) else old(Internal(k))
      ensures old(rb) == rb ==> gpr[..] == old(gpr[..]) && selector[..] == old(selector[..])
    {
      var switchBanks := rb != BankOf(value);
      if switchBanks {
        StoreRegisterBank();
      }
      status := StatusOf(value);
      iram[FLAG] := FlagByteOf(value);
      rb := BankOf(value);
      if switchBanks {
        LoadRegisterBank();
      }
    }

    /** Interrupt entry by bank switching: FLAGS and IP are saved in the new bank. */
    method EnterInterruptBankSwitching(bank: nat, fault: bool, oldIp: word)
      requires Valid()
      modifies this`rb, this`status, this`ip, iram, gpr, selector, base
      ensures Valid() && rb == bank % 8
      ensures forall k :: 0 <= k < 0x200 && !SaveArea(rb, k) ==> Internal(k) == old(Internal(k))
      ensures BankWord(iram[..], rb, PSW_SAVE) == old(FlagsOf(status, iram[FLAG], rb))
      ensures BankWord(iram[..], rb, PC_SAVE) == if fault then oldIp else old(ip)
      ensures ip == BankWord(iram[..], rb, VECTOR_PC)
      ensures status == old(status).(ief := false, tf := false)
    {
      hide Cpu.Internal;
      hide Cpu.View;
      hide FlagsOf;
      if fault {
        ip := oldIp;
      }
      var flags := FlagsOf(status, iram[FLAG], rb);
      SetRegisterBankNumber(bank);
      SaveInterrupted(flags);
      status := status.(ief := false, tf := false);
      ip := WordOf(iram[rb * 32 + 2 * VECTOR_PC], iram[rb * 32 + 2 * VECTOR_PC + 1]);
    }

    method SaveInterrupted(flags: word)
      requires Valid()
      modifies iram
      ensures BankWord(iram[..], rb, PSW_SAVE) == flags && BankWord(iram[..], rb, PC_SAVE) == ip
      ensures forall k :: 0 <= k < 0x200 && !SaveArea(rb, k) ==>
        iram[k] == old(iram[k]) && Internal(k) == old(Internal(k))
    {
      StoreBankWord(PSW_SAVE, flags);
      StoreBankWord(PC_SAVE, ip);
    }

    /** RETRBI, the return from such an interrupt. */
    method ReturnFromBankSwitching()
      requires Valid()
      modifies this`rb, this`status, this`ip, iram, gpr, selector, base
      ensures Valid()
      ensures var psw := old(BankWord(iram[..], rb, PSW_SAVE));
        && ip == old(BankWord(iram[..], rb, PC_SAVE)) && rb == BankOf(psw) && status == StatusOf(psw)
        && forall k :: 0 <= k < 0x200 ==> Internal(k) == if k == FLAG then FlagByteOf(psw) else old(Internal(k))
    {
      StoreRegisterBank();
      ip := WordOf(iram[rb * 32 + 2 * PC_SAVE], iram[rb * 32 + 2 * PC_SAVE + 1]);
      FlagsSet16(WordOf(iram[rb * 32 + 2 * PSW_SAVE], iram[rb * 32 + 2 * PSW_SAVE + 1]));
    }

    /** A bank-switching interrupt served in another bank, followed by RETRBI,
      restores the whole register file, IP and FLAGS, whatever the handler did to
      its own registers and to the rest of the on-chip RAM. */
    method BankInterruptRoundTrip(bank: nat, handlerRam: seq<byte>, handlerSelectors: seq<word>,
                                  handlerRegisters: seq<word>, handlerStatus: Status, handlerIp: word)
      requires Valid() && bank % 8 != rb
      requires |handlerRam| == 0x200 && |handlerSelectors| == 4 && |handlerRegisters| == 8
      requires forall k :: 0 <= k < 0x200 && Cached(rb, k) ==> handlerRam[k] == Internal(k)
      requires BankWord(handlerRam, bank % 8, PSW_SAVE) == FlagsOf(status, iram[FLAG], rb)
      requires BankWord(handlerRam, bank % 8, PC_SAVE) == ip
      modifies this`rb, this`status, this`ip, iram, gpr, selector, base
      ensures Valid()
      ensures gpr[..] == old(gpr[..]) && selector[..] == old(selector[..]) && base[..] == old(base[..])
      ensures rb == old(rb) && ip == old(ip) && status == old(status)
      ensures FlagsOf(status, iram[FLAG], rb) == old(FlagsOf(status, iram[FLAG], rb))
    {
      hide FlagsOf;
      ghost var ram, was, selectors, registers := iram[..], rb, selector[..], gpr[..];
      EnterInterruptBankSwitching(bank, false, 0);
      Overwrite(handlerRam, handlerSelectors, handlerRegisters, handlerStatus, handlerIp);
      ReturnFromBankSwitching();
      FlagsRoundTrip(old(status), ram[FLAG], was);
      assert Internal(FLAG) == iram[FLAG];
      forall k | 0 <= k < 0x200 && Cached(was, k)
        ensures InternalByte(iram[..], rb, selector[..], gpr[..], k) == InternalByte(ram, was, selectors, registers, k)
      {
        assert Internal(k) == handlerRam[k] == old(Internal(k));
      }
      SameBankSameRegisters(iram[..], selector[..], gpr[..], ram, selectors, registers, rb);
    }

    /** Any effect an interrupt handler may have on the processor state. */
    method Overwrite(ram: seq<byte>, selectors: seq<word>, registers: seq<word>, s: Status, newIp: word)
      requires Valid() && |ram| == 0x200 && |selectors| == 4 && |registers| == 8
      modifies this`status, this`ip, iram, gpr, selector, base
      ensures Valid() && iram[..] == ram && selector[..] == selectors && gpr[..] == registers
    {
      forall i | 0 <= i < 0x200 { iram[i] := ram[i]; }
      forall i | 0 <= i < 8 { gpr[i] := registers[i]; }
      forall i | 0 <= i < 4 { selector[i] := selectors[i]; }
      forall i | 0 <= i < 4 { base[i] := selectors[i] as int * 16; }
      status, ip := s, newIp;
    }
  }

  /** Interrupt entry, in bytes of the on-chip RAM: the new bank saves FLAGS at 4 and
    the return address at 6, and gives the address of the handler at 2. */
  method EnterInBytes(cpu: Cpu, bank: nat, fault: bool, oldIp: word)
    requires cpu.Valid()
    modifies cpu`rb, cpu`status, cpu`ip, cpu.iram, cpu.gpr, cpu.selector, cpu.base
    ensures cpu.Valid() && cpu.rb == bank % 8
    ensures var s, flag, m: nat, r := old(cpu.status), old(cpu.iram[0x1EA]), 32 * cpu.rb, cpu.iram;
      var psw, saved := 0x8000 + 0x1000 * old(cpu.rb) + 8 * (flag / 8 % 2) + 0x20 * (flag / 32 % 2)
        + Bit(s.cf) + 2 * Bit(s.ibrk) + 4 * Bit(s.pf) + 0x10 * Bit(s.af) + 0x40 * Bit(s.zf) + 0x80 * Bit(s.sf)
        + 0x100 * Bit(s.tf) + 0x200 * Bit(s.ief) + 0x400 * Bit(s.df) + 0x800 * Bit(s.of),
        if fault then oldIp else old(cpu.ip);
      && r[m + 4] as int + 0x100 * r[m + 5] as int == psw
      && r[m + 6] as int + 0x100 * r[m + 7] as int == saved
      && cpu.ip as int == r[m + 2] as int + 0x100 * r[m + 3] as int
    ensures cpu.status == old(cpu.status).(ief := false, tf := false)
  {
    hide FlagsOf;
    hide BankWord;
    hide Bit;
    hide Cpu.Internal;
    PswImage(cpu.status, cpu.iram[FLAG], cpu.rb);
    cpu.EnterInterruptBankSwitching(bank, fault, oldIp);
    BankWordImage(cpu.iram[..], cpu.rb, 1);
    BankWordImage(cpu.iram[..], cpu.rb, 2);
    BankWordImage(cpu.iram[..], cpu.rb, 3);
  }

  /** RETRBI, in bytes of the on-chip RAM. */
  method ReturnInBytes(cpu: Cpu)
    requires cpu.Valid()
    modifies cpu`rb, cpu`status, cpu`ip, cpu.iram, cpu.gpr, cpu.selector, cpu.base
    ensures var m: nat, r := 32 * old(cpu.rb), old(cpu.iram[..]);
      var psw: nat, s := r[m + 4] as int + 0x100 * r[m + 5] as int, cpu.status;
      && cpu.ip as int == r[m + 6] as int + 0x100 * r[m + 7] as int
      && cpu.rb == Bit(Digit(psw, 12)) + 2 * Bit(Digit(psw, 13)) + 4 * Bit(Digit(psw, 14))
      && s.cf == Digit(psw, 0) && s.ibrk == Digit(psw, 1) && s.pf == Digit(psw, 2) && s.af == Digit(psw, 4)
      && s.zf == Digit(psw, 6) && s.sf == Digit(psw, 7) && s.tf == Digit(psw, 8) && s.ief == Digit(psw, 9)
      && s.df == Digit(psw, 10) && s.of == Digit(psw, 11)
  {
    hide StatusOf;
    hide BankOf;
    hide FlagByteOf;
    hide BankWord;
    hide Bit;
    hide Digit;
    hide Cpu.Internal;
    BankWordImage(cpu.iram[..], cpu.rb, 2);
    BankWordImage(cpu.iram[..], cpu.rb, 3);
    PswLoaded(BankWord(cpu.iram[..], cpu.rb, PSW_SAVE));
    cpu.ReturnFromBankSwitching();
  }
}
