/** Real-mode interrupts of the 8086: entry pushes FLAGS, CS and IP and loads the
  vector (src/cpu/protection.c), IRET pops them (same file), through the stack
  operations of src/cpu/x86.c and the segmented memory of src/cpu/memory.c. */
module Interrupts {
  import opened Arithmetic
  import opened ByteMemory
  import opened FlagsWord
  import opened SegmentedAccess

  /** The nine flags of the 8086. */
  datatype Flags = Flags(cf: bool, pf: bool, af: bool, zf: bool, sf: bool, tf: bool, ief: bool, df: bool, of: bool)

  /** The FLAGS word: bit 1 and bits 12 to 15 are set. */
  function FlagBits(f: Flags): (bits: seq<bool>)
    ensures |bits| == 16
  {
    [f.cf, true, f.pf, false, f.af, false, f.zf, f.sf, f.tf, f.ief, f.df, f.of, true, true, true, true]
  }

  function FlagsFrom(b: seq<bool>): Flags
    requires |b| == 16
  {
    Flags(b[0], b[2], b[4], b[6], b[7], b[8], b[9], b[10], b[11])
  }

  function GetFlags(f: Flags): word { PackWord(FlagBits(f)) }

  function SetFlags(w: word): Flags { FlagsFrom(Bits(w)) }

  lemma FlagsRoundTrip(f: Flags)
    ensures SetFlags(GetFlags(f)) == f
  {
    hide Bits;
    hide PackWord;
    var b := FlagBits(f);
    assert Bits(PackWord(b)) == b;
  }

  lemma PackedFlags(f: Flags)
    ensures GetFlags(f) == PackWord(FlagBits(f))
  {
    hide FlagBits;
  }

  lemma LowFlagDigits(f: Flags)
    ensures var b := FlagBits(f);
      b[0] == f.cf && b[1] && b[2] == f.pf && !b[3] && b[4] == f.af && !b[5] && b[6] == f.zf && b[7] == f.sf
  {
  }

  lemma HighFlagDigits(f: Flags)
    ensures var b := FlagBits(f);
      b[8] == f.tf && b[9] == f.ief && b[10] == f.df && b[11] == f.of && b[12] && b[13] && b[14] && b[15]
  {
  }

  lemma FlagNibbles(f: Flags)
    ensures Nibble(f.cf, true, f.pf, false) == Bit(f.cf) + 2 + 4 * Bit(f.pf)
    ensures Nibble(f.af, false, f.zf, f.sf) == Bit(f.af) + 4 * Bit(f.zf) + 8 * Bit(f.sf)
    ensures Nibble(f.tf, f.ief, f.df, f.of) == Bit(f.tf) + 2 * Bit(f.ief) + 4 * Bit(f.df) + 8 * Bit(f.of)
    ensures Nibble(true, true, true, true) == 0xF
  {
  }

  /** The FLAGS word as a number. */
  lemma FlagsImage(f: Flags)
    ensures GetFlags(f) as int == 0xF002 + Bit(f.cf) + 4 * Bit(f.pf) + 0x10 * Bit(f.af) + 0x40 * Bit(f.zf)
      + 0x80 * Bit(f.sf) + 0x100 * Bit(f.tf) + 0x200 * Bit(f.ief) + 0x400 * Bit(f.df) + 0x800 * Bit(f.of)
  {
    hide *;
    PackedFlags(f);
    LowFlagDigits(f);
    HighFlagDigits(f);
    FlagNibbles(f);
    PackedWord(FlagBits(f));
  }

  /** The flags that a word is loaded into. */
  lemma FlagsLoaded(w: word)
    ensures var f := SetFlags(w);
      && f.cf == Digit(w, 0) && f.pf == Digit(w, 2) && f.af == Digit(w, 4) && f.zf == Digit(w, 6)
      && f.sf == Digit(w, 7) && f.tf == Digit(w, 8) && f.ief == Digit(w, 9) && f.df == Digit(w, 10)
      && f.of == Digit(w, 11)
  {
    hide Bits;
    DigitsOfWord(w);
    hide Digit;
  }

  /** Stack pointer arithmetic. */
  function Below(sp: word, n: nat): word
    requires n < 0x1_0000
  {
    if n <= sp then sp - n else sp as int + 0x1_0000 - n
  }

  function Above(sp: word, n: nat): word
    requires n < 0x1_0000
  {
    if sp as int + n < 0x1_0000 then sp as int + n else sp as int + n - 0x1_0000
  }

  /** Byte `i` above the stack pointer, wherever the segment and the first 1 MiB wrap. */
  function StackByte(m: Memory, ss: word, sp: word, i: nat): byte {
    m(SegmentPhysical(ss as int * 0x10, sp, i))
  }

  function StackWord(m: Memory, ss: word, sp: word, i: nat): word {
    WordOf(StackByte(m, ss, sp, i), StackByte(m, ss, sp, i + 1))
  }

  /** The `n` bytes above the stack pointer. */
  function StackTop(m: Memory, ss: word, sp: word, n: nat): (s: seq<byte>)
    ensures |s| == n
    ensures forall i :: 0 <= i < n ==> s[i] == StackByte(m, ss, sp, i)
  {
    seq<byte>(n, i requires 0 <= i < n => StackByte(m, ss, sp, i))
  }

  lemma BelowAbove(sp: word, n: nat, i: nat)
    requires n < 0x1_0000
    ensures Above(Below(sp, n), n) == sp
    ensures SegmentPhysical(0, Below(sp, n), n + i) == SegmentPhysical(0, sp, i)
    ensures forall base: nat :: SegmentPhysical(base, Below(sp, n), n + i) == SegmentPhysical(base, sp, i)
  {
    assert (Below(sp, n) + (n + i)) % 0x1_0000 == (sp + i) % 0x1_0000;
  }

  /** A push puts its word on top of the bytes that were there. */
  lemma PushedWord(m: Memory, m': Memory, ss: word, sp: word, value: word, n: nat)
    requires n + 2 <= 0x1_0000
    requires AgreeBelow(m', SegmentStore(m, ss as int * 0x10, Below(sp, 2), Bytes16(value)), MIB)
    ensures StackTop(m', ss, Below(sp, 2), n + 2) == Bytes16(value) + StackTop(m, ss, sp, n)
  {
    var base, low := ss as int * 0x10, Below(sp, 2);
    SegmentStoreExact(m, base, low, Bytes16(value));
    forall i | 0 <= i < n + 2
      ensures StackByte(m', ss, low, i) == (Bytes16(value) + StackTop(m, ss, sp, n))[i]
    {
      if i >= 2 {
        SegmentPhysicalInjective(base, low, 0, i);
        SegmentPhysicalInjective(base, low, 1, i);
        assert Misses(base, low, 2, SegmentPhysical(base, low, i));
        BelowAbove(sp, 2, i - 2);
        assert SegmentPhysical(base, low, 2 + (i - 2)) == SegmentPhysical(base, sp, i - 2);
      }
    }
  }

  /** Memory below 1 MiB is the same but for the `n` bytes above the stack pointer. */
  ghost predicate KeptOutside(m: Memory, m': Memory, ss: word, sp: word, n: nat) {
    forall p: nat :: p < MIB && Misses(ss as int * 0x10, sp, n, p) ==> m'(p) == m(p)
  }

  lemma PushedOnly(m: Memory, m': Memory, ss: word, sp: word, value: word)
    requires AgreeBelow(m', SegmentStore(m, ss as int * 0x10, sp, Bytes16(value)), MIB)
    ensures KeptOutside(m, m', ss, sp, 2)
  {
    hide SegmentStore;
    SegmentStoreExact(m, ss as int * 0x10, sp, Bytes16(value));
  }

  /** Pushes one below the other. */
  lemma KeptBelow(m0: Memory, m1: Memory, m2: Memory, ss: word, sp: word, n: nat)
    requires n + 2 <= 0x1_0000
    requires KeptOutside(m0, m1, ss, sp, n) && KeptOutside(m1, m2, ss, Below(sp, 2), 2)
    ensures KeptOutside(m0, m2, ss, Below(sp, 2), n + 2)
  {
    var base, low := ss as int * 0x10, Below(sp, 2);
    forall p: nat | p < MIB && Misses(base, low, n + 2, p)
      ensures m2(p) == m0(p)
    {
      forall i | 0 <= i < n
        ensures SegmentPhysical(base, sp, i) != p
      {
        BelowAbove(sp, 2, i);
        assert SegmentPhysical(base, low, 2 + i) != p;
      }
      assert Misses(base, sp, n, p) && Misses(base, low, 2, p);
    }
  }

  /** The six bytes that an interrupt saves. */
  function FrameBytes(ip: word, cs: word, flags: Flags): (s: seq<byte>)
    ensures |s| == 6
  {
    Bytes16(ip) + Bytes16(cs) + Bytes16(GetFlags(flags))
  }

  lemma FrameOnTop(ip: word, cs: word, flags: Flags, rest: seq<byte>)
    ensures Bytes16(ip) + (Bytes16(cs) + (Bytes16(GetFlags(flags)) + rest)) == FrameBytes(ip, cs, flags) + rest
  {
    hide GetFlags;
    hide Bytes16;
  }

  /** The address of byte `i` above the stack pointer. */
  function StackAddress(ss: word, sp: word, i: nat): nat {
    (16 * ss as int + (sp as int + i) % 0x1_0000) % 0x10_0000
  }

  /** The bytes of a frame: IP, CS and FLAGS, from the stack pointer up. */
  lemma FrameInMemory(m: Memory, ss: word, sp: word, ip: word, cs: word, flags: Flags, rest: seq<byte>)
    requires StackTop(m, ss, sp, 6 + |rest|) == FrameBytes(ip, cs, flags) + rest
    ensures m(StackAddress(ss, sp, 0)) as int == ip % 0x100 && m(StackAddress(ss, sp, 1)) as int == ip / 0x100
    ensures m(StackAddress(ss, sp, 2)) as int == cs % 0x100 && m(StackAddress(ss, sp, 3)) as int == cs / 0x100
    ensures m(StackAddress(ss, sp, 4)) as int == GetFlags(flags) % 0x100
    ensures m(StackAddress(ss, sp, 5)) as int == GetFlags(flags) / 0x100
  {
    hide GetFlags;
    var s := StackTop(m, ss, sp, 6 + |rest|);
    forall k | 0 <= k < 6
      ensures s[k] == m(StackAddress(ss, sp, k))
    {
    }
    hide StackAddress;
    assert s[0] as int == ip % 0x100 && s[1] as int == ip / 0x100;
    assert s[2] as int == cs % 0x100 && s[3] as int == cs / 0x100;
    assert s[4] as int == GetFlags(flags) % 0x100 && s[5] as int == GetFlags(flags) / 0x100;
  }

  /** The word `n` bytes above the stack pointer is the top word of the stack
    that has `n` bytes fewer. */
  lemma WordAbove(m: Memory, ss: word, sp: word, n: nat)
    requires n < 0x1_0000
    ensures StackWord(m, ss, Above(sp, n), 0) == StackWord(m, ss, sp, n)
  {
    var high: int := Above(sp, n);
    assert (high + 0) % 0x1_0000 == (sp + n) % 0x1_0000;
    assert (high + 1) % 0x1_0000 == (sp + (n + 1)) % 0x1_0000;
  }

  /** A saved frame read back word by word. */
  lemma FrameWords(m: Memory, ss: word, sp: word, ip: word, cs: word, flags: Flags, rest: seq<byte>)
    requires StackTop(m, ss, sp, 6 + |rest|) == FrameBytes(ip, cs, flags) + rest
    ensures StackWord(m, ss, sp, 0) == ip && StackWord(m, ss, sp, 2) == cs
    ensures SetFlags(StackWord(m, ss, sp, 4)) == flags
  {
    hide StackByte;
    hide GetFlags;
    hide SetFlags;
    var s, f := StackTop(m, ss, sp, 6 + |rest|), GetFlags(flags);
    var w := Bytes16(ip) + Bytes16(cs) + Bytes16(f) + rest;
    assert s == w;
    assert s[0] == Bytes16(ip)[0] && s[1] == Bytes16(ip)[1];
    assert s[2] == Bytes16(cs)[0] && s[3] == Bytes16(cs)[1];
    assert s[4] == Bytes16(f)[0] && s[5] == Bytes16(f)[1];
    FlagsRoundTrip(flags);
  }

  /** The bytes above a frame are the stack before it was pushed. */
  lemma StackBelowFrame(m: Memory, ss: word, sp: word, n: nat)
    requires n + 6 <= 0x1_0000
    ensures StackTop(m, ss, sp, n) == StackTop(m, ss, Below(sp, 6), n + 6)[6..]
  {
    forall i | 0 <= i < n
      ensures StackByte(m, ss, sp, i) == StackByte(m, ss, Below(sp, 6), 6 + i)
    {
      BelowAbove(sp, 6, i);
    }
  }

  /** What a program does between the entry of an interrupt and its return: work
    that changes registers and one byte of memory, and further interrupts. A
    fault returns to the start of its instruction. */
  datatype Activity =
    | Work(cs: word, ip: word, flags: Flags, address: nat, value: byte)
    | Interrupt(vector: byte, fault: bool, start: word, body: seq<Activity>)

  /** The nesting depth of interrupts. */
  function Depth(a: Activity): nat
    decreases a, 1
  {
    match a
    case Work(_, _, _, _, _) => 0
    case Interrupt(_, _, _, body) => 1 + DepthOf(body)
  }

  function DepthOf(body: seq<Activity>): nat
    decreases body, 0
  {
    if |body| == 0 then 0
    else if Depth(body[0]) < DepthOf(body[1..]) then DepthOf(body[1..])
    else Depth(body[0])
  }

  /** No work overwrites the `n` bytes above the stack pointer or what interrupts
    save on top of them. */
  ghost predicate KeepsStack(a: Activity, ss: word, sp: word, n: nat)
    decreases a, 1
  {
    match a
    case Work(_, _, _, address, _) => Misses(ss as int * 0x10, sp, n, address % MIB)
    case Interrupt(_, _, _, body) => AllKeepStack(body, ss, Below(sp, 6), n + 6)
  }

  ghost predicate AllKeepStack(body: seq<Activity>, ss: word, sp: word, n: nat)
    decreases body, 0
  {
    |body| == 0 || (KeepsStack(body[0], ss, sp, n) && AllKeepStack(body[1..], ss, sp, n))
  }

  /** Interrupts each inside the one before. */
  function Nested(vectors: seq<byte>): (run: seq<Activity>)
    ensures |vectors| > 0 ==> |run| == 1 && run[0].Interrupt? && !run[0].fault
  {
    if |vectors| == 0 then [] else [Interrupt(vectors[0], false, 0, Nested(vectors[1..]))]
  }

  lemma {:induction false} NestedFits(vectors: seq<byte>, ss: word, sp: word, n: nat)
    ensures DepthOf(Nested(vectors)) == |vectors| && AllKeepStack(Nested(vectors), ss, sp, n)
    decreases |vectors|
  {
    if |vectors| == 0 {
    } else {
      NestedFits(vectors[1..], ss, Below(sp, 6), n + 6);
      var a, rest := Nested(vectors)[0], Nested(vectors)[1..];
      assert rest == [] && DepthOf(rest) == 0 && AllKeepStack(rest, ss, sp, n);
      assert Depth(a) == |vectors| && KeepsStack(a, ss, sp, n);
    }
  }

  class Cpu {
    const mem: MemoryUnit
    const ss: word
    var sp: word
    var cs: word
    var ip: word
    var flags: Flags

    ghost predicate Valid()
      reads this, mem
    {
      mem.Valid() && !mem.isV33
    }

    constructor (m: Memory, ss: word, sp: word, cs: word, ip: word, flags: Flags)
      ensures Valid() && fresh(mem) && mem.external == m
      ensures this.ss == ss && this.sp == sp && this.cs == cs && this.ip == ip && this.flags == flags
    {
      mem := new MemoryUnit(m, false);
      this.ss, this.sp, this.cs, this.ip, this.flags := ss, sp, cs, ip, flags;
    }

    /** The `n` bytes above the stack pointer. */
    ghost function Top(n: nat): (s: seq<byte>)
      reads this`sp, mem`external
      ensures |s| == n
    {
      StackTop(mem.external, ss, sp, n)
    }

    method Push16(value: word, ghost n: nat)
      requires Valid() && n + 2 <= 0x1_0000
      modifies this`sp, mem`external
      ensures Valid() && sp == Below(old(sp), 2)
      ensures Top(n + 2) == Bytes16(value) + old(Top(n))
      ensures KeptOutside(old(mem.external), mem.external, ss, sp, 2)
    {
      hide SegmentStore;
      ghost var before := mem.external;
      var newSp := (sp as int + 0xFFFE) % 0x1_0000;
      mem.SegmentedWrite(ss as int * 0x10, newSp, Bytes16(value));
      PushedWord(before, mem.external, ss, sp, value, n);
      PushedOnly(before, mem.external, ss, newSp, value);
      sp := newSp;
    }

    method Pop16() returns (value: word)
      requires Valid()
      modifies this`sp
      ensures Valid() && sp == Above(old(sp), 2)
      ensures value == StackWord(mem.external, ss, old(sp), 0)
    {
      value := Read16(ss as int * 0x10, sp);
      sp := (sp as int + 2) % 0x1_0000;
    }

    method Read16(base: nat, offset: nat) returns (value: word)
      requires Valid()
      ensures value == WordOf(mem.external(SegmentPhysical(base, offset, 0)),
        mem.external(SegmentPhysical(base, offset, 1)))
    {
      var buffer := mem.SegmentedRead(base, offset, 2);
      value := WordOf(buffer[0], buffer[1]);
      assert buffer[..][0] == buffer[0] && buffer[..][1] == buffer[1];
    }

    method ReadVector(offset: nat) returns (value: word)
      requires Valid() && offset + 2 <= 0x400
      ensures value == Word(mem.external, offset)
    {
      value := Read16(0, offset);
    }

    /** The three pushes of interrupt entry. */
    method PushFrame(ghost n: nat)
      requires Valid() && n + 6 <= 0x1_0000
      modifies this`sp, this`flags, mem`external
      ensures Valid() && sp == Below(old(sp), 6)
      ensures Top(n + 6) == FrameBytes(ip, cs, old(flags)) + old(Top(n))
      ensures KeptOutside(old(mem.external), mem.external, ss, sp, 6)
      ensures flags == old(flags).(ief := false, tf := false)
    {
      hide GetFlags;
      hide Cpu.Top;
      hide FrameBytes;
      hide Bytes16;
      hide KeptOutside;
      FrameOnTop(ip, cs, flags, Top(n));
      ghost var m0, sp0 := mem.external, sp;
      Push16(GetFlags(flags), n);
      ghost var m1 := mem.external;
      flags := flags.(ief := false, tf := false);
      Push16(cs, n + 2);
      ghost var m2 := mem.external;
      KeptBelow(m0, m1, m2, ss, Below(sp0, 2), 2);
      Push16(ip, n + 4);
      KeptBelow(m0, m2, mem.external, ss, Below(sp0, 4), 4);
    }

    /** Interrupt entry; a fault saves the start of its instruction. */
    method EnterInterrupt(vector: byte, fault: bool, start: word, ghost n: nat)
      requires Valid() && n + 6 <= 0x1_0000
      modifies this`sp, this`cs, this`ip, this`flags, mem`external
      ensures Valid() && sp == Below(old(sp), 6)
      ensures Top(n + 6) == FrameBytes(if fault then start else old(ip), old(cs), old(flags)) + old(Top(n))
      ensures KeptOutside(old(mem.external), mem.external, ss, sp, 6)
      ensures flags == old(flags).(ief := false, tf := false)
      ensures ip == Word(mem.external, vector as int * 4) && cs == Word(mem.external, vector as int * 4 + 2)
    {
      hide FrameBytes;
      hide KeptOutside;
      if fault {
        ip := start;
      }
      PushFrame(n);
      cs := ReadVector(vector as int * 4 + 2);
      ip := ReadVector(vector as int * 4);
    }

    /** IRET. */
    method ReturnInterrupt16()
      requires Valid()
      modifies this`sp, this`cs, this`ip, this`flags
      ensures Valid() && sp == Above(old(sp), 6)
      ensures ip == StackWord(mem.external, ss, old(sp), 0)
      ensures cs == StackWord(mem.external, ss, old(sp), 2)
      ensures flags == SetFlags(StackWord(mem.external, ss, old(sp), 4))
    {
      hide StackWord;
      hide SetFlags;
      WordAbove(mem.external, ss, sp, 2);
      WordAbove(mem.external, ss, sp, 4);
      ip := Pop16();
      cs := Pop16();
      var w := Pop16();
      flags := SetFlags(w);
    }

    /** IRET with a known frame on top of the stack. */
    method ReturnFrom(ghost ip0: word, ghost cs0: word, ghost flags0: Flags, ghost rest: seq<byte>)
      requires Valid() && |rest| + 6 <= 0x1_0000
      requires Top(6 + |rest|) == FrameBytes(ip0, cs0, flags0) + rest
      modifies this`sp, this`cs, this`ip, this`flags
      ensures Valid() && sp == Above(old(sp), 6)
      ensures ip == ip0 && cs == cs0 && flags == flags0
      ensures Top(|rest|) == rest
    {
      hide FrameBytes;
      hide SetFlags;
      ghost var m, low := mem.external, sp;
      ReturnInterrupt16();
      FrameWords(m, ss, low, ip0, cs0, flags0, rest);
      assert Below(sp, 6) == low;
      StackBelowFrame(m, ss, sp, |rest|);
    }

    method StoreByte(address: nat, value: byte, ghost n: nat)
      requires Valid() && Misses(ss as int * 0x10, sp, n, address % MIB)
      modifies mem`external
      ensures Valid() && Top(n) == old(Top(n))
    {
      ghost var before, p := mem.external, address % MIB;
      mem.MemoryWrite(address, [value]);
      assert ChunkedStore(Unpaged, before, address, [value]) == Store(before, p, [value]);
      forall i | 0 <= i < n
        ensures StackByte(mem.external, ss, sp, i) == StackByte(before, ss, sp, i)
      {
        assert SegmentPhysical(ss as int * 0x10, sp, i) != p;
      }
    }

    /** Any properly nested run of interrupts and returns restores CS:IP, SP and
      every flag, as long as the frames fit the stack segment beside the `n`
      bytes in use and the work in between leaves them alone. */
    method Perform(a: Activity, ghost n: nat)
      requires Valid() && n + 6 * Depth(a) <= 0x1_0000 && KeepsStack(a, ss, sp, n)
      modifies this`sp, this`cs, this`ip, this`flags, mem`external
      ensures Valid() && sp == old(sp) && Top(n) == old(Top(n))
      ensures a.Interrupt? ==>
        ip == (if a.fault then a.start else old(ip)) && cs == old(cs) && flags == old(flags)
      decreases a, 1
    {
      hide Cpu.Top;
      hide FrameBytes;
      match a {
        case Work(newCs, newIp, newFlags, address, value) =>
          cs, ip, flags := newCs, newIp, newFlags;
          StoreByte(address, value, n);
        case Interrupt(vector, fault, start, body) =>
          ghost var ip0, cs0, flags0, rest := if fault then start else ip, cs, flags, Top(n);
          EnterInterrupt(vector, fault, start, n);
          PerformAll(body, n + 6);
          ReturnFrom(ip0, cs0, flags0, rest);
      }
    }

    method PerformAll(body: seq<Activity>, ghost n: nat)
      requires Valid() && n + 6 * DepthOf(body) <= 0x1_0000 && AllKeepStack(body, ss, sp, n)
      modifies this`sp, this`cs, this`ip, this`flags, mem`external
      ensures Valid() && sp == old(sp) && Top(n) == old(Top(n))
      decreases body, 0
    {
      hide Cpu.Top;
      if |body| > 0 {
        Perform(body[0], n);
        PerformAll(body[1..], n);
      }
    }

    /** One entry for each vector, each inside the one before, followed by as many
      IRETs: up to 10922 of them fit the stack segment. */
    method NestedRun(vectors: seq<byte>)
      requires Valid() && |vectors| <= 10922
      modifies this`sp, this`cs, this`ip, this`flags, mem`external
      ensures Valid() && sp == old(sp)
      ensures cs == old(cs) && ip == old(ip) && flags == old(flags)
    {
      hide Cpu.Top;
      NestedFits(vectors, ss, sp, 0);
      if |vectors| > 0 {
        Perform(Nested(vectors)[0], 0);
      }
    }
  }

  // Entry and return in terms of bytes.

  lemma KeptInNumbers(m: Memory, m': Memory, ss: word, sp: word)
    requires KeptOutside(m, m', ss, sp, 6)
    ensures forall p: nat :: p < 0x10_0000 && (forall i :: 0 <= i < 6 ==> StackAddress(ss, sp, i) != p) ==>
      m'(p) == m(p)
  {
    var base: nat := ss as int * 0x10;
    assert forall i: nat :: SegmentPhysical(base, sp, i) == StackAddress(ss, sp, i);
    forall p: nat | p < 0x10_0000 && forall i :: 0 <= i < 6 ==> StackAddress(ss, sp, i) != p
      ensures m'(p) == m(p)
    {
      assert Misses(base, sp, 6, p);
    }
  }

  lemma StackWordInBytes(m: Memory, ss: word, sp: word, n: nat)
    ensures StackWord(m, ss, sp, n) as int
      == m(StackAddress(ss, sp, n)) as int + 0x100 * m(StackAddress(ss, sp, n + 1)) as int
  {
  }

  lemma WordInBytes(m: Memory, a: nat)
    ensures Word(m, a) as int == m(a) as int + 0x100 * m(a + 1) as int
  {
  }

  lemma TopIsStackTop(cpu: Cpu, n: nat)
    ensures cpu.Top(n) == StackTop(cpu.mem.external, cpu.ss, cpu.sp, n)
  {
  }

  lemma BelowInNumbers(sp: word)
    ensures Below(sp, 6) as int == (sp as int + 0xFFFA) % 0x1_0000
  {
  }

  lemma BytesOfWord(m: Memory, a: nat, b: nat, w: word)
    requires m(a) as int == w % 0x100 && m(b) as int == w / 0x100
    ensures m(a) as int + 0x100 * m(b) as int == w as int
  {
  }

  /** Interrupt entry: the six bytes below the stack pointer hold IP, CS and FLAGS,
    and IP and CS come from the four bytes of the vector. */
  method EnterInBytes(cpu: Cpu, vector: byte, fault: bool, start: word)
    requires cpu.Valid()
    modifies cpu`sp, cpu`cs, cpu`ip, cpu`flags, cpu.mem`external
    ensures cpu.sp as int == (old(cpu.sp) as int + 0xFFFA) % 0x1_0000
    ensures var m, ss, sp, ip := cpu.mem.external, cpu.ss, cpu.sp, if fault then start else old(cpu.ip);
      && m(StackAddress(ss, sp, 0)) as int == ip % 0x100 && m(StackAddress(ss, sp, 1)) as int == ip / 0x100
      && m(StackAddress(ss, sp, 2)) as int == old(cpu.cs) % 0x100
      && m(StackAddress(ss, sp, 3)) as int == old(cpu.cs) / 0x100
      && m(StackAddress(ss, sp, 4)) as int + 0x100 * m(StackAddress(ss, sp, 5)) as int
           == var f := old(cpu.flags);
              0xF002 + Bit(f.cf) + 4 * Bit(f.pf) + 0x10 * Bit(f.af) + 0x40 * Bit(f.zf) + 0x80 * Bit(f.sf)
              + 0x100 * Bit(f.tf) + 0x200 * Bit(f.ief) + 0x400 * Bit(f.df) + 0x800 * Bit(f.of)
    ensures forall p: nat :: p < 0x10_0000 && (forall i :: 0 <= i < 6 ==> StackAddress(cpu.ss, cpu.sp, i) != p) ==>
      cpu.mem.external(p) == old(cpu.mem.external)(p)
    ensures var m, a: nat := cpu.mem.external, 4 * vector as int;
      && cpu.ip as int == m(a) as int + 0x100 * m(a + 1) as int
      && cpu.cs as int == m(a + 2) as int + 0x100 * m(a + 3) as int
    ensures cpu.flags == old(cpu.flags).(ief := false, tf := false)
  {
    hide *;
    FlagsImage(cpu.flags);
    BelowInNumbers(cpu.sp);
    ghost var m, ip, cs := cpu.mem.external, if fault then start else cpu.ip, cpu.cs;
    ghost var flags, rest := cpu.flags, cpu.Top(0);
    cpu.EnterInterrupt(vector, fault, start, 0);
    KeptInNumbers(m, cpu.mem.external, cpu.ss, cpu.sp);
    TopIsStackTop(cpu, 6);
    FrameInMemory(cpu.mem.external, cpu.ss, cpu.sp, ip, cs, flags, rest);
    BytesOfWord(cpu.mem.external, StackAddress(cpu.ss, cpu.sp, 4), StackAddress(cpu.ss, cpu.sp, 5), GetFlags(flags));
    WordInBytes(cpu.mem.external, vector as int * 4);
    WordInBytes(cpu.mem.external, vector as int * 4 + 2);
  }

  /** IRET: IP, CS and FLAGS are taken from the six bytes above the stack pointer. */
  method ReturnInBytes(cpu: Cpu)
    requires cpu.Valid()
    modifies cpu`sp, cpu`cs, cpu`ip, cpu`flags
    ensures cpu.sp as int == (old(cpu.sp) as int + 6) % 0x1_0000
    ensures var m, ss, sp := cpu.mem.external, cpu.ss, old(cpu.sp);
      && cpu.ip as int == m(StackAddress(ss, sp, 0)) as int + 0x100 * m(StackAddress(ss, sp, 1)) as int
      && cpu.cs as int == m(StackAddress(ss, sp, 2)) as int + 0x100 * m(StackAddress(ss, sp, 3)) as int
      && var w: nat, f := m(StackAddress(ss, sp, 4)) as int + 0x100 * m(StackAddress(ss, sp, 5)) as int, cpu.flags;
         && f.cf == Digit(w, 0) && f.pf == Digit(w, 2) && f.af == Digit(w, 4) && f.zf == Digit(w, 6)
         && f.sf == Digit(w, 7) && f.tf == Digit(w, 8) && f.ief == Digit(w, 9) && f.df == Digit(w, 10)
         && f.of == Digit(w, 11)
  {
    hide StackWord;
    hide StackAddress;
    hide SetFlags;
    hide Digit;
    StackWordInBytes(cpu.mem.external, cpu.ss, cpu.sp, 0);
    StackWordInBytes(cpu.mem.external, cpu.ss, cpu.sp, 2);
    StackWordInBytes(cpu.mem.external, cpu.ss, cpu.sp, 4);
    FlagsLoaded(StackWord(cpu.mem.external, cpu.ss, cpu.sp, 4));
    cpu.ReturnInterrupt16();
  }
}
