/** Global descriptor table entries: the allocator of src/x86emu.c writes them,
  the segment loader of src/cpu/protection.c reads them (section 3.4.5 of the
  Intel SDM, volume 3A). Masks and shifts are written as remainders and quotients
  by powers of two; the fields they join do not overlap, so joining is addition. */
module GdtEntries {
  import opened Arithmetic
  import opened ByteMemory

  type dword = x: int | 0 <= x < 0x1_0000_0000

  const G := 0x80_0000

  predicate Granular(access: dword) { access / G % 2 == 1 }

  function SetG(access: dword, on: bool): dword {
    if Granular(access) == on then access else if on then access + G else access - G
  }

  /** The access bits that an entry keeps: 8 to 15 and 20 to 23. */
  function Kept(access: dword): dword {
    access / 0x100 % 0x100 * 0x100 + access / 0x10_0000 % 0x10 * 0x10_0000
  }

  datatype Segment = Segment(base: dword, limit: dword, access: dword)

  /** What loading a selector reads from an entry in memory. */
  function Decode(m: Memory, a: nat): Segment {
    var w0, w1, w2, w3 := Word(m, a), Word(m, a + 2), Word(m, a + 4), Word(m, a + 6);
    DecodeWords(w0, w1, w2, w3)
  }

  function DecodeWords(w0: word, w1: word, w2: word, w3: word): Segment {
    var limit := w0 as int + w3 % 0x10 * 0x1_0000;
    var access := w2 / 0x100 * 0x100 + w3 / 0x10 % 0x10 * 0x10_0000;
    Segment(w1 as int + w2 % 0x100 * 0x1_0000 + w3 / 0x100 * 0x100_0000,
            if Granular(access) then limit * 0x1000 + 0xFFF else limit,
            access)
  }

  /** What an entry for a request must decode to: its own base, its own access
    bits but for granularity, and its limit, rounded up to the end of a 4 KiB
    page if the entry is granular. */
  ghost predicate Describes(s: Segment, base: dword, limit: dword, access: dword) {
    && s.base == base
    && SetG(s.access, false) == SetG(Kept(access), false)
    && limit <= s.limit < limit + 0x1000
    && (!Granular(s.access) ==> s.limit == limit)
  }

  /** The access word with the granularity that the limit needs. */
  function Adjusted(limit: dword, access: dword): dword {
    if limit > 0xF_FFFF then SetG(access, true)
    else if limit % 0x1000 != 0 then SetG(access, false)
    else access
  }

  /** The fields of an access word below and above the granularity bit. */
  lemma AccessFields(a: dword, low: nat, r: nat)
    requires low < G && a == low + r * G
    ensures a / G == r
    ensures a / 0x100 % 0x100 == low / 0x100 % 0x100 && a / 0x10_0000 % 8 == low / 0x10_0000
  {
    var l0, l1, l2, n := low % 0x100, low / 0x100 % 0x100, low / 0x1_0000 % 0x10, low / 0x10_0000;
    var x2 := l2 + (n + r * 8) * 0x10;
    var x1 := l1 + x2 * 0x100;
    var y := l0 + l1 * 0x100 + l2 * 0x1_0000;
    FieldsOf(low);
    assert a == l0 + x1 * 0x100 && a == y + (n + r * 8) * 0x10_0000;
    Fields(low, G, r);
    Fields(n, 8, r);
    Fields(l0, 0x100, x1);
    Fields(l1, 0x100, x2);
    Fields(y, 0x10_0000, n + r * 8);
  }

  lemma FieldsOf(x: nat)
    ensures x == x % 0x100 + x / 0x100 % 0x100 * 0x100 + x / 0x1_0000 % 0x10 * 0x1_0000 + x / 0x10_0000 * 0x10_0000
  {
    var q1 := x / 0x100;
    var q2 := q1 / 0x100;
    var q3 := q2 / 0x10;
    var r0, r1, r2 := x % 0x100, q1 % 0x100, q2 % 0x10;
    assert x == r0 + q1 * 0x100 && q1 == r1 + q2 * 0x100 && q2 == r2 + q3 * 0x10;
    Fields(r0 + r1 * 0x100, 0x1_0000, q2);
    Fields(r0 + r1 * 0x100 + r2 * 0x1_0000, 0x10_0000, q3);
  }

  lemma SplitLimit(stored: nat)
    requires stored < 0x10_0000
    ensures stored == stored % 0x1_0000 + stored / 0x1_0000 % 0x10 * 0x1_0000
  {
  }

  lemma SplitBase(base: dword)
    ensures base == base % 0x1_0000 + base / 0x1_0000 % 0x100 * 0x1_0000 + base / 0x100_0000 * 0x100_0000
  {
  }

  /** Setting or clearing the granularity bit changes only that bit. */
  lemma SetGKeeps(access: dword, on: bool)
    ensures Granular(SetG(access, on)) == on
    ensures SetG(access, on) / 0x100 % 0x100 == access / 0x100 % 0x100
    ensures SetG(access, on) / 0x10_0000 % 8 == access / 0x10_0000 % 8
  {
    var low, r := access % G, access / G;
    AccessFields(access, low, r);
    if Granular(access) != on {
      AccessFields(SetG(access, on), low, if on then r + 1 else r - 1);
    }
  }

  /** The three numbers that the allocator stores. */
  function LowWord(stored: dword): word { stored % 0x1_0000 }

  function MiddleDword(base: dword, access: dword): dword {
    base % 0x100_0000 + access / 0x100 % 0x100 * 0x100_0000
  }

  function HighWord(base: dword, access: dword, stored: dword): word {
    base / 0x100_0000 * 0x100 + access / 0x10_0000 % 0x10 * 0x10 + stored / 0x1_0000 % 0x10
  }

  /** The fields of the words that the allocator writes. */
  lemma MiddleFields(base: dword, access: dword)
    ensures var v := MiddleDword(base, access);
      v % 0x1_0000 == base % 0x1_0000
      && v / 0x1_0000 % 0x100 == base / 0x1_0000 % 0x100
      && v / 0x1_0000 / 0x100 == access / 0x100 % 0x100
  {
    var b0, b1, a := base % 0x1_0000, base / 0x1_0000 % 0x100, access / 0x100 % 0x100;
    assert base % 0x100_0000 == b0 + b1 * 0x1_0000;
    Fields(b1, 0x100, a);
    Fields(b0, 0x1_0000, b1 + a * 0x100);
  }

  lemma HighFields(base: dword, access: dword, stored: dword)
    ensures var w := HighWord(base, access, stored);
      w % 0x10 == stored / 0x1_0000 % 0x10
      && w / 0x10 % 0x10 == access / 0x10_0000 % 0x10
      && w / 0x100 == base / 0x100_0000
  {
    var l, a, b := stored / 0x1_0000 % 0x10, access / 0x10_0000 % 0x10, base / 0x100_0000;
    Fields(a, 0x10, b);
    Fields(l, 0x10, a + b * 0x10);
    assert l + (a + b * 0x10) * 0x10 == HighWord(base, access, stored);
    assert HighWord(base, access, stored) / 0x100 == HighWord(base, access, stored) / 0x10 / 0x10;
  }

  lemma KeptGranular(access: dword)
    ensures Granular(Kept(access)) == Granular(access)
  {
    var a, n := access / 0x100 % 0x100, access / 0x10_0000 % 0x10;
    Fields(a * 0x100, 0x10_0000, n);
    assert Kept(access) / G == Kept(access) / 0x10_0000 / 8;
    assert access / G == access / 0x10_0000 / 8;
  }

  /** The stored limit is at most 20 bits, and decodes to the limit, rounded up. */
  lemma LimitFits(limit: dword, access: dword)
    ensures var a := Adjusted(limit, access);
      var stored := if Granular(a) then limit / 0x1000 else limit;
      && stored < 0x10_0000
      && (Granular(a) ==> limit <= stored * 0x1000 + 0xFFF < limit + 0x1000)
  {
    SetGKeeps(access, true);
    SetGKeeps(access, false);
  }

  /** Decoding what the allocator writes. */
  lemma EncodedDecodes(base: dword, limit: dword, access: dword, stored: dword)
    requires var a := Adjusted(limit, access); stored == if Granular(a) then limit / 0x1000 else limit
    ensures var a := Adjusted(limit, access);
      var middle := MiddleDword(base, a);
      Describes(DecodeWords(LowWord(stored), middle % 0x1_0000, middle / 0x1_0000, HighWord(base, a, stored)), base,
        limit, access)
  {
    hide Granular;
    hide SetG;
    hide Adjusted;
    hide MiddleDword;
    hide HighWord;
    var a := Adjusted(limit, access);
    MiddleFields(base, a);
    HighFields(base, a, stored);
    LimitFits(limit, access);
    KeptGranular(a);
    SameKept(limit, access);
    var middle := MiddleDword(base, a);
    var s := DecodeWords(LowWord(stored), middle % 0x1_0000, middle / 0x1_0000, HighWord(base, a, stored));
    assert s.access == Kept(a);
    SplitLimit(stored);
    SplitBase(base);
  }

  lemma KeptCleared(access: dword)
    ensures SetG(Kept(access), false) == access / 0x100 % 0x100 * 0x100 + access / 0x10_0000 % 8 * 0x10_0000
  {
    KeptGranular(access);
    var n := access / 0x10_0000;
    assert n / 8 == access / G;
    assert n % 0x10 == n % 8 + n / 8 % 2 * 8;
  }

  /** Adjusting the granularity keeps the other access bits. */
  lemma SameKept(limit: dword, access: dword)
    ensures SetG(Kept(Adjusted(limit, access)), false) == SetG(Kept(access), false)
  {
    SetGKeeps(access, true);
    SetGKeeps(access, false);
    KeptCleared(access);
    KeptCleared(Adjusted(limit, access));
    hide Kept;
  }

  /** A little-endian 32-bit number. */
  function Bytes32(v: dword): (s: seq<byte>)
    ensures |s| == 4
    ensures WordOf(s[0], s[1]) == v % 0x1_0000 && WordOf(s[2], s[3]) == v / 0x1_0000
  {
    Bytes16(v % 0x1_0000) + Bytes16(v / 0x1_0000)
  }

  // An entry in bytes.

  /** The fields of a request, as they lie in the eight bytes of its entry: the limit,
    in units of 4 KiB if it is granular, the base, and the access bits. */
  ghost predicate EntryBytes(m: Memory, at: nat, base: dword, limit: dword, access: dword) {
    var granular := limit > 0xF_FFFF || (limit % 0x1000 == 0 && access / 0x80_0000 % 2 == 1);
    var stored := if granular then limit / 0x1000 else limit;
    && m(at) as int == stored % 0x100
    && m(at + 1) as int == stored / 0x100 % 0x100
    && m(at + 2) as int == base % 0x100
    && m(at + 3) as int == base / 0x100 % 0x100
    && m(at + 4) as int == base / 0x1_0000 % 0x100
    && m(at + 5) as int == access / 0x100 % 0x100
    && m(at + 6) as int == stored / 0x1_0000 + 0x10 * (access / 0x10_0000 % 8) + (if granular then 0x80 else 0)
    && m(at + 7) as int == base / 0x100_0000
  }

  /** The bytes of the three numbers that the allocator stores. */
  ghost predicate WrittenBytes(m: Memory, at: nat, low: word, middle: dword, high: word) {
    && m(at) as int == low % 0x100 && m(at + 1) as int == low / 0x100
    && m(at + 2) as int == middle % 0x100 && m(at + 3) as int == middle / 0x100 % 0x100
    && m(at + 4) as int == middle / 0x1_0000 % 0x100 && m(at + 5) as int == middle / 0x100_0000
    && m(at + 6) as int == high % 0x100 && m(at + 7) as int == high / 0x100
  }

  lemma LowerBytes(v: nat)
    ensures v % 0x100 == v % 0x1_0000 % 0x100 && v / 0x100 % 0x100 == v % 0x1_0000 / 0x100
  {
  }

  lemma UpperBytes(v: nat)
    ensures v / 0x100_0000 == v / 0x1_0000 / 0x100
  {
  }

  lemma MiddleBytes(base: dword, access: dword)
    ensures var v := MiddleDword(base, access);
      && v % 0x100 == base % 0x100 && v / 0x100 % 0x100 == base / 0x100 % 0x100
      && v / 0x1_0000 % 0x100 == base / 0x1_0000 % 0x100 && v / 0x100_0000 == access / 0x100 % 0x100
  {
    hide MiddleDword;
    MiddleFields(base, access);
    LowerBytes(MiddleDword(base, access));
    LowerBytes(base);
    UpperBytes(MiddleDword(base, access));
  }

  lemma HighBytes(base: dword, access: dword, stored: dword)
    requires stored < 0x10_0000
    ensures var w := HighWord(base, access, stored);
      w % 0x100 == stored / 0x1_0000 + access / 0x10_0000 % 0x10 * 0x10 && w / 0x100 == base / 0x100_0000
  {
    Fields(stored / 0x1_0000 + access / 0x10_0000 % 0x10 * 0x10, 0x100, base / 0x100_0000);
  }

  lemma NibbleWithG(a: dword)
    ensures a / 0x10_0000 % 0x10 == a / 0x10_0000 % 8 + if Granular(a) then 8 else 0
  {
    var n := a / 0x10_0000;
    assert n / 8 == a / G;
    assert n % 0x10 == n % 8 + n / 8 % 2 * 8;
  }

  /** The granularity that an entry gets. */
  lemma AdjustedGranularity(limit: dword, access: dword)
    ensures var a := Adjusted(limit, access);
      && (Granular(a) <==> limit > 0xF_FFFF || (limit % 0x1000 == 0 && Granular(access)))
      && a / 0x100 % 0x100 == access / 0x100 % 0x100
      && a / 0x10_0000 % 8 == access / 0x10_0000 % 8
  {
    hide Granular;
    hide SetG;
    SetGKeeps(access, true);
    SetGKeeps(access, false);
  }

  lemma GranularDigit(access: dword)
    ensures Granular(access) <==> access / 0x80_0000 % 2 == 1
  {
  }

  lemma WrittenIsEntry(m: Memory, at: nat, base: dword, limit: dword, access: dword, stored: dword)
    requires var a := Adjusted(limit, access); stored == if Granular(a) then limit / 0x1000 else limit
    requires var a := Adjusted(limit, access);
      WrittenBytes(m, at, LowWord(stored), MiddleDword(base, a), HighWord(base, a, stored))
    ensures EntryBytes(m, at, base, limit, access)
  {
    hide Adjusted;
    hide Granular;
    hide MiddleDword;
    hide HighWord;
    GranularDigit(access);
    AdjustedGranularity(limit, access);
    NibbleWithG(Adjusted(limit, access));
    LimitFits(limit, access);
    MiddleBytes(base, Adjusted(limit, access));
    HighBytes(base, Adjusted(limit, access), stored);
    LowerBytes(stored);
  }

  /** What three stores leave. */
  lemma StoresInBytes(m: Memory, at: nat, low: word, middle: dword, high: word)
    ensures var m' := StoreWord(Store(StoreWord(m, at, low), at + 2, Bytes32(middle)), at + 6, high);
      WrittenBytes(m', at, low, middle, high)
  {
    var b := Bytes32(middle);
    assert b[0] as int == middle % 0x1_0000 % 0x100 && b[1] as int == middle % 0x1_0000 / 0x100;
    assert b[2] as int == middle / 0x1_0000 % 0x100 && b[3] as int == middle / 0x1_0000 / 0x100;
    LowerBytes(middle);
    UpperBytes(middle);
    hide Bytes32;
  }

  datatype Request = Request(base: dword, limit: dword, access: dword)

  /** The selector `i` allocations after the first. */
  function SelectorAt(first: nat, i: nat): word {
    (first + 8 * i) % 0x1_0000
  }

  lemma FirstSelector(first: nat)
    ensures SelectorAt(first, 0) == first % 0x1_0000
  {
  }

  /** The selector after a given limit, and the one after that. */
  lemma SelectorWraps(limit: nat, first: nat, n: nat)
    requires limit <= 0xFFFF && first % 8 == 0 && NextSelector(limit) % 0x1_0000 == SelectorAt(first, n)
    ensures var selector := if limit < 0xFFF8 then NextSelector(limit) else 0;
      && selector == SelectorAt(first, n) && selector % 8 == 0 && selector + 8 <= 0x1_0000
      && NextSelector(selector + 7) % 0x1_0000 == SelectorAt(first, n + 1)
      && (first + 8 * (n + 1) <= 0x1_0000 ==> selector == first + 8 * n)
  {
  }

  /** Two of 8192 consecutive selectors name entries that do not overlap. */
  lemma SelectorsApart(first: nat, i: nat, n: nat)
    requires i < n < i + 8192
    ensures var a: int, b: int := SelectorAt(first, i), SelectorAt(first, n); a + 8 <= b || b + 8 <= a
  {
    ShiftedResidue(first + 8 * i, 8 * (n - i));
    assert first + 8 * n == first + 8 * i + 8 * (n - i);
  }

  lemma ShiftedResidue(x: nat, s: nat)
    requires s < 0x1_0000
    ensures (x + s) % 0x1_0000 == if x % 0x1_0000 + s < 0x1_0000 then x % 0x1_0000 + s else x % 0x1_0000 + s - 0x1_0000
  {
  }

  /** The first multiple of 8 after the limit of the table. */
  function NextSelector(limit: nat): (r: nat)
    ensures r % 8 == 0 && limit < r <= limit + 8
  {
    (limit + 8) / 8 * 8
  }

  /** The entry of a selector describes a request. */
  ghost predicate Allocated(m: Memory, base: nat, selector: word, r: Request) {
    Describes(Decode(m, base + selector as int), r.base, r.limit, r.access)
  }

  lemma DecodeElsewhere(m: Memory, m': Memory, a: nat)
    requires forall x: nat :: a <= x < a + 8 ==> m'(x) == m(x)
    ensures Decode(m', a) == Decode(m, a)
  {
  }

  class Tables {
    var memory: Memory
    var gdtBase: nat
    var gdtLimit: nat

    /** Allocates the next entry. The selector is the next multiple of 8 unless the
      table is full: then it wraps to 0. */
    method AllocateGdtEntry(base: dword, limit: dword, access: dword) returns (selector: word)
      requires gdtLimit <= 0xFFFF
      modifies this`memory, this`gdtLimit
      ensures selector as int == (if old(gdtLimit) < 0xFFF8 then NextSelector(old(gdtLimit)) else 0)
      ensures gdtLimit == selector as int + 7
      ensures Describes(Decode(memory, gdtBase + selector as int), base, limit, access)
      ensures EntryBytes(memory, gdtBase + selector as int, base, limit, access)
      ensures forall a: nat :: !(gdtBase + selector as int <= a < gdtBase + selector as int + 8) ==>
        memory(a) == old(memory)(a)
    {
      hide Describes;
      hide EntryBytes;
      hide WrittenBytes;
      hide Decode;
      hide DecodeWords;
      hide MiddleDword;
      hide HighWord;
      hide LowWord;
      hide Granular;
      hide SetG;
      selector := NextSelector(gdtLimit) % 0x1_0000;
      var a, l := access, limit;
      if l > 0xF_FFFF {
        a := SetG(a, true);
      } else if l % 0x1000 != 0 {
        a := SetG(a, false);
      }
      if Granular(a) {
        l := l / 0x1000;
      }
      var at: nat := gdtBase + selector as int;
      WriteEntry(at, LowWord(l), MiddleDword(base, a), HighWord(base, a, l));
      gdtLimit := selector as int + 7;
      EncodedDecodes(base, limit, access, l);
      WrittenIsEntry(memory, at, base, limit, access, l);
    }

    method WriteEntry(at: nat, low: word, middle: dword, high: word)
      modifies this`memory
      ensures Decode(memory, at) == DecodeWords(low, middle % 0x1_0000, middle / 0x1_0000, high)
      ensures WrittenBytes(memory, at, low, middle, high)
      ensures forall a: nat :: !(at <= a < at + 8) ==> memory(a) == old(memory)(a)
    {
      hide WrittenBytes;
      StoresInBytes(memory, at, low, middle, high);
      memory := StoreWord(memory, at, low);
      memory := Store(memory, at + 2, Bytes32(middle));
      memory := StoreWord(memory, at + 6, high);
    }

    /** Any sequence of allocations: the selectors are consecutive multiples of 8,
      modulo 64 KiB, and each of the last 8192 entries still describes its own
      request. While the table is not full the selectors are distinct and increasing. */
    method AllocateAll(requests: seq<Request>) returns (selectors: seq<word>)
      requires gdtLimit <= 0xFFFF
      modifies this`memory, this`gdtLimit
      ensures |selectors| == |requests|
      ensures forall i :: 0 <= i < |selectors| ==> selectors[i] == SelectorAt(NextSelector(old(gdtLimit)), i)
      ensures forall i :: 0 <= i < |selectors| && |selectors| - i <= 8192 ==>
        Allocated(memory, gdtBase, selectors[i], requests[i])
      ensures NextSelector(old(gdtLimit)) + 8 * |requests| <= 0x1_0000 ==>
        && (forall i :: 0 <= i < |selectors| ==> selectors[i] as int == NextSelector(old(gdtLimit)) + 8 * i)
        && forall a: nat :: a < gdtBase + NextSelector(old(gdtLimit)) ==> memory(a) == old(memory)(a)
      ensures forall a: nat :: !(gdtBase <= a < gdtBase + 0x1_0000) ==> memory(a) == old(memory)(a)
    {
      hide Describes;
      hide EntryBytes;
      hide Decode;
      hide SelectorAt;
      ghost var first := NextSelector(gdtLimit);
      FirstSelector(first);
      selectors := [];
      for n := 0 to |requests|
        invariant gdtLimit <= 0xFFFF && |selectors| == n && NextSelector(gdtLimit) % 0x1_0000 == SelectorAt(first, n)
        invariant forall i :: 0 <= i < n ==> selectors[i] == SelectorAt(first, i)
        invariant forall i :: 0 <= i < n && n - i <= 8192 ==> Allocated(memory, gdtBase, selectors[i], requests[i])
        invariant first + 8 * n <= 0x1_0000 ==>
          && (forall i :: 0 <= i < n ==> selectors[i] as int == first + 8 * i)
          && forall a: nat :: a < gdtBase + first ==> memory(a) == old(memory)(a)
        invariant forall a: nat :: !(gdtBase <= a < gdtBase + 0x1_0000) ==> memory(a) == old(memory)(a)
      {
        ghost var m := memory;
        SelectorWraps(gdtLimit, first, n);
        var selector := AllocateGdtEntry(requests[n].base, requests[n].limit, requests[n].access);
        forall i | 0 <= i < n && n + 1 - i <= 8192
          ensures Allocated(memory, gdtBase, selectors[i], requests[i])
        {
          SelectorsApart(first, i, n);
          DecodeElsewhere(m, memory, gdtBase + selectors[i] as int);
        }
        selectors := selectors + [selector];
      }
    }
  }
}
