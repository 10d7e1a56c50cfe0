/** The bit field instructions of the NEC processors (src/cpu/x86.c). A byte or a
  word is the set of the numbers of its bits that are set, so that `and`, `or`
  and `and not` are intersection, union and difference. */
module Bitfields {
  import opened Arithmetic

  type octet = s: bits | forall i :: i in s ==> i < 8 witness {}

  const SEGMENT := 0x1_0000

  function Shl(s: bits, n: nat): (r: bits)
    ensures forall x: nat :: x in r <==> x >= n && x - n in s
  {
    set i | i in s :: i + n
  }

  function Shr(s: bits, n: nat): (r: bits)
    ensures forall x: nat :: x in r <==> x + n in s
  {
    set i | i in s && i >= n :: i - n
  }

  /** The mask of the `n` lowest bits. */
  function Low(n: nat): (r: bits)
    ensures forall x: nat :: x in r <==> x < n
  {
    if n == 0 then {} else Low(n - 1) + {n - 1}
  }

  /** The number with the bits of `s` below `n`. */
  function BitsValue(s: bits, n: nat): nat {
    if n == 0 then 0 else BitsValue(s, n - 1) + (if n - 1 in s then Power2(n - 1) else 0)
  }

  /** Masking is the remainder of the division by a power of two. */
  lemma {:induction false} MaskIsRemainder(s: bits, length: nat, n: nat)
    requires length <= n
    ensures BitsValue(s * Low(length), n) == BitsValue(s, n) % Power2(length)
  {
    MaskedValue(s, length, n);
    Fields(BitsValue(s * Low(length), n), Power2(length), Quotient(s, length, n));
  }

  /** The bits from `length` up to `n`, as a number. */
  function Quotient(s: bits, length: nat, n: nat): nat
    requires length <= n
  {
    BitsValue(Shr(s, length), n - length)
  }

  lemma {:induction false} MaskedValue(s: bits, length: nat, n: nat)
    requires length <= n
    ensures BitsValue(s, n) == BitsValue(s * Low(length), n) + Quotient(s, length, n) * Power2(length)
    ensures BitsValue(s * Low(length), n) < Power2(length)
    decreases n
  {
    var p := Power2(length);
    if n == length {
      SmallValue(s * Low(length), n);
      SameBits(s, s * Low(length), n);
      assert Quotient(s, length, n) == 0;
    } else {
      hide Power2;
      MaskedValue(s, length, n - 1);
      var h := n - 1 - length;
      PowerSum(h, length);
      BitsValueNext(s, n - 1);
      BitsValueNext(s * Low(length), n - 1);
      BitsValueNext(Shr(s, length), h);
      if n - 1 in s {
        Distribute(Quotient(s, length, n - 1), Power2(h), p);
      }
    }
  }

  lemma BitsValueNext(s: bits, n: nat)
    ensures BitsValue(s, n + 1) == BitsValue(s, n) + (if n in s then Power2(n) else 0)
  {
  }

  lemma Distribute(a: nat, b: nat, c: nat)
    ensures (a + b) * c == a * c + b * c
  {
  }

  lemma Twice(a: nat, b: nat)
    ensures 2 * a * b == 2 * (a * b)
  {
  }

  lemma {:induction false} PowerSum(a: nat, b: nat)
    ensures Power2(a) * Power2(b) == Power2(a + b)
  {
    if a == 0 {
    } else {
      PowerSum(a - 1, b);
      Twice(Power2(a - 1), Power2(b));
    }
  }

  lemma {:induction false} SmallValue(s: bits, n: nat)
    ensures BitsValue(s, n) < Power2(n)
  {
    if n == 0 {
    } else {
      SmallValue(s, n - 1);
    }
  }

  lemma {:induction false} SameBits(s: bits, t: bits, n: nat)
    requires forall i: nat :: i < n ==> (i in s <==> i in t)
    ensures BitsValue(s, n) == BitsValue(t, n)
  {
    if n == 0 {
    } else {
      SameBits(s, t, n - 1);
    }
  }

  /** Bit `p` of a segment of 64 KiB, counted from the lowest bit of byte 0. */
  predicate BitAt(segment: nat -> octet, p: nat) {
    p % 8 in segment(p / 8 % SEGMENT)
  }

  /** The position of bit `i` of the field at a byte address and a bit offset. */
  function FieldBit(address: nat, offset: nat, i: nat): (p: nat)
    ensures p < 8 * SEGMENT
  {
    (address * 8 + offset + i) % (8 * SEGMENT)
  }

  /** The distance from an address up to another one in the segment. */
  function Distance(address: nat, a: nat): nat {
    (a + SEGMENT - address % SEGMENT) % SEGMENT
  }

  /** Which bit of the field, or of its continuation around the segment, is at `p`. */
  function FieldIndex(address: nat, offset: nat, p: nat): nat {
    (p + 8 * SEGMENT - (address * 8 + offset) % (8 * SEGMENT)) % (8 * SEGMENT)
  }

  lemma IndexOfBit(address: nat, offset: nat, i: nat)
    requires i < 8 * SEGMENT
    ensures FieldIndex(address, offset, FieldBit(address, offset, i)) == i
  {
  }

  lemma BitOfIndex(address: nat, offset: nat, p: nat)
    requires p < 8 * SEGMENT
    ensures FieldBit(address, offset, FieldIndex(address, offset, p)) == p
  {
  }

  /** The index of bit `b` of the byte at distance `d`. */
  lemma IndexInByte(address: nat, offset: nat, p: nat)
    requires p < 8 * SEGMENT && offset < 8
    ensures var at := 8 * Distance(address, p / 8) + p % 8;
      FieldIndex(address, offset, p) == if offset <= at then at - offset else at + 8 * SEGMENT - offset
  {
    var base := address % SEGMENT;
    assert (address * 8 + offset) % (8 * SEGMENT) == 8 * base + offset;
    assert p == 8 * (p / 8) + p % 8;
  }

  /** A field of bits of the segment. */
  ghost predicate Covers(address: nat, offset: nat, length: nat, p: nat) {
    exists i :: 0 <= i < length && FieldBit(address, offset, i) == p
  }

  /** One byte of a field: its bits below `shift` and from `shift + length` on stay. */
  ghost predicate Replaced(byte: octet, byte': octet, value: bits, k: nat, offset: nat, length: nat) {
    forall b: nat :: b < 8 ==>
      (b in byte' <==> if offset <= 8 * k + b < offset + length then 8 * k + b - offset in value else b in byte)
  }

  lemma FirstByte(byte: octet, offset: nat, length: nat, value: bits)
    requires offset < 8 && 1 <= length <= 16
    ensures Replaced(byte, (byte - Shl(Low(length), offset) + Shl(value * Low(length), offset)) * Low(8), value, 0,
      offset, length)
  {
  }

  /** The number of bytes that a field touches. */
  lemma BytesOfField(offset: nat, length: nat)
    requires offset < 8 && 1 <= length <= 16
    ensures 1 <= (offset + length + 7) / 8 <= 3
    ensures (offset + length > 8 <==> (offset + length + 7) / 8 >= 2)
    ensures (offset + length > 16 <==> (offset + length + 7) / 8 == 3)
  {
  }

  lemma LaterByte(byte: octet, k: nat, offset: nat, length: nat, value: bits)
    requires offset < 8 && 1 <= length <= 16 && 1 <= k <= 2
    ensures var n := 8 * k - offset;
      Replaced(byte, (byte - Shr(Low(length), n) + Shr(value * Low(length), n)) * Low(8), value, k, offset, length)
  {
  }

  /** Bit `i` of a field is a bit of one of its bytes. */
  lemma BitInByte(segment: nat -> octet, address: nat, offset: nat, i: nat)
    ensures BitAt(segment, FieldBit(address, offset, i)) <==>
      (offset + i) % 8 in segment((address + (offset + i) / 8) % 0x1_0000)
  {
    var q, b := address + (offset + i) / 8, (offset + i) % 8;
    var t, u := q / SEGMENT, q % SEGMENT;
    assert address * 8 + offset + i == b + u * 8 + t * (8 * SEGMENT);
    Fields(b + u * 8, 8 * SEGMENT, t);
    Fields(b, 8, u);
  }

  lemma DistanceReached(address: nat, a: nat)
    requires a < SEGMENT
    ensures (address + Distance(address, a)) % SEGMENT == a
  {
  }

  /** Bit `b` of the byte at distance `d`, whose index in the field is known. */
  lemma ByteReplaced(was: octet, now: octet, value: bits, d: nat, b: nat, offset: nat, length: nat, index: nat)
    requires offset < 8 && 1 <= length <= 16 && b < 8
    requires index == if offset <= 8 * d + b then 8 * d + b - offset else 8 * d + b + 8 * SEGMENT - offset
    requires if d < (offset + length + 7) / 8 then Replaced(was, now, value, d, offset, length) else now == was
    ensures b in now <==> if index < length then index in value else b in was
  {
  }

  /** The bytes of a segment around an inserted field. */
  ghost predicate Inserted(was: nat -> octet, now: nat -> octet, address: nat, offset: nat, length: nat, value: bits) {
    forall a: nat :: a < SEGMENT ==>
      if Distance(address, a) < (offset + length + 7) / 8
      then Replaced(was(a), now(a), value, Distance(address, a), offset, length) else now(a) == was(a)
  }

  lemma BitReplaced(was: nat -> octet, now: nat -> octet, address: nat, offset: nat, length: nat, value: bits, p: nat)
    requires offset < 8 && 1 <= length <= 16 && p < 8 * SEGMENT && Inserted(was, now, address, offset, length, value)
    ensures BitAt(now, p) <==>
      if FieldIndex(address, offset, p) < length then FieldIndex(address, offset, p) in value else BitAt(was, p)
  {
    hide FieldIndex;
    hide Distance;
    hide Replaced;
    IndexInByte(address, offset, p);
    var d, a := Distance(address, p / 8), p / 8;
    ByteReplaced(was(a), now(a), value, d, p % 8, offset, length, FieldIndex(address, offset, p));
  }

  class Cpu {
    var segment: nat -> octet

    constructor (segment: nat -> octet)
      ensures this.segment == segment
    {
      this.segment := segment;
    }

    method Read(address: nat, count: nat) returns (buffer: array<octet>)
      requires count <= 3
      ensures fresh(buffer) && buffer.Length == 3
      ensures forall k :: 0 <= k < count ==> buffer[k] == segment((address + k) % SEGMENT)
    {
      buffer := new octet[3](_ => {});
      forall k | 0 <= k < count {
        buffer[k] := segment((address + k) % SEGMENT);
      }
    }

    method Write(address: nat, count: nat, buffer: array<octet>)
      requires count <= 3 == buffer.Length
      modifies this
      ensures forall a: nat :: a < SEGMENT ==>
        segment(a) == if Distance(address, a) < count then buffer[Distance(address, a)] else old(segment)(a)
    {
      var was, data := segment, buffer[..];
      segment := (a: nat) =>
        if Distance(address, a) < count then data[Distance(address, a)] else was(a);
    }

    /** Merges the value into the bytes of the field. */
    method Merge(buffer: array<octet>, offset: nat, length: nat, value: bits)
      requires offset < 8 && 1 <= length <= 16 && buffer.Length == 3
      modifies buffer
      ensures forall k :: 0 <= k < (offset + length + 7) / 8 ==>
        Replaced(old(buffer[k]), buffer[k], value, k, offset, length)
    {
      hide Replaced;
      hide Shl;
      hide Shr;
      hide Low;
      BytesOfField(offset, length);
      FirstByte(buffer[0], offset, length, value);
      LaterByte(buffer[1], 1, offset, length, value);
      LaterByte(buffer[2], 2, offset, length, value);
      var mask := Low(length);
      var v := value * mask;
      buffer[0] := (buffer[0] - Shl(mask, offset) + Shl(v, offset)) * Low(8);
      if offset + length > 8 {
        buffer[1] := (buffer[1] - Shr(mask, 8 - offset) + Shr(v, 8 - offset)) * Low(8);
        if offset + length > 16 {
          buffer[2] := (buffer[2] - Shr(mask, 16 - offset) + Shr(v, 16 - offset)) * Low(8);
        }
      }
    }

    /** Replaces the field by the low bits of `value`; no other bit changes. */
    method InsertBitfield16(address: nat, offset: nat, length: nat, value: bits)
      requires offset < 8 && 1 <= length <= 16
      modifies this
      ensures forall i :: 0 <= i < length ==> (BitAt(segment, FieldBit(address, offset, i)) <==> i in value)
      ensures forall p: nat :: p < 8 * SEGMENT && !Covers(address, offset, length, p) ==>
        (BitAt(segment, p) <==> BitAt(old(segment), p))
    {
      hide Replaced;
      hide BitAt;
      hide FieldIndex;
      hide Distance;
      hide FieldBit;
      ghost var was := segment;
      var count := (offset + length + 7) / 8;
      var buffer := Read(address, count);
      Merge(buffer, offset, length, value);
      Write(address, count, buffer);
      assert Inserted(was, segment, address, offset, length, value) by {
        forall a: nat | a < SEGMENT && Distance(address, a) < count
          ensures Replaced(was(a), segment(a), value, Distance(address, a), offset, length)
        {
          DistanceReached(address, a);
        }
      }
      hide Inserted;
      forall i | 0 <= i < length
        ensures BitAt(segment, FieldBit(address, offset, i)) <==> i in value
      {
        IndexOfBit(address, offset, i);
        BitReplaced(was, segment, address, offset, length, value, FieldBit(address, offset, i));
      }
      forall p: nat | p < 8 * SEGMENT && !Covers(address, offset, length, p)
        ensures BitAt(segment, p) <==> BitAt(was, p)
      {
        BitOfIndex(address, offset, p);
        BitReplaced(was, segment, address, offset, length, value, p);
      }
    }

    /** The field as a number. */
    method ExtractBitfield16(address: nat, offset: nat, length: nat) returns (value: bits)
      requires offset < 8 && 1 <= length <= 16
      ensures forall i: nat :: i in value <==> i < length && BitAt(segment, FieldBit(address, offset, i))
    {
      hide BitAt;
      hide FieldBit;
      hide Low;
      hide Shl;
      hide Shr;
      var count := (offset + length + 7) / 8;
      var buffer := Read(address, count);
      var mask := Low(length);
      value := Shr(buffer[0], offset);
      if offset + length > 8 {
        value := value + Shl(buffer[1], 8 - offset);
        if offset + length > 16 {
          value := value + Shl(buffer[2], 16 - offset);
        }
      }
      value := value * Low(16) * mask;
      forall i: nat | i < length
        ensures i in value <==> BitAt(segment, FieldBit(address, offset, i))
      {
        BitInByte(segment, address, offset, i);
      }
    }
  }

  /** An inserted field is extracted again, as far as its length goes: the value
    modulo a power of two. */
  method InsertThenExtract(cpu: Cpu, address: nat, offset: nat, length: nat, value: bits) returns (result: bits)
    requires offset < 8 && 1 <= length <= 16
    modifies cpu
    ensures result == value * Low(length)
    ensures BitsValue(result, 16) == BitsValue(value, 16) % Power2(length)
  {
    cpu.InsertBitfield16(address, offset, length, value);
    result := cpu.ExtractBitfield16(address, offset, length);
    MaskIsRemainder(value, length, 16);
  }

  /** Inserting a field does not affect another one without common bits. */
  method ExtractElsewhere(cpu: Cpu, address: nat, offset: nat, length: nat, value: bits,
                          address': nat, offset': nat, length': nat) returns (before: bits, after: bits)
    requires offset < 8 && 1 <= length <= 16 && offset' < 8 && 1 <= length' <= 16
    requires forall i :: 0 <= i < length' ==> !Covers(address, offset, length, FieldBit(address', offset', i))
    modifies cpu
    ensures before == after
  {
    before := cpu.ExtractBitfield16(address', offset', length');
    ghost var was := cpu.segment;
    cpu.InsertBitfield16(address, offset, length, value);
    after := cpu.ExtractBitfield16(address', offset', length');
    forall i: nat | i < length'
      ensures BitAt(cpu.segment, FieldBit(address', offset', i)) <==> BitAt(was, FieldBit(address', offset', i))
    {
      assert !Covers(address, offset, length, FieldBit(address', offset', i));
    }
  }
}
