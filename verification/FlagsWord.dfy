/** The FLAGS register as the 16-bit word that interrupts save and restore. */
module FlagsWord {
  import opened Arithmetic
  import opened ByteMemory

  /** The number whose binary digits, lowest first, are `bits`. */
  function Pack(bits: seq<bool>): (w: nat)
    ensures w < Power2(|bits|)
  {
    if |bits| == 0 then 0 else (if bits[0] then 1 else 0) + 2 * Pack(bits[1..])
  }

  /** The `n` lowest binary digits of `w`. */
  function Unpack(w: nat, n: nat): (bits: seq<bool>)
    ensures |bits| == n
  {
    if n == 0 then [] else [w % 2 == 1] + Unpack(w / 2, n - 1)
  }

  lemma {:induction false} UnpackPack(bits: seq<bool>)
    ensures Unpack(Pack(bits), |bits|) == bits
  {
    if |bits| == 0 {
    } else {
      UnpackPack(bits[1..]);
      assert Pack(bits) / 2 == Pack(bits[1..]);
    }
  }

  /** The sixteen binary digits of a word. */
  function Bits(w: word): (bits: seq<bool>)
    ensures |bits| == 16
  {
    Unpack(w, 16)
  }

  /** Packing sixteen digits gives a word. */
  function PackWord(bits: seq<bool>): (w: word)
    requires |bits| == 16
    ensures Bits(w) == bits
  {
    assert Power2(16) == 0x1_0000 by {
      assert Power2(4) == 16;
      assert Power2(8) == 0x100;
      assert Power2(12) == 0x1000;
    }
    UnpackPack(bits);
    Pack(bits)
  }

  // The two directions in numbers.

  function Bit(b: bool): nat { if b then 1 else 0 }

  /** The number with four given digits. */
  function Nibble(b0: bool, b1: bool, b2: bool, b3: bool): nat {
    Bit(b0) + 2 * Bit(b1) + 4 * Bit(b2) + 8 * Bit(b3)
  }

  lemma FourDigits(b: seq<bool>)
    requires |b| >= 4
    ensures Pack(b) == Nibble(b[0], b[1], b[2], b[3]) + 0x10 * Pack(b[4..])
  {
    var b1 := b[1..];
    var b2 := b1[1..];
    var b3 := b2[1..];
    assert b3[1..] == b[4..] && b1[0] == b[1] && b2[0] == b[2] && b3[0] == b[3];
    assert Pack(b3) == Bit(b3[0]) + 2 * Pack(b[4..]);
    assert Pack(b2) == Bit(b2[0]) + 2 * Pack(b3);
  }

  /** The word with sixteen given digits. */
  lemma PackedWord(b: seq<bool>)
    requires |b| == 16
    ensures PackWord(b) as int == Nibble(b[0], b[1], b[2], b[3]) + 0x10 * Nibble(b[4], b[5], b[6], b[7])
      + 0x100 * Nibble(b[8], b[9], b[10], b[11]) + 0x1000 * Nibble(b[12], b[13], b[14], b[15])
  {
    assert PackWord(b) == Pack(b);
    hide *;
    FourDigits(b);
    FourDigits(b[4..]);
    FourDigits(b[8..]);
    FourDigits(b[12..]);
    assert b[4..][4..] == b[8..] && b[8..][4..] == b[12..] && b[12..][4..] == [];
    PackNone();
  }

  lemma PackNone()
    ensures Pack([]) == 0
  {
  }

  lemma {:induction false} UnpackedDigit(w: nat, n: nat, i: nat)
    requires i < n
    ensures Unpack(w, n)[i] == Digit(w, i)
  {
    if i == 0 {
    } else {
      UnpackedDigit(w / 2, n - 1, i - 1);
    }
  }

  /** The sixteen digits of a given word. */
  lemma DigitsOfWord(w: word)
    ensures forall i :: 0 <= i < 16 ==> Bits(w)[i] == Digit(w, i)
  {
    forall i | 0 <= i < 16
      ensures Bits(w)[i] == Digit(w, i)
    {
      UnpackedDigit(w, 16, i);
    }
  }
}
