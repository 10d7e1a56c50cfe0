/** Byte-addressed guest memory, shared by all components.
  External memory is reached through callbacks without side effects, so it is
  a total function from addresses to bytes; `Store` is one `memcpy` into it and
  `Load` one `memcpy` out of it. */
module ByteMemory {
  import opened Arithmetic

  type byte = x: int | 0 <= x < 0x100
  type word = x: int | 0 <= x < 0x1_0000
  type Memory = nat -> byte

  function Load(m: Memory, a: nat, n: nat): (s: seq<byte>)
    ensures |s| == n
    ensures forall i :: 0 <= i < n ==> s[i] == m(a + i)
  {
    seq(n, i requires 0 <= i < n => m(a + i))
  }

  function Store<B>(m: nat -> B, a: nat, data: seq<B>): nat -> B {
    (x: nat) => if a <= x < a + |data| then data[x - a] else m(x)
  }

  /** The 16-bit number with the given low and high byte. */
  function WordOf(low: byte, high: byte): word {
    high as int * 0x100 + low as int
  }

  /** A little-endian 16-bit read. */
  function Word(m: Memory, a: nat): word {
    WordOf(m(a), m(a + 1))
  }

  function Bytes16(w: word): (s: seq<byte>)
    ensures |s| == 2
    ensures WordOf(s[0], s[1]) == w
  {
    [w % 0x100, w / 0x100]
  }

  /** A little-endian 16-bit write. */
  function StoreWord(m: Memory, a: nat, w: word): Memory {
    Store(m, a, Bytes16(w))
  }

  /** The two memories agree on every address below `limit`. */
  ghost predicate AgreeBelow(m: Memory, m': Memory, limit: nat) {
    forall p: nat :: p < limit ==> m(p) == m'(p)
  }

  /** The address `n` bytes after `p` in a memory that wraps at `limit`. */
  function Advance(p: nat, n: nat, limit: nat): nat {
    if p + n < limit then p + n else p + n - limit
  }

  /** The simple model of a write to a memory that wraps at `limit`: one byte at
    a time, the last writer of a cell wins. */
  function RingStore(m: Memory, limit: nat, p: nat, data: seq<byte>): Memory
    requires p < limit
    decreases |data|
  {
    if |data| == 0 then m
    else RingStore(Store(m, p, data[..1]), limit, Advance(p, 1, limit), data[1..])
  }

  lemma {:induction false} RingStoreAgrees(m: Memory, m': Memory, limit: nat, p: nat, data: seq<byte>)
    requires p < limit && AgreeBelow(m, m', limit)
    ensures AgreeBelow(RingStore(m, limit, p, data), RingStore(m', limit, p, data), limit)
    decreases |data|
  {
    if |data| == 0 {
    } else {
      RingStoreAgrees(Store(m, p, data[..1]), Store(m', p, data[..1]), limit, Advance(p, 1, limit), data[1..]);
    }
  }

  lemma {:induction false} RingStoreSplits(m: Memory, limit: nat, p: nat, data: seq<byte>, n: nat)
    requires p < limit && n <= |data| && p + n <= limit
    ensures RingStore(m, limit, p, data)
      == RingStore(RingStore(m, limit, p, data[..n]), limit, Advance(p, n, limit), data[n..])
    decreases n
  {
    if n == 0 {
      assert data[0..] == data;
    } else if n == 1 {
      assert data[..1][..1] == data[..1];
    } else {
      var m' := Store(m, p, data[..1]);
      assert data[..n][..1] == data[..1] && data[..n][1..] == data[1..][..n - 1] && data[1..][n - 1..] == data[n..];
      RingStoreSplits(m', limit, p + 1, data[1..], n - 1);
    }
  }

  /** The address of byte `i` of an access at `p` in a memory that wraps at `limit`. */
  function Around(limit: nat, p: nat, i: nat): (x: nat)
    requires limit > 0
    ensures x < limit
  {
    (p + i) % limit
  }

  lemma AroundFirst(limit: nat, p: nat)
    requires p < limit
    ensures Around(limit, p, 0) == p
  {
  }

  lemma AroundNext(limit: nat, p: nat, i: nat)
    requires p < limit
    ensures Around(limit, Advance(p, 1, limit), i) == Around(limit, p, i + 1)
  {
    if p + 1 == limit {
      var q, r := i / limit, i % limit;
      assert i == r + q * limit && p + (i + 1) == r + (q + 1) * limit;
      Fields(r, limit, q + 1);
    } else {
      assert p + 1 + i == p + (i + 1);
    }
  }

  /** Fewer bytes than the memory has cells have different addresses. */
  lemma AroundApart(limit: nat, p: nat, i: nat, j: nat)
    requires i < j < i + limit
    ensures Around(limit, p, i) != Around(limit, p, j)
  {
    var q, r, d := (p + i) / limit, (p + i) % limit, j - i;
    assert p + j == (r + d) + q * limit;
    if r + d < limit {
      Fields(r + d, limit, q);
    } else {
      assert (r + d) + q * limit == (r + d - limit) + (q + 1) * limit;
      Fields(r + d - limit, limit, q + 1);
    }
  }

  /** A cell that a wrapping write does not reach is as it was. */
  lemma {:induction false} RingStoreMisses(m: Memory, limit: nat, p: nat, data: seq<byte>, x: nat)
    requires p < limit && forall i :: 0 <= i < |data| ==> Around(limit, p, i) != x
    ensures RingStore(m, limit, p, data)(x) == m(x)
    decreases |data|
  {
    hide Around;
    if |data| == 0 {
    } else {
      AroundFirst(limit, p);
      forall i | 0 <= i < |data| - 1
        ensures Around(limit, Advance(p, 1, limit), i) != x
      {
        AroundNext(limit, p, i);
      }
      RingStoreMisses(Store(m, p, data[..1]), limit, Advance(p, 1, limit), data[1..], x);
    }
  }

  /** Of the bytes of a wrapping write that reach a cell the last stays in it. */
  lemma {:induction false} RingStoreHits(m: Memory, limit: nat, p: nat, data: seq<byte>, i: nat)
    requires p < limit && i < |data| <= i + limit
    ensures RingStore(m, limit, p, data)(Around(limit, p, i)) == data[i]
    decreases |data|
  {
    hide Around;
    var next, m' := Advance(p, 1, limit), Store(m, p, data[..1]);
    AroundFirst(limit, p);
    forall j | 0 <= j < |data| - 1
      ensures Around(limit, next, j) == Around(limit, p, j + 1)
    {
      AroundNext(limit, p, j);
    }
    if i == 0 {
      forall j | 0 < j < |data|
        ensures Around(limit, p, j) != Around(limit, p, 0)
      {
        AroundApart(limit, p, 0, j);
      }
      RingStoreMisses(m', limit, next, data[1..], p);
    } else {
      assert Around(limit, next, i - 1) == Around(limit, p, i);
      RingStoreHits(m', limit, next, data[1..], i - 1);
    }
  }

  /** A block store that starts below the limit is the byte-at-a-time write of
    the bytes that fit; the others land at or above the limit. */
  lemma {:induction false} BlockStoreIsRing(m: Memory, limit: nat, p: nat, data: seq<byte>, n: nat)
    requires p < limit && n <= |data| && p + n <= limit
    requires n == |data| || p + n == limit
    ensures AgreeBelow(Store(m, p, data), RingStore(m, limit, p, data[..n]), limit)
    decreases n
  {
    if n > 1 {
      var m' := Store(m, p, data[..1]);
      BlockStoreIsRing(m', limit, p + 1, data[1..], n - 1);
      assert data[..n][..1] == data[..1] && data[..n][1..] == data[1..][..n - 1];
    } else if n == 1 {
      assert data[..1][..1] == data[..1];
    }
  }
}
