/** The lazily allocated guest memory behind the memory callbacks
  (src/x86emu.c): a directory of 4096 pages of 4 KiB, each allocated and
  zeroed at its first access. It refines a flat memory of 16 MiB that starts
  zeroed and wraps at its end. */
module PageDirectory {
  import opened ByteMemory

  const SIZE := 0x100_0000
  const PAGE := 0x1000

  /** Reads of the flat memory. */
  function FlatLoad(m: Memory, address: nat, size: nat): (s: seq<byte>)
    ensures |s| == size
    ensures forall i :: 0 <= i < size ==> s[i] == m(Around(0x100_0000, address, i))
  {
    seq<byte>(size, i requires 0 <= i < size => m((address + i) % SIZE))
  }

  /** Writes of the flat memory. */
  function FlatStore(m: Memory, address: nat, data: seq<byte>): Memory {
    RingStore(m, SIZE, address % SIZE, data)
  }

  /** What a write leaves: of the bytes of one cell the last stays, and cells that are
    not reached are as they were. */
  lemma FlatStoreMeaning(m: Memory, address: nat, data: seq<byte>)
    ensures forall i :: 0 <= i < |data| && |data| - i <= 0x100_0000 ==>
      FlatStore(m, address, data)(Around(0x100_0000, address, i)) == data[i]
    ensures forall x: nat :: (forall i :: 0 <= i < |data| ==> Around(0x100_0000, address, i) != x) ==>
      FlatStore(m, address, data)(x) == m(x)
  {
    hide RingStore;
    var p := address % SIZE;
    assert forall i: nat :: Around(SIZE, p, i) == Around(SIZE, address, i);
    forall i | 0 <= i < |data| && |data| - i <= 0x100_0000
      ensures RingStore(m, SIZE, p, data)(Around(SIZE, address, i)) == data[i]
    {
      RingStoreHits(m, SIZE, p, data, i);
    }
    forall x: nat | forall i :: 0 <= i < |data| ==> Around(SIZE, address, i) != x
      ensures RingStore(m, SIZE, p, data)(x) == m(x)
    {
      RingStoreMisses(m, SIZE, p, data, x);
    }
  }

  datatype Access = Read(address: nat, size: nat) | Write(address: nat, data: seq<byte>)

  /** The flat memory after a sequence of accesses, and what its reads return. */
  function FlatRun(m: Memory, accesses: seq<Access>): (Memory, seq<seq<byte>>) {
    if |accesses| == 0 then (m, [])
    else
      var (before, results) := FlatRun(m, accesses[..|accesses| - 1]);
      match accesses[|accesses| - 1]
      case Read(address, size) => (before, results + [FlatLoad(before, address, size)])
      case Write(address, data) => (FlatStore(before, address, data), results)
  }

  /** The address of a byte on the same page. */
  lemma FlatAddress(a: nat, i: nat)
    requires a % PAGE + i < PAGE
    ensures (a + i) % SIZE == a / PAGE % 0x1000 * PAGE + (a % PAGE + i)
  {
  }

  lemma NextPage(a: nat)
    ensures var length := PAGE - a % PAGE; (a + length) / PAGE * PAGE == a + length
  {
  }

  lemma FlatLoadSplits(m: Memory, address: nat, done: nat, n: nat)
    ensures FlatLoad(m, address, done + n) == FlatLoad(m, address, done) + FlatLoad(m, address + done, n)
  {
    hide FlatLoad;
    var s, t := FlatLoad(m, address, done + n), FlatLoad(m, address + done, n);
    forall i | 0 <= i < n
      ensures s[done + i] == t[i]
    {
      assert address + (done + i) == address + done + i;
    }
    assert s[..done] == FlatLoad(m, address, done);
    assert s[done..] == t;
  }

  /** Storing the part on one page, then the rest. */
  lemma FlatStoreSplits(m: Memory, a: nat, data: seq<byte>, n: nat)
    requires n <= |data| && a % SIZE + n <= SIZE
    ensures FlatStore(m, a, data) == FlatStore(FlatStore(m, a, data[..n]), a + n, data[n..])
  {
    RingStoreSplits(m, SIZE, a % SIZE, data, n);
    assert (a + n) % SIZE == Advance(a % SIZE, n, SIZE);
  }

  /** A store within a page is one block below 16 MiB. */
  lemma FlatStoreInPage(m: Memory, a: nat, chunk: seq<byte>)
    requires a % PAGE + |chunk| <= PAGE
    ensures AgreeBelow(FlatStore(m, a, chunk), Store(m, a % SIZE, chunk), SIZE)
  {
    assert a % SIZE + |chunk| <= SIZE;
    BlockStoreIsRing(m, SIZE, a % SIZE, chunk, |chunk|);
    assert chunk[..|chunk|] == chunk;
  }

  /** Which bytes of which page a chunk covers. */
  lemma CellInChunk(index: nat, offset: nat, n: nat, i: nat, o: nat)
    requires offset + n <= PAGE && o < PAGE
    ensures index * PAGE + offset <= i * PAGE + o < index * PAGE + offset + n
      <==> i == index && offset <= o < offset + n
  {
  }

  class Directory {
    const pages: array<array?<byte>>
    ghost var flat: Memory
    ghost var repr: set<object>

    /** The byte at an offset of a page; an absent page reads as zero. */
    ghost function Peek(page: nat, offset: nat): byte
      reads pages, if page < pages.Length && pages[page] != null then {pages[page] as object} else {}
      requires page < pages.Length && (pages[page] != null ==> offset < pages[page].Length)
    {
      if pages[page] == null then 0 else pages[page][offset]
    }

    ghost predicate Valid()
      reads this, repr
      ensures Valid() ==> this in repr && pages in repr
    {
      && this in repr && pages in repr && pages.Length == 0x1000
      && (forall i :: 0 <= i < 0x1000 && pages[i] != null ==> pages[i] in repr && pages[i].Length == PAGE)
      && (forall i, j :: 0 <= i < j < 0x1000 && pages[i] != null ==> pages[i] != pages[j])
      && (forall i, offset :: 0 <= i < 0x1000 && 0 <= offset < PAGE ==> Peek(i, offset) == flat(i * PAGE + offset))
    }

    constructor ()
      ensures Valid() && fresh(repr)
      ensures forall a: nat :: flat(a) == 0
    {
      pages := new array?<byte>[0x1000](_ => null);
      flat := _ => 0;
      new;
      repr := {this, pages};
    }

    method GetPage(address: nat) returns (page: array<byte>)
      requires Valid()
      modifies pages, this`repr
      ensures Valid() && fresh(repr - old(repr))
      ensures page in repr && pages.Length == 0x1000 && page == pages[address / PAGE % 0x1000]
    {
      var index := address / PAGE % 0x1000;
      if pages[index] == null {
        var zeroed := new byte[PAGE](_ => 0);
        pages[index] := zeroed;
        repr := repr + {zeroed};
        assert forall i, offset :: 0 <= i < 0x1000 && 0 <= offset < PAGE ==> Peek(i, offset) == old(Peek(i, offset));
      }
      page := pages[index];
    }

    /** Reads any number of bytes; allocating pages on the way changes nothing visible. */
    method MemoryRead(address: nat, size: nat) returns (buffer: seq<byte>)
      requires Valid()
      modifies pages, this`repr
      ensures Valid() && fresh(repr - old(repr))
      ensures buffer == FlatLoad(flat, address, size)
    {
      hide FlatLoad;
      hide Directory.Valid;
      buffer := [];
      var a, n := address, size;
      while true
        invariant Valid() && fresh(repr - old(repr))
        invariant a == address + |buffer| && 0 <= n && |buffer| + n == size
        invariant buffer == FlatLoad(flat, address, |buffer|)
        decreases n
      {
        var page := GetPage(a);
        var offset := a % PAGE;
        if offset + n <= PAGE {
          PageIsFlat(a, page, n);
          FlatLoadSplits(flat, address, |buffer|, n);
          buffer := buffer + page[offset..offset + n];
          break;
        } else {
          var length := PAGE - offset;
          PageIsFlat(a, page, length);
          FlatLoadSplits(flat, address, |buffer|, length);
          NextPage(a);
          buffer := buffer + page[offset..offset + length];
          n := n - length;
          a := (a + length) / PAGE * PAGE;
        }
      }
    }

    /** Writes any number of bytes. */
    method MemoryWrite(address: nat, data: seq<byte>)
      requires Valid()
      modifies repr
      ensures Valid() && fresh(repr - old(repr))
      ensures flat == FlatStore(old(flat), address, data)
    {
      hide FlatStore;
      hide Directory.Valid;
      var a, rest := address, data;
      while true
        invariant Valid() && fresh(repr - old(repr)) && 0 <= a
        invariant FlatStore(flat, a, rest) == FlatStore(old(flat), address, data)
        decreases |rest|
      {
        var page := GetPage(a);
        var offset := a % PAGE;
        if offset + |rest| <= PAGE {
          CopyIn(a, page, rest);
          break;
        } else {
          var length := PAGE - offset;
          FlatStoreSplits(flat, a, rest, length);
          NextPage(a);
          CopyIn(a, page, rest[..length]);
          rest := rest[length..];
          a := (a + length) / PAGE * PAGE;
        }
      }
    }

    /** A run of accesses behaves as the flat memory does. */
    method Run(accesses: seq<Access>) returns (results: seq<seq<byte>>)
      requires Valid()
      modifies repr
      ensures Valid() && fresh(repr - old(repr))
      ensures (flat, results) == FlatRun(old(flat), accesses)
    {
      results := [];
      for i := 0 to |accesses|
        invariant Valid() && fresh(repr - old(repr))
        invariant (flat, results) == FlatRun(old(flat), accesses[..i])
      {
        assert accesses[..i + 1][..i] == accesses[..i];
        match accesses[i] {
          case Read(address, size) =>
            var buffer := MemoryRead(address, size);
            results := results + [buffer];
          case Write(address, data) =>
            MemoryWrite(address, data);
        }
      }
      assert accesses[..|accesses|] == accesses;
    }

    /** The bytes of a page are those of the flat memory. */
    lemma PageIsFlat(a: nat, page: array<byte>, n: nat)
      requires Valid() && page == pages[a / PAGE % 0x1000]
      requires a % PAGE + n <= PAGE
      ensures page[a % PAGE..a % PAGE + n] == FlatLoad(flat, a, n)
    {
      hide FlatLoad;
      var index, offset := a / PAGE % 0x1000, a % PAGE;
      forall i | 0 <= i < n
        ensures page[offset + i] == FlatLoad(flat, a, n)[i]
      {
        assert Peek(index, offset + i) == flat(index * PAGE + (offset + i));
        FlatAddress(a, i);
      }
    }

    /** One `memcpy` into a page. */
    method CopyIn(a: nat, page: array<byte>, chunk: seq<byte>)
      requires Valid() && page == pages[a / PAGE % 0x1000]
      requires a % PAGE + |chunk| <= PAGE
      modifies page, this`flat
      ensures Valid()
      ensures flat == FlatStore(old(flat), a, chunk)
    {
      hide RingStore;
      var index, offset := a / PAGE % 0x1000, a % PAGE;
      FlatAddress(a, 0);
      ghost var before := flat;
      forall i | 0 <= i < |chunk| {
        page[offset + i] := chunk[i];
      }
      flat := FlatStore(flat, a, chunk);
      FlatStoreInPage(before, a, chunk);
      forall i, o | 0 <= i < 0x1000 && 0 <= o < PAGE
        ensures Peek(i, o) == flat(i * PAGE + o)
      {
        assert old(Peek(i, o)) == before(i * PAGE + o);
        CellInChunk(index, offset, |chunk|, i, o);
      }
    }
  }

  /** Reading around a write: bytes that were written come back, and the others are
    as they were, in a memory of 16 MiB. */
  method WriteThenRead(d: Directory, address: nat, data: seq<byte>, from: nat, size: nat)
    returns (before: seq<byte>, after: seq<byte>)
    requires d.Valid() && |data| <= 0x100_0000
    modifies d.repr
    ensures d.Valid() && |before| == |after| == size
    ensures forall i, j :: 0 <= i < size && 0 <= j < |data| ==>
      Around(0x100_0000, from, i) == Around(0x100_0000, address, j) ==> after[i] == data[j]
    ensures forall i :: 0 <= i < size ==>
      (forall j :: 0 <= j < |data| ==> Around(0x100_0000, address, j) != Around(0x100_0000, from, i)) ==>
      after[i] == before[i]
  {
    hide Directory.Valid;
    hide FlatStore;
    hide Around;
    before := d.MemoryRead(from, size);
    FlatStoreMeaning(d.flat, address, data);
    d.MemoryWrite(address, data);
    after := d.MemoryRead(from, size);
  }
}
