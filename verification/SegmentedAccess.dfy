/** Segmented and paged memory access of the 20-bit processors
  (src/cpu/memory.c): the 8086 family without paging, and the V33 with its
  optional table of 64 page registers.

  Every layer works in chunks: a segmented access is split where the 16-bit
  offset wraps, and a linear access is split at the end of a page. The loop
  over pages hands the whole remaining length to the layer below at each
  chunk, so a chunk touches memory past the end of its own page. */
module SegmentedAccess {
  import opened Arithmetic
  import opened ByteMemory

  const MIB := 0x10_0000
  const PAGE := 0x4000

  /** How linear addresses become physical ones: a 20-bit mask, or the V33
    page registers. */
  datatype PageMap = Unpaged | Banked(pages: seq<word>)

  ghost predicate ValidMap(pm: PageMap) {
    pm.Banked? ==> |pm.pages| == 64
  }

  /** The physical address of one linear address. */
  function Physical(pm: PageMap, a: nat): nat
    requires ValidMap(pm)
  {
    match pm
    case Unpaged => a % MIB
    case Banked(pages) => pages[a / PAGE % 64] % 0x400 * PAGE + a % PAGE
  }

  /** The number of bytes from `a` to the end of its page. */
  function PageRest(pm: PageMap, a: nat): (n: nat)
    ensures n > 0
  {
    match pm
    case Unpaged => MIB - a % MIB
    case Banked(_) => PAGE - a % PAGE
  }

  /** A linear address is byte `r` of window `k` of one of the 64 page registers;
    the windows repeat every 1 MiB. */
  ghost predicate InWindow(a: nat, n: nat, k: nat, r: nat) {
    k < 64 && r < 0x4000 && a == n * 0x10_0000 + k * 0x4000 + r
  }

  /** Every address is in one window, and is translated by its page register. */
  lemma WindowPhysical(pages: seq<word>, a: nat, n: nat, k: nat, r: nat)
    requires |pages| == 64 && InWindow(a, n, k, r)
    ensures Physical(Banked(pages), a) == pages[k] as int % 0x400 * 0x4000 + r
    ensures PageRest(Banked(pages), a) == 0x4000 - r
  {
    assert a == r + (n * 64 + k) * 0x4000;
    Fields(r, 0x4000, n * 64 + k);
    Fields(k, 64, n);
  }

  lemma WindowOf(a: nat) returns (n: nat, k: nat, r: nat)
    ensures InWindow(a, n, k, r)
  {
    n, k, r := a / 0x10_0000, a / 0x4000 % 64, a % 0x4000;
  }

  /** Changing a page register moves its own windows and no other. */
  lemma OtherWindows(pages: seq<word>, j: nat, page: word, a: nat, n: nat, k: nat, r: nat)
    requires |pages| == 64 && j < 64 && InWindow(a, n, k, r)
    ensures Physical(Banked(pages[j := page]), a)
      == if k == j then page as int % 0x400 * 0x4000 + r else Physical(Banked(pages), a)
  {
    WindowPhysical(pages, a, n, k, r);
    WindowPhysical(pages[j := page], a, n, k, r);
  }

  /** Inside one page, physical addresses follow linear ones. */
  lemma PhysicalWithinPage(pm: PageMap, a: nat, i: nat)
    requires ValidMap(pm)
    requires i < PageRest(pm, a)
    ensures Physical(pm, a + i) == Physical(pm, a) + i
  {
    match pm {
      case Unpaged =>
        assert (a + i) / MIB == a / MIB;
      case Banked(_) =>
        assert (a + i) / PAGE == a / PAGE;
    }
  }

  /** What a chunked write leaves in memory: each chunk stores all of the data
    still to be written, from the physical address of its own first byte. */
  function ChunkedStore(pm: PageMap, m: Memory, a: nat, data: seq<byte>): Memory
    requires ValidMap(pm)
    decreases |data|
  {
    if |data| == 0 then m
    else
      var n := Min(PageRest(pm, a), |data|);
      ChunkedStore(pm, Store(m, Physical(pm, a), data), a + n, data[n..])
  }

  /** The bytes at `count` consecutive linear addresses, each translated on its own. */
  function LinearLoad(pm: PageMap, m: Memory, a: nat, count: nat): (s: seq<byte>)
    requires ValidMap(pm)
    ensures |s| == count
    ensures forall i :: 0 <= i < count ==> s[i] == m(Physical(pm, a + i))
  {
    seq<byte>(count, i requires 0 <= i < count => m(Physical(pm, a + i)))
  }

  /** A chunk that reads all of the remaining `ahead` bytes still extends the
    loaded part by the `n` bytes of its own page. */
  lemma ReadExtends(pm: PageMap, m: Memory, a: nat, done: nat, n: nat, ahead: nat, before: seq<byte>, after: seq<byte>)
    requires ValidMap(pm) && n <= PageRest(pm, a + done) && n <= ahead
    requires before == LinearLoad(pm, m, a, done)
    requires after == before + Load(m, Physical(pm, a + done), ahead)
    ensures after[..done + n] == LinearLoad(pm, m, a, done + n)
  {
    var s, t := LinearLoad(pm, m, a, done + n), Load(m, Physical(pm, a + done), ahead);
    forall i | 0 <= i < n
      ensures s[done + i] == t[i]
    {
      PhysicalWithinPage(pm, a + done, i);
      assert a + done + i == a + (done + i);
    }
    assert s[..done] == before;
    assert s[done..] == t[..n];
  }

  /** A buffer of which only the part from `b` on has changed. */
  lemma PartReplaced(was: seq<byte>, now: seq<byte>, at: nat, b: nat, n: nat, length: nat)
    requires at <= b && length <= n && b + n <= |was| == |now| && now[..b] == was[..b]
    ensures now[..at] == was[..at] && now[at..b + length] == (was[at..b] + now[b..b + n])[..b - at + length]
  {
    assert now[..at] == now[..b][..at] && was[..at] == was[..b][..at];
    assert now[at..b] == now[..b][at..] && was[at..b] == was[..b][at..];
  }

  /** The bytes of a segmented access: byte `i` is at offset `offset + i` modulo
    64 KiB, translated on its own. */
  function SegmentLoad(pm: PageMap, m: Memory, base: nat, offset: nat, count: nat): (s: seq<byte>)
    requires ValidMap(pm)
    ensures |s| == count
    ensures forall i :: 0 <= i < count ==> s[i] == m(Physical(pm, base + (offset + i) % 0x1_0000))
  {
    seq<byte>(count, i requires 0 <= i < count => m(Physical(pm, base + (offset + i) % 0x1_0000)))
  }

  lemma WrapInside(x: nat, i: nat)
    requires x % 0x1_0000 + i < 0x1_0000
    ensures (x + i) % 0x1_0000 == x % 0x1_0000 + i
  {
  }

  lemma SegmentLoadExtends(pm: PageMap, m: Memory, base: nat, offset: nat, done: nat, n: nat)
    requires ValidMap(pm) && (offset + done) % 0x1_0000 + n <= 0x1_0000
    ensures SegmentLoad(pm, m, base, offset, done + n)
      == SegmentLoad(pm, m, base, offset, done) + LinearLoad(pm, m, base + (offset + done) % 0x1_0000, n)
    ensures (offset + (done + n)) % 0x1_0000 == ((offset + done) % 0x1_0000 + n) % 0x1_0000
  {
    hide SegmentLoad;
    hide LinearLoad;
    hide Physical;
    var o := (offset + done) % 0x1_0000;
    var s, t := SegmentLoad(pm, m, base, offset, done + n), LinearLoad(pm, m, base + o, n);
    assert s[..done] == SegmentLoad(pm, m, base, offset, done);
    assert s[done..] == t by {
      forall i | 0 <= i < n
        ensures s[done + i] == t[i]
      {
        WrapInside(offset + done, i);
        var at := offset + (done + i);
        assert at == offset + done + i;
        assert t[i] == m(Physical(pm, base + o + i));
      }
    }
    assert s == s[..done] + s[done..];
  }

  /** An offset at most one wrap past the end of the segment. */
  function Wrap(offset: nat): nat {
    if offset < 0x1_0000 then offset else offset - 0x1_0000
  }

  /** The simple model of a segmented write: one byte at a time. */
  function SegmentStore(m: Memory, base: nat, offset: nat, data: seq<byte>): Memory
    decreases |data|
  {
    if |data| == 0 then m
    else SegmentStore(Store(m, Physical(Unpaged, base + offset), data[..1]), base, Wrap(offset + 1), data[1..])
  }

  /** Byte writes below 1 MiB depend only on the memory below 1 MiB. */
  lemma {:induction false} SegmentStoreAgrees(m: Memory, m': Memory, base: nat, offset: nat, data: seq<byte>)
    requires AgreeBelow(m, m', MIB)
    ensures AgreeBelow(SegmentStore(m, base, offset, data), SegmentStore(m', base, offset, data), MIB)
    decreases |data|
  {
    if |data| == 0 {
    } else {
      var p := Physical(Unpaged, base + offset);
      SegmentStoreAgrees(Store(m, p, data[..1]), Store(m', p, data[..1]), base, Wrap(offset + 1), data[1..]);
    }
  }

  /** A chunked unpaged write is the byte-at-a-time write in a 1 MiB ring: what a
    chunk writes past the end of its page lands above 1 MiB. */
  lemma {:induction false} ChunkedStoreIsRing(m: Memory, a: nat, data: seq<byte>)
    ensures AgreeBelow(ChunkedStore(Unpaged, m, a, data), RingStore(m, MIB, a % MIB, data), MIB)
    decreases |data|
  {
    if |data| == 0 {
    } else {
      var p, n := a % MIB, Min(PageRest(Unpaged, a), |data|);
      var m' := Store(m, p, data);
      ChunkedStoreIsRing(m', a + n, data[n..]);
      BlockStoreIsRing(m, MIB, p, data, n);
      assert (a + n) % MIB == Advance(p, n, MIB);
      RingStoreAgrees(m', RingStore(m, MIB, p, data[..n]), MIB, Advance(p, n, MIB), data[n..]);
      RingStoreSplits(m, MIB, p, data, n);
    }
  }

  lemma RingNext(a: nat)
    ensures Advance(a % MIB, 1, MIB) == (a + 1) % MIB
  {
  }

  lemma {:induction false} SegmentStoreIsRing(m: Memory, base: nat, offset: nat, data: seq<byte>)
    requires offset + |data| <= 0x1_0000
    ensures SegmentStore(m, base, offset, data) == RingStore(m, MIB, (base + offset) % MIB, data)
    decreases |data|
  {
    if |data| == 0 {
    } else {
      var p := (base + offset) % MIB;
      var m' := Store(m, p, data[..1]);
      RingNext(base + offset);
      if |data| == 1 {
        assert SegmentStore(m', base, Wrap(offset + 1), data[1..]) == m';
      } else {
        SegmentStoreIsRing(m', base, offset + 1, data[1..]);
      }
      assert SegmentStore(m, base, offset, data) == SegmentStore(m', base, Wrap(offset + 1), data[1..]);
      assert RingStore(m, MIB, p, data) == RingStore(m', MIB, Advance(p, 1, MIB), data[1..]);
    }
  }

  lemma {:induction false} SegmentStoreSplits(m: Memory, base: nat, offset: nat, data: seq<byte>, n: nat)
    requires n <= |data| && offset < 0x1_0000 && offset + n <= 0x1_0000
    ensures SegmentStore(m, base, offset, data)
      == SegmentStore(SegmentStore(m, base, offset, data[..n]), base, Wrap(offset + n), data[n..])
    decreases n
  {
    if n == 0 {
      assert data[0..] == data;
    } else if n == 1 {
      assert data[..1][..1] == data[..1];
    } else {
      var m' := Store(m, Physical(Unpaged, base + offset), data[..1]);
      assert data[..n][..1] == data[..1] && data[..n][1..] == data[1..][..n - 1] && data[1..][n - 1..] == data[n..];
      SegmentStoreSplits(m', base, offset + 1, data[1..], n - 1);
    }
  }

  /** One chunk of a segmented write, as the layer below performs it. */
  lemma SegmentStoreChunk(m: Memory, base: nat, offset: nat, data: seq<byte>, n: nat)
    requires n <= |data| && offset < 0x1_0000 && offset + n <= 0x1_0000
    ensures AgreeBelow(ChunkedStore(Unpaged, m, base + offset, data[..n]), SegmentStore(m, base, offset, data[..n]),
      MIB)
    ensures SegmentStore(m, base, offset, data)
      == SegmentStore(SegmentStore(m, base, offset, data[..n]), base, Wrap(offset + n), data[n..])
  {
    ChunkedStoreIsRing(m, base + offset, data[..n]);
    SegmentStoreIsRing(m, base, offset, data[..n]);
    SegmentStoreSplits(m, base, offset, data, n);
  }

  /** A segmented write as it is carried out: one linear write for each piece
    up to the end of the segment. */
  function SegmentChunks(pm: PageMap, m: Memory, base: nat, offset: nat, data: seq<byte>): Memory
    requires ValidMap(pm) && offset < 0x1_0000
    decreases |data|
  {
    if |data| == 0 then m
    else
      var n := Min(|data|, 0x1_0000 - offset);
      SegmentChunks(pm, ChunkedStore(pm, m, base + offset, data[..n]), base, (offset + n) % 0x1_0000, data[n..])
  }

  lemma FirstChunk(pm: PageMap, m: Memory, base: nat, offset: nat, data: seq<byte>)
    requires ValidMap(pm) && offset < 0x1_0000
    ensures SegmentChunks(pm, m, base, offset, data) ==
      if |data| == 0 then m
      else
        var n := Min(|data|, 0x1_0000 - offset);
        SegmentChunks(pm, ChunkedStore(pm, m, base + offset, data[..n]), base, (offset + n) % 0x1_0000, data[n..])
  {
  }

  lemma SingleChunk(pm: PageMap, m: Memory, base: nat, offset: nat, data: seq<byte>)
    requires ValidMap(pm) && offset + |data| <= 0x1_0000 && offset < 0x1_0000
    ensures SegmentChunks(pm, m, base, offset, data) == ChunkedStore(pm, m, base + offset, data)
  {
    if |data| > 0 {
      var m' := ChunkedStore(pm, m, base + offset, data);
      assert data[..|data|] == data && |data[|data|..]| == 0;
      assert SegmentChunks(pm, m', base, (offset + |data|) % 0x1_0000, data[|data|..]) == m';
    }
  }

  /** Without paging, the pieces amount to one byte at a time. */
  lemma {:induction false} SegmentChunksAreBytes(m: Memory, base: nat, offset: nat, data: seq<byte>)
    requires offset < 0x1_0000
    ensures AgreeBelow(SegmentChunks(Unpaged, m, base, offset, data), SegmentStore(m, base, offset, data), MIB)
    decreases |data|
  {
    hide ChunkedStore;
    if |data| == 0 {
    } else {
      var n := Min(|data|, 0x1_0000 - offset);
      var m', next := ChunkedStore(Unpaged, m, base + offset, data[..n]), Wrap(offset + n);
      SegmentStoreChunk(m, base, offset, data, n);
      SegmentStoreAgrees(m', SegmentStore(m, base, offset, data[..n]), base, next, data[n..]);
      SegmentChunksAreBytes(m', base, next, data[n..]);
    }
  }

  /** The physical address of byte `i` of an unpaged segmented access. */
  function SegmentPhysical(base: nat, offset: nat, i: nat): nat {
    (base + (offset + i) % 0x1_0000) % MIB
  }

  /** The bytes of an access of up to 64 KiB have pairwise different addresses. */
  lemma SegmentPhysicalInjective(base: nat, offset: nat, i: nat, j: nat)
    requires i < j < i + 0x1_0000
    ensures SegmentPhysical(base, offset, i) != SegmentPhysical(base, offset, j)
  {
    var x, y := (offset + i) % 0x1_0000, (offset + j) % 0x1_0000;
    assert x != y;
    assert -MIB < x - y < MIB;
  }

  lemma SegmentPhysicalNext(base: nat, offset: nat, i: nat)
    requires offset < 0x1_0000
    ensures SegmentPhysical(base, Wrap(offset + 1), i) == SegmentPhysical(base, offset, i + 1)
  {
    if offset == 0xFFFF {
      assert (offset + (i + 1)) % 0x1_0000 == i % 0x1_0000;
    }
  }

  /** No byte of the access lies at `p`. */
  ghost predicate Misses(base: nat, offset: nat, count: nat, p: nat) {
    forall i :: 0 <= i < count ==> SegmentPhysical(base, offset, i) != p
  }

  lemma MissesNext(base: nat, offset: nat, count: nat, p: nat)
    requires offset < 0x1_0000 && 0 < count && Misses(base, offset, count, p)
    ensures Misses(base, Wrap(offset + 1), count - 1, p)
  {
    var next := Wrap(offset + 1);
    forall i | 0 <= i < count - 1
      ensures SegmentPhysical(base, next, i) != p
    {
      SegmentPhysicalNext(base, offset, i);
    }
  }

  /** A segmented write changes exactly its own bytes; of a write of more than
    64 KiB the last 64 KiB stay. */
  lemma {:induction false} SegmentStoreExact(m: Memory, base: nat, offset: nat, data: seq<byte>)
    requires offset < 0x1_0000
    ensures forall i :: 0 <= i < |data| && |data| - i <= 0x1_0000 ==>
      SegmentStore(m, base, offset, data)(SegmentPhysical(base, offset, i)) == data[i]
    ensures forall p: nat :: Misses(base, offset, |data|, p) ==> SegmentStore(m, base, offset, data)(p) == m(p)
    decreases |data|
  {
    if |data| == 0 {
    } else {
      var p0 := SegmentPhysical(base, offset, 0);
      var m' := Store(m, p0, data[..1]);
      var next, r := Wrap(offset + 1), SegmentStore(m, base, offset, data);
      assert r == SegmentStore(m', base, next, data[1..]);
      SegmentStoreExact(m', base, next, data[1..]);
      forall i | 0 <= i < |data| && |data| - i <= 0x1_0000
        ensures r(SegmentPhysical(base, offset, i)) == data[i]
      {
        if i > 0 {
          SegmentPhysicalNext(base, offset, i - 1);
        } else {
          forall j | 0 <= j < |data| - 1
            ensures SegmentPhysical(base, next, j) != p0
          {
            SegmentPhysicalInjective(base, offset, 0, j + 1);
            SegmentPhysicalNext(base, offset, j);
          }
          assert Misses(base, next, |data| - 1, p0);
        }
      }
      forall p: nat | Misses(base, offset, |data|, p)
        ensures r(p) == m(p)
      {
        assert p != p0;
        MissesNext(base, offset, |data|, p);
      }
    }
  }

  /** Every byte of a write at `a` that belongs at the place of `x` in a page is `v`.
    Where a chunk runs past the end of its page it stays at these places. */
  ghost predicate Settles(a: nat, data: seq<byte>, x: nat, v: byte) {
    forall i :: 0 <= i < |data| && Around(PAGE, a, i) == x % PAGE ==> data[i] == v
  }

  lemma SettlesRest(a: nat, data: seq<byte>, x: nat, v: byte, n: nat, next: nat)
    requires Settles(a, data, x, v) && n <= |data| && next % PAGE == (a + n) % PAGE
    ensures Settles(a, data[..n], x, v) && Settles(next, data[n..], x, v)
  {
    forall i | 0 <= i < |data| - n && Around(PAGE, next, i) == x % PAGE
      ensures data[n..][i] == v
    {
      assert Around(PAGE, a, n + i) == Around(PAGE, next, i);
    }
  }

  lemma SettlesAlike(a: nat, data: seq<byte>, x: nat, x': nat, v: byte)
    requires Settles(a, data, x, v) && x % PAGE == x' % PAGE
    ensures Settles(a, data, x', v)
  {
  }

  /** A page starts at a multiple of its size. */
  lemma PhysicalInPage(pm: PageMap, a: nat)
    requires pm.Banked? && ValidMap(pm)
    ensures Physical(pm, a) % PAGE == a % PAGE
  {
    var page := pm.pages[a / PAGE % 64] as int % 0x400;
    Fields(a % PAGE, PAGE, page);
  }

  lemma FirstStore(pm: PageMap, m: Memory, a: nat, data: seq<byte>)
    requires ValidMap(pm) && |data| > 0
    ensures var n := Min(PageRest(pm, a), |data|);
      ChunkedStore(pm, m, a, data) == ChunkedStore(pm, Store(m, Physical(pm, a), data), a + n, data[n..])
  {
  }

  lemma SettlesAt(a: nat, data: seq<byte>, x: nat, v: byte, p: nat)
    requires Settles(a, data, x, v) && p % PAGE == a % PAGE && p <= x < p + |data|
    ensures data[x - p] == v
  {
    assert Around(PAGE, a, x - p) == x % PAGE;
  }

  /** A cell keeps its value if no other value of a V33 write belongs at its place. */
  lemma {:induction false} ChunksKeep(pm: PageMap, m: Memory, a: nat, data: seq<byte>, x: nat, v: byte)
    requires pm.Banked? && ValidMap(pm) && m(x) == v && Settles(a, data, x, v)
    ensures ChunkedStore(pm, m, a, data)(x) == v
    decreases |data|
  {
    hide Settles;
    hide Physical;
    if |data| == 0 {
    } else {
      var n, p := Min(PageRest(pm, a), |data|), Physical(pm, a);
      FirstStore(pm, m, a, data);
      PhysicalInPage(pm, a);
      if p <= x < p + |data| {
        SettlesAt(a, data, x, v, p);
      }
      SettlesRest(a, data, x, v, n, a + n);
      ChunksKeep(pm, Store(m, p, data), a + n, data[n..], x, v);
    }
  }

  /** A byte of a V33 write stays at its own translated address if no other value
    belongs at its place in a page. */
  lemma {:induction false} ChunksLand(pm: PageMap, m: Memory, a: nat, data: seq<byte>, i: nat)
    requires pm.Banked? && ValidMap(pm) && i < |data| && Settles(a, data, a + i, data[i])
    ensures ChunkedStore(pm, m, a, data)(Physical(pm, a + i)) == data[i]
    decreases |data|
  {
    hide Settles;
    hide ChunkedStore;
    hide Physical;
    var n, m' := Min(PageRest(pm, a), |data|), Store(m, Physical(pm, a), data);
    FirstStore(pm, m, a, data);
    SettlesRest(a, data, a + i, data[i], n, a + n);
    if i < n {
      PhysicalWithinPage(pm, a, i);
      PhysicalInPage(pm, a + i);
      SettlesAlike(a + n, data[n..], a + i, Physical(pm, a + i), data[i]);
      ChunksKeep(pm, m', a + n, data[n..], Physical(pm, a + i), data[i]);
    } else {
      assert a + n + (i - n) == a + i;
      ChunksLand(pm, m', a + n, data[n..], i - n);
    }
  }

  /** Bytes of an access of up to 16 KiB have different places. */
  lemma PlacesDiffer(a: nat, data: seq<byte>, i: nat)
    requires i < |data| <= PAGE
    ensures Settles(a, data, a + i, data[i])
  {
    forall j | 0 <= j < |data| && Around(PAGE, a, j) == (a + i) % PAGE
      ensures j == i
    {
    }
  }

  /** A V33 write of up to 16 KiB leaves each byte where the page register of its
    own window puts it, whatever the page registers say. */
  lemma BankedWriteLands(pages: seq<word>, m: Memory, a: nat, data: seq<byte>, i: nat, n: nat, k: nat, r: nat)
    requires |pages| == 64 && i < |data| <= 0x4000 && InWindow(a + i, n, k, r)
    ensures ChunkedStore(Banked(pages), m, a, data)(pages[k] as int % 0x400 * 0x4000 + r) == data[i]
  {
    PlacesDiffer(a, data, i);
    ChunksLand(Banked(pages), m, a, data, i);
    WindowPhysical(pages, a + i, n, k, r);
  }

  /** The linear address of byte `i` of a segmented access, as far as its place in
    a page is concerned. */
  lemma SegmentPlace(base: nat, offset: nat, i: nat)
    ensures (base + (offset + i) % 0x1_0000) % PAGE == (base + offset + i) % PAGE
  {
  }

  lemma {:induction false} SegmentChunksKeep(pm: PageMap, m: Memory, base: nat, offset: nat, data: seq<byte>, x: nat,
                                             v: byte)
    requires pm.Banked? && ValidMap(pm) && offset < 0x1_0000 && m(x) == v && Settles(base + offset, data, x, v)
    ensures SegmentChunks(pm, m, base, offset, data)(x) == v
    decreases |data|
  {
    if |data| == 0 {
    } else {
      var n := Min(|data|, 0x1_0000 - offset);
      var next := (offset + n) % 0x1_0000;
      SegmentPlace(base, offset, n);
      SettlesRest(base + offset, data, x, v, n, base + next);
      ChunksKeep(pm, m, base + offset, data[..n], x, v);
      SegmentChunksKeep(pm, ChunkedStore(pm, m, base + offset, data[..n]), base, next, data[n..], x, v);
    }
  }

  lemma OffsetLater(offset: nat, n: nat, d: nat)
    ensures ((offset + n) % 0x1_0000 + d) % 0x1_0000 == (offset + n + d) % 0x1_0000
  {
  }

  lemma PlaceLater(x: nat, y: nat, d: nat)
    requires x % PAGE == y % PAGE
    ensures (x + d) % PAGE == (y + d) % PAGE
  {
  }

  lemma SegmentOffset(base: nat, offset: nat, n: nat, i: nat)
    requires n <= i
    ensures var next := (offset + n) % 0x1_0000;
      (next + (i - n)) % 0x1_0000 == (offset + i) % 0x1_0000
      && (base + next + (i - n)) % PAGE == (base + offset + i) % PAGE
  {
    OffsetLater(offset, n, i - n);
    SegmentPlace(base, offset, n);
    PlaceLater(base + (offset + n) % 0x1_0000, base + offset + n, i - n);
    assert offset + n + (i - n) == offset + i;
  }

  /** A segmented V33 write leaves each byte at its own translated address, across
    the end of the segment too, if no other value belongs at its place in a page. */
  lemma {:induction false} SegmentChunksLand(pm: PageMap, m: Memory, base: nat, offset: nat, data: seq<byte>, i: nat)
    requires pm.Banked? && ValidMap(pm) && offset < 0x1_0000
    requires i < |data| && Settles(base + offset, data, base + offset + i, data[i])
    ensures SegmentChunks(pm, m, base, offset, data)(Physical(pm, base + (offset + i) % 0x1_0000)) == data[i]
    decreases |data|
  {
    hide Settles;
    hide Physical;
    hide ChunkedStore;
    hide SegmentChunks;
    FirstChunk(pm, m, base, offset, data);
    var n := Min(|data|, 0x1_0000 - offset);
    var next, x := (offset + n) % 0x1_0000, base + offset + i;
    SegmentPlace(base, offset, n);
    SettlesRest(base + offset, data, x, data[i], n, base + next);
    var m' := ChunkedStore(pm, m, base + offset, data[..n]);
    if i < n {
      ChunksLand(pm, m, base + offset, data[..n], i);
      PhysicalInPage(pm, x);
      SettlesAlike(base + next, data[n..], x, Physical(pm, x), data[i]);
      SegmentChunksKeep(pm, m', base, next, data[n..], Physical(pm, x), data[i]);
    } else {
      SegmentOffset(base, offset, n, i);
      SettlesAlike(base + next, data[n..], x, base + next + (i - n), data[i]);
      SegmentChunksLand(pm, m', base, next, data[n..], i - n);
    }
  }

  /** Writing `data` and reading it back at the same linear address. */
  ghost predicate ReadsBack(pm: PageMap, m: Memory, a: nat, data: seq<byte>)
    requires ValidMap(pm)
  {
    LinearLoad(pm, ChunkedStore(pm, m, a, data), a, |data|) == data
  }

  /** Reading back returns the data for every page map exactly when the access
    is at most 16 KiB. */
  lemma BankedRoundTrip(a: nat, count: nat)
    ensures count <= PAGE <==>
      forall pm: PageMap, m: Memory, data: seq<byte> :: pm.Banked? && ValidMap(pm) && |data| == count ==>
        ReadsBack(pm, m, a, data)
  {
    if count <= PAGE {
      forall pm: PageMap, m: Memory, data: seq<byte> | pm.Banked? && ValidMap(pm) && |data| == count
        ensures ReadsBack(pm, m, a, data)
      {
        forall i | 0 <= i < count
          ensures LinearLoad(pm, ChunkedStore(pm, m, a, data), a, count)[i] == data[i]
        {
          PlacesDiffer(a, data, i);
          ChunksLand(pm, m, a, data, i);
        }
      }
    } else {
      // All page registers select the same page: bytes 0 and 16384 share a cell.
      var pm := Banked(seq(64, _ => 0));
      var m: Memory := _ => 0;
      var data := seq<byte>(count, i => if i == 0 then 1 else 0);
      assert !ReadsBack(pm, m, a, data) by {
        var r := LinearLoad(pm, ChunkedStore(pm, m, a, data), a, count);
        assert r[0] == r[PAGE] by {
          assert (a + PAGE) % PAGE == a % PAGE;
        }
        assert data[0] != data[PAGE];
      }
    }
  }

  // The accesses in terms of addresses alone.

  /** The translation by windows, as a function of the address. */
  lemma PhysicalMeaning(pm: PageMap, a: nat)
    requires ValidMap(pm)
    ensures pm == Unpaged ==> Physical(pm, a) == a % 0x10_0000 && PageRest(pm, a) == 0x10_0000 - a % 0x10_0000
    ensures pm.Banked? ==>
      && Physical(pm, a) == pm.pages[a % 0x10_0000 / 0x4000] as int % 0x400 * 0x4000 + a % 0x4000
      && PageRest(pm, a) == 0x4000 - a % 0x4000
  {
    if pm.Banked? {
      var n, k, r := WindowOf(a);
      WindowPhysical(pm.pages, a, n, k, r);
      Fields(k * 0x4000 + r, 0x10_0000, n);
      Fields(r, 0x4000, k);
      Fields(r, 0x4000, n * 64 + k);
    }
  }

  /** What a linear read returns. */
  lemma LinearLoadMeaning(pm: PageMap, m: Memory, address: nat, count: nat)
    requires ValidMap(pm)
    ensures pm == Unpaged ==> forall i :: 0 <= i < count ==>
      LinearLoad(pm, m, address, count)[i] == m((address + i) % 0x10_0000)
    ensures pm.Banked? ==> forall i :: 0 <= i < count ==> var a := address + i;
      LinearLoad(pm, m, address, count)[i] == m(pm.pages[a % 0x10_0000 / 0x4000] as int % 0x400 * 0x4000 + a % 0x4000)
  {
    hide Physical;
    var s := LinearLoad(pm, m, address, count);
    forall i | 0 <= i < count
      ensures pm == Unpaged ==> s[i] == m((address + i) % 0x10_0000)
      ensures pm.Banked? ==> var a := address + i;
        s[i] == m(pm.pages[a % 0x10_0000 / 0x4000] as int % 0x400 * 0x4000 + a % 0x4000)
    {
      PhysicalMeaning(pm, address + i);
    }
  }

  /** What a segmented read returns. */
  lemma SegmentLoadMeaning(pm: PageMap, m: Memory, base: nat, offset: nat, count: nat)
    requires ValidMap(pm)
    ensures pm == Unpaged ==> forall i :: 0 <= i < count ==>
      SegmentLoad(pm, m, base, offset, count)[i] == m((base + (offset + i) % 0x1_0000) % 0x10_0000)
    ensures pm.Banked? ==> forall i :: 0 <= i < count ==> var a := base + (offset + i) % 0x1_0000;
      SegmentLoad(pm, m, base, offset, count)[i]
        == m(pm.pages[a % 0x10_0000 / 0x4000] as int % 0x400 * 0x4000 + a % 0x4000)
  {
    hide Physical;
    var s := SegmentLoad(pm, m, base, offset, count);
    forall i | 0 <= i < count
      ensures pm == Unpaged ==> s[i] == m((base + (offset + i) % 0x1_0000) % 0x10_0000)
      ensures pm.Banked? ==> var a := base + (offset + i) % 0x1_0000;
        s[i] == m(pm.pages[a % 0x10_0000 / 0x4000] as int % 0x400 * 0x4000 + a % 0x4000)
    {
      PhysicalMeaning(pm, base + (offset + i) % 0x1_0000);
    }
  }

  lemma AroundMasked(a: nat, i: nat)
    ensures Around(MIB, a % MIB, i) == Around(MIB, a, i) == (a + i) % 0x10_0000
  {
  }

  /** What a linear write leaves without paging: exactly its bytes below 1 MiB, of
    which the last 1 MiB stay. */
  lemma UnpagedStoreMeaning(m: Memory, a: nat, data: seq<byte>)
    ensures forall i :: 0 <= i < |data| && |data| - i <= 0x10_0000 ==>
      ChunkedStore(Unpaged, m, a, data)((a + i) % 0x10_0000) == data[i]
    ensures forall x: nat :: x < 0x10_0000 && (forall i :: 0 <= i < |data| ==> Around(0x10_0000, a, i) != x) ==>
      ChunkedStore(Unpaged, m, a, data)(x) == m(x)
  {
    hide ChunkedStore;
    hide RingStore;
    hide Around;
    ChunkedStoreIsRing(m, a, data);
    forall i | 0 <= i < |data| && |data| - i <= 0x10_0000
      ensures ChunkedStore(Unpaged, m, a, data)((a + i) % 0x10_0000) == data[i]
    {
      AroundMasked(a, i);
      RingStoreHits(m, MIB, a % MIB, data, i);
    }
    forall x: nat | x < 0x10_0000 && forall i :: 0 <= i < |data| ==> Around(0x10_0000, a, i) != x
      ensures ChunkedStore(Unpaged, m, a, data)(x) == m(x)
    {
      forall i | 0 <= i < |data|
        ensures Around(MIB, a % MIB, i) != x
      {
        AroundMasked(a, i);
      }
      RingStoreMisses(m, MIB, a % MIB, data, x);
    }
  }

  /** What a linear write of up to 16 KiB leaves with paging: its bytes in their windows. */
  lemma BankedStoreMeaning(pages: seq<word>, m: Memory, a: nat, data: seq<byte>)
    requires |pages| == 64 && |data| <= 0x4000
    ensures forall i :: 0 <= i < |data| ==> var x := a + i;
      ChunkedStore(Banked(pages), m, a, data)(pages[x % 0x10_0000 / 0x4000] as int % 0x400 * 0x4000 + x % 0x4000)
        == data[i]
  {
    hide ChunkedStore;
    hide Physical;
    forall i | 0 <= i < |data|
      ensures var x := a + i;
        ChunkedStore(Banked(pages), m, a, data)(pages[x % 0x10_0000 / 0x4000] as int % 0x400 * 0x4000 + x % 0x4000)
          == data[i]
    {
      PhysicalMeaning(Banked(pages), a + i);
      PlacesDiffer(a, data, i);
      ChunksLand(Banked(pages), m, a, data, i);
    }
  }

  lemma SegmentAddress(base: nat, offset: nat, i: nat)
    ensures SegmentPhysical(base, offset % 0x1_0000, i) == (base + (offset + i) % 0x1_0000) % 0x10_0000
    ensures (offset % 0x1_0000 + i) % 0x1_0000 == (offset + i) % 0x1_0000 == Around(0x1_0000, offset, i)
  {
  }

  /** What a segmented write leaves without paging: exactly its bytes below 1 MiB, of
    which the last 64 KiB stay. */
  lemma UnpagedSegmentMeaning(m: Memory, base: nat, offset: nat, data: seq<byte>)
    ensures var r := SegmentChunks(Unpaged, m, base, offset % 0x1_0000, data);
      forall i :: 0 <= i < |data| && |data| - i <= 0x1_0000 ==>
        r((base + (offset + i) % 0x1_0000) % 0x10_0000) == data[i]
    ensures forall x: nat ::
      x < 0x10_0000 && (forall i :: 0 <= i < |data| ==> (base + Around(0x1_0000, offset, i)) % 0x10_0000 != x) ==>
      SegmentChunks(Unpaged, m, base, offset % 0x1_0000, data)(x) == m(x)
  {
    hide SegmentChunks;
    hide SegmentStore;
    hide SegmentPhysical;
    hide Around;
    var o := offset % 0x1_0000;
    SegmentChunksAreBytes(m, base, o, data);
    SegmentStoreExact(m, base, o, data);
    forall i | 0 <= i < |data| && |data| - i <= 0x1_0000
      ensures SegmentChunks(Unpaged, m, base, o, data)((base + (offset + i) % 0x1_0000) % 0x10_0000) == data[i]
    {
      SegmentAddress(base, offset, i);
    }
    forall x: nat
      | x < 0x10_0000 && forall i :: 0 <= i < |data| ==> (base + Around(0x1_0000, offset, i)) % 0x10_0000 != x
      ensures SegmentChunks(Unpaged, m, base, o, data)(x) == m(x)
    {
      forall i | 0 <= i < |data|
        ensures SegmentPhysical(base, o, i) != x
      {
        SegmentAddress(base, offset, i);
        assert (base + Around(0x1_0000, offset, i)) % 0x10_0000 != x;
      }
      assert Misses(base, o, |data|, x);
    }
  }

  /** What a segmented write of up to 16 KiB leaves with paging: its bytes in their
    windows, across the end of the segment too. */
  lemma BankedSegmentMeaning(pages: seq<word>, m: Memory, base: nat, offset: nat, data: seq<byte>)
    requires |pages| == 64 && |data| <= 0x4000
    ensures forall i :: 0 <= i < |data| ==>
      var a, r := base + (offset + i) % 0x1_0000, SegmentChunks(Banked(pages), m, base, offset % 0x1_0000, data);
      r(pages[a % 0x10_0000 / 0x4000] as int % 0x400 * 0x4000 + a % 0x4000) == data[i]
  {
    hide SegmentChunks;
    hide Physical;
    var o := offset % 0x1_0000;
    forall i | 0 <= i < |data|
      ensures var a, r := base + (offset + i) % 0x1_0000, SegmentChunks(Banked(pages), m, base, o, data);
        r(pages[a % 0x10_0000 / 0x4000] as int % 0x400 * 0x4000 + a % 0x4000) == data[i]
    {
      PhysicalMeaning(Banked(pages), base + (offset + i) % 0x1_0000);
      PlacesDiffer(base + o, data, i);
      SegmentChunksLand(Banked(pages), m, base, o, data, i);
      SegmentAddress(base, offset, i);
    }
  }

  class MemoryUnit {
    var external: Memory
    var extended: bool
    const isV33: bool
    const pages: array<word>

    ghost predicate Valid()
      reads this
    {
      pages.Length == 64
    }

    ghost function Map(): PageMap
      reads this, pages
      requires Valid()
      ensures ValidMap(Map())
    {
      if isV33 && extended then Banked(pages[..]) else Unpaged
    }

    constructor (m: Memory, v33: bool)
      ensures Valid() && fresh(pages)
      ensures external == m && isV33 == v33 && !extended
    {
      external := m;
      isV33 := v33;
      extended := false;
      pages := new word[64](_ => 0);
    }

    method PageTranslate(address: nat) returns (physical: nat, length: nat)
      requires Valid()
      ensures physical == Physical(Map(), address)
      ensures length == PageRest(Map(), address)
      ensures !(isV33 && extended) ==> physical == address % 0x10_0000 && length == 0x10_0000 - physical
      ensures isV33 && extended ==>
        && physical == pages[address % 0x10_0000 / 0x4000] as int % 0x400 * 0x4000 + address % 0x4000
        && length == 0x4000 - address % 0x4000
    {
      PhysicalMeaning(Map(), address);
      if isV33 {
        if extended {
          var page := pages[address / PAGE % 64] % 0x400;
          var offset := address % PAGE;
          length := PAGE - offset;
          physical := page * PAGE + offset % PAGE;
        } else {
          var masked := address % MIB;
          length := MIB - masked;
          physical := masked;
        }
      } else {
        physical := address % MIB;
        length := MIB - 1 - physical + 1;
      }
    }

    /** The part of the next `n` bytes that is on the page of an address. */
    method NextChunk(address: nat, n: nat) returns (physical: nat, length: nat)
      requires Valid()
      ensures physical == Physical(Map(), address) && length == Min(PageRest(Map(), address), n)
    {
      physical, length := PageTranslate(address);
      if length > n || length == 0 {
        length := n;
      }
    }

    method ReadNoPaging(physical: nat, count: nat, buffer: array<byte>, at: nat)
      requires at + count <= buffer.Length
      modifies buffer
      ensures buffer[..at] == old(buffer[..at])
      ensures buffer[at..at + count] == Load(external, physical, count)
      ensures buffer[at + count..] == old(buffer[at + count..])
    {
      forall i | 0 <= i < count {
        buffer[at + i] := external(physical + i);
      }
    }

    /** One chunk of a linear read, after `done` bytes: it fetches all of the
      remaining `n` bytes, of which `length` are on the page. */
    method ReadPage(address: nat, done: nat, n: nat, buffer: array<byte>, at: nat) returns (length: nat)
      requires Valid() && at + done + n <= buffer.Length && n > 0
      requires buffer[at..at + done] == LinearLoad(Map(), external, address, done)
      modifies buffer
      ensures 0 < length <= n
      ensures buffer[..at] == old(buffer[..at])
      ensures buffer[at..at + done + length] == LinearLoad(Map(), external, address, done + length)
      ensures buffer[at + done + n..] == old(buffer[at + done + n..])
    {
      hide Physical;
      hide PageRest;
      hide LinearLoad;
      hide Load;
      ghost var pm, m, b := Map(), external, at + done;
      ghost var before, was := buffer[at..b], buffer[..];
      var physical;
      physical, length := NextChunk(address + done, n);
      ReadNoPaging(physical, n, buffer, at + done);
      ghost var after := before + buffer[b..b + n];
      ReadExtends(pm, m, address, done, length, n, before, after);
      assert buffer[..][..b] == was[..b];
      PartReplaced(was, buffer[..], at, b, n, length);
    }

    /** Reads `count` bytes at a linear address into `buffer[at..]`. */
    method MemoryRead(address: nat, count: nat, buffer: array<byte>, at: nat)
      requires Valid() && at + count <= buffer.Length
      modifies buffer
      ensures buffer[..at] == old(buffer[..at])
      ensures buffer[at..at + count] == LinearLoad(Map(), external, address, count)
      ensures buffer[at + count..] == old(buffer[at + count..])
      ensures !(isV33 && extended) ==> forall j :: at <= j < at + count ==>
        buffer[j] == external((address + (j - at)) % 0x10_0000)
      ensures isV33 && extended ==> forall j :: at <= j < at + count ==> var a := address + (j - at);
        buffer[j] == external(pages[a % 0x10_0000 / 0x4000] as int % 0x400 * 0x4000 + a % 0x4000)
    {
      hide LinearLoad;
      var done, n := 0, count;
      while n > 0
        invariant 0 <= n && done + n == count
        invariant buffer[..at] == old(buffer[..at])
        invariant buffer[at..at + done] == LinearLoad(Map(), external, address, done)
        invariant buffer[at + count..] == old(buffer[at + count..])
      {
        var length := ReadPage(address, done, n, buffer, at);
        done, n := done + length, n - length;
      }
      LinearLoadMeaning(Map(), external, address, count);
      assert forall j :: at <= j < at + count ==> buffer[j] == buffer[at..at + count][j - at];
    }

    /** Writes `data` at a linear address. */
    method MemoryWrite(address: nat, data: seq<byte>)
      requires Valid()
      modifies this`external
      ensures external == ChunkedStore(Map(), old(external), address, data)
      ensures !(isV33 && extended) ==> forall i :: 0 <= i < |data| && |data| - i <= 0x10_0000 ==>
        external((address + i) % 0x10_0000) == data[i]
      ensures !(isV33 && extended) ==> forall x: nat ::
        x < 0x10_0000 && (forall i :: 0 <= i < |data| ==> Around(0x10_0000, address, i) != x) ==>
        external(x) == old(external)(x)
      ensures isV33 && extended && |data| <= 0x4000 ==> forall i :: 0 <= i < |data| ==> var a := address + i;
        external(pages[a % 0x10_0000 / 0x4000] as int % 0x400 * 0x4000 + a % 0x4000) == data[i]
    {
      hide Physical;
      hide PageRest;
      hide Store;
      var a, rest := address, data;
      while |rest| > 0
        invariant 0 <= a
        invariant ChunkedStore(Map(), external, a, rest) == ChunkedStore(Map(), old(external), address, data)
      {
        var physical, length := NextChunk(a, |rest|);
        external := Store(external, physical, rest);
        a, rest := a + length, rest[length..];
      }
      hide ChunkedStore;
      if !(isV33 && extended) {
        UnpagedStoreMeaning(old(external), address, data);
      } else if |data| <= 0x4000 {
        BankedStoreMeaning(pages[..], old(external), address, data);
      }
    }

    /** One chunk of a segmented read, after `done` bytes. */
    method ReadChunk(base: nat, offset: nat, done: nat, n: nat, buffer: array<byte>)
      requires Valid() && done + n <= buffer.Length && (offset + done) % 0x1_0000 + n <= 0x1_0000
      requires buffer[..done] == SegmentLoad(Map(), external, base, offset, done)
      modifies buffer
      ensures buffer[..done + n] == SegmentLoad(Map(), external, base, offset, done + n)
      ensures (offset + (done + n)) % 0x1_0000 == ((offset + done) % 0x1_0000 + n) % 0x1_0000
    {
      hide LinearLoad;
      hide SegmentLoad;
      MemoryRead(base + (offset + done) % 0x1_0000, n, buffer, done);
      SegmentLoadExtends(Map(), external, base, offset, done, n);
      assert buffer[..done + n] == buffer[..done] + buffer[done..done + n];
    }

    /** Reads `count` bytes from a segment, wrapping at 64 KiB. */
    method SegmentedRead(base: nat, offset: nat, count: nat) returns (buffer: array<byte>)
      requires Valid()
      ensures fresh(buffer) && buffer[..] == SegmentLoad(Map(), external, base, offset, count)
      ensures buffer.Length == count
      ensures !(isV33 && extended) ==> forall i :: 0 <= i < count ==>
        buffer[i] == external((base + (offset + i) % 0x1_0000) % 0x10_0000)
      ensures isV33 && extended ==> forall i :: 0 <= i < count ==> var a := base + (offset + i) % 0x1_0000;
        buffer[i] == external(pages[a % 0x10_0000 / 0x4000] as int % 0x400 * 0x4000 + a % 0x4000)
    {
      hide LinearLoad;
      hide SegmentLoad;
      hide Physical;
      buffer := new byte[count](_ => 0);
      ghost var pm, m := Map(), external;
      var o := offset % 0x1_0000;
      if o + count > 0x1_0000 {
        var b, n := 0, count;
        while n > 0
          invariant 0 <= b && b + n == count
          invariant o == (offset + b) % 0x1_0000
          invariant buffer[..b] == SegmentLoad(pm, m, base, offset, b)
        {
          var length := Min(n, 0x1_0000 - o % 0x1_0000);
          ReadChunk(base, offset, b, length, buffer);
          o := (o + length) % 0x1_0000;
          b, n := b + length, n - length;
        }
        assert buffer[..] == buffer[..count];
      } else {
        ReadChunk(base, offset, 0, count, buffer);
        assert buffer[..] == buffer[..count];
      }
      SegmentLoadMeaning(pm, m, base, offset, count);
      assert forall i :: 0 <= i < count ==> buffer[i] == buffer[..][i];
    }

    /** Writes `data` to a segment, wrapping at 64 KiB. */
    method SegmentedWrite(base: nat, offset: nat, data: seq<byte>)
      requires Valid()
      modifies this`external
      ensures external == SegmentChunks(Map(), old(external), base, offset % 0x1_0000, data)
      ensures Map() == Unpaged ==>
        AgreeBelow(external, SegmentStore(old(external), base, offset % 0x1_0000, data), MIB)
      ensures !(isV33 && extended) ==> forall i :: 0 <= i < |data| && |data| - i <= 0x1_0000 ==>
        external((base + (offset + i) % 0x1_0000) % 0x10_0000) == data[i]
      ensures !(isV33 && extended) ==> forall x: nat ::
        x < 0x10_0000 && (forall i :: 0 <= i < |data| ==> (base + Around(0x1_0000, offset, i)) % 0x10_0000 != x) ==>
        external(x) == old(external)(x)
      ensures isV33 && extended && |data| <= 0x4000 ==>
        forall i :: 0 <= i < |data| ==> var a := base + (offset + i) % 0x1_0000;
          external(pages[a % 0x10_0000 / 0x4000] as int % 0x400 * 0x4000 + a % 0x4000) == data[i]
    {
      hide Physical;
      hide SegmentStore;
      hide SegmentChunks;
      hide ChunkedStore;
      hide AgreeBelow;
      var o := offset % 0x1_0000;
      if Map() == Unpaged {
        SegmentChunksAreBytes(external, base, o, data);
      }
      if o + |data| > 0x1_0000 {
        var rest := data;
        while |rest| > 0
          invariant 0 <= o < 0x1_0000
          invariant SegmentChunks(Map(), external, base, o, rest)
            == SegmentChunks(Map(), old(external), base, offset % 0x1_0000, data)
        {
          var length := Min(|rest|, 0x1_0000 - o % 0x1_0000);
          FirstChunk(Map(), external, base, o, rest);
          MemoryWrite(base + o, rest[..length]);
          o := (o + length) % 0x1_0000;
          rest := rest[length..];
        }
        FirstChunk(Map(), external, base, o, rest);
      } else {
        SingleChunk(Map(), external, base, o, data);
        MemoryWrite(base + o, data);
      }
      if !(isV33 && extended) {
        UnpagedSegmentMeaning(old(external), base, offset, data);
      } else if |data| <= 0x4000 {
        BankedSegmentMeaning(pages[..], old(external), base, offset, data);
      }
    }
  }
}
