/** The stack image of a new process (src/x86emu.c): argument count, pointers to
  the arguments and to the environment, and the strings themselves. The builder
  is a printer; the reader here is what a started program does. */
module InitialStack {
  import opened Arithmetic
  import opened ByteMemory

  datatype CodeSize = Code8 | Code16 | Code32 | Code64 {
    /** The bytes of a stack slot. */
    function Slot(): (w: nat)
      ensures w == 2 || w == 4 || w == 8
    {
      match this case Code8 => 2 case Code16 => 2 case Code32 => 4 case Code64 => 8
    }

    /** The number of stack addresses. */
    function Space(): (n: nat) {
      match this
      case Code8 => 0x1_0000
      case Code16 => 0x1_0000
      case Code32 => 0x1_0000_0000
      case Code64 => TWO64
    }

    /** An address truncated to the address space. */
    function Mask(x: int): (r: nat)
      ensures r < Space()
    {
      match this
      case Code8 => x % 0x1_0000
      case Code16 => x % 0x1_0000
      case Code32 => x % 0x1_0000_0000
      case Code64 => x % TWO64
    }

    /** The bytes of an array of `n` slots. */
    function Extent(n: nat): nat {
      if n == 0 then 0 else Extent(n - 1) + Slot()
    }

    function Alignment(): nat {
      match this case Code8 => 2 case Code16 => 2 case Code32 => 4 case Code64 => 16
    }

    function AlignDown(x: nat): (r: nat)
      ensures r <= x
    {
      match this
      case Code8 => x / 2 * 2
      case Code16 => x / 2 * 2
      case Code32 => x / 4 * 4
      case Code64 => x / 16 * 16
    }

    /** Slots other than those of the strings themselves. */
    function FixedSlots(): nat { if this == Code8 then 4 else 3 }
  }

  const TWO64 := 0x1_0000_0000_0000_0000

  /** A string without its terminator. */
  type Text = s: seq<byte> | forall i :: 0 <= i < |s| ==> s[i] != 0 witness []

  // Numbers as bytes, lowest first.

  function Digits(v: nat, n: nat): (s: seq<byte>)
    ensures |s| == n
  {
    if n == 0 then [] else [v % 0x100] + Digits(v / 0x100, n - 1)
  }

  function BytesValue(s: seq<byte>): nat {
    if |s| == 0 then 0 else s[0] as int + 0x100 * BytesValue(s[1..])
  }

  function Pow256(n: nat): (p: nat)
    ensures p > 0
  {
    if n == 0 then 1 else 0x100 * Pow256(n - 1)
  }

  lemma {:induction false} DigitsValue(v: nat, n: nat)
    requires v < Pow256(n)
    ensures BytesValue(Digits(v, n)) == v
  {
    if n == 0 {
    } else {
      DigitsValue(v / 0x100, n - 1);
      assert Digits(v, n)[1..] == Digits(v / 0x100, n - 1);
    }
  }

  lemma SpaceIsPow(size: CodeSize)
    ensures size.Space() == Pow256(size.Slot())
  {
    assert Pow256(2) == 0x1_0000;
    assert Pow256(4) == 0x1_0000_0000;
    assert Pow256(8) == Pow256(4) * 0x1_0000_0000 by {
      assert Pow256(5) == 0x100_0000_0000;
      assert Pow256(6) == 0x1_0000_0000_0000;
      assert Pow256(7) == 0x100_0000_0000_0000;
    }
  }

  // Regions of memory.

  /** Memory holds the bytes `s` at `a`. */
  ghost predicate Has(m: Memory, a: nat, s: seq<byte>) {
    Load(m, a, |s|) == s
  }

  lemma HasAt(m: Memory, a: nat, s: seq<byte>, i: nat)
    requires Has(m, a, s) && i < |s|
    ensures m(a + i) == s[i]
  {
    assert Load(m, a, |s|)[i] == m(a + i);
  }

  lemma HasIsLoad(m: Memory, a: nat, s: seq<byte>)
    requires Has(m, a, s)
    ensures Load(m, a, |s|) == s
  {
  }

  lemma StoreExtends(m: Memory, a: nat, s: seq<byte>, t: seq<byte>)
    requires Has(m, a, s)
    ensures Has(Store(m, a + |s|, t), a, s + t)
  {
    forall i | 0 <= i < |s|
      ensures Store(m, a + |s|, t)(a + i) == s[i]
    {
      HasAt(m, a, s, i);
    }
  }

  lemma StoreElsewhere(m: Memory, a: nat, s: seq<byte>, b: nat, t: seq<byte>)
    requires Has(m, a, s) && (a + |s| <= b || b + |t| <= a)
    ensures Has(Store(m, b, t), a, s)
  {
    forall i | 0 <= i < |s|
      ensures Store(m, b, t)(a + i) == s[i]
    {
      HasAt(m, a, s, i);
    }
  }

  lemma HasPart(m: Memory, a: nat, s: seq<byte>, i: nat, t: seq<byte>)
    requires Has(m, a, s) && i + |t| <= |s| && s[i..i + |t|] == t
    ensures Has(m, a + i, t)
  {
    forall k | 0 <= k < |t|
      ensures m(a + i + k) == t[k]
    {
      HasAt(m, a, s, i + k);
      assert s[i..i + |t|][k] == s[i + k];
    }
  }

  // The image.

  /** The strings one after the other, each with its terminator. */
  function Blob(texts: seq<Text>): seq<byte> {
    if |texts| == 0 then [] else Blob(texts[..|texts| - 1]) + texts[|texts| - 1] + [0]
  }

  lemma BlobNext(texts: seq<Text>, i: nat)
    requires i < |texts|
    ensures Blob(texts[..i + 1]) == Blob(texts[..i]) + (texts[i] + [0])
  {
    var after := texts[..i + 1];
    assert after[..|after| - 1] == texts[..i] && after[|after| - 1] == texts[i];
  }

  /** The pointers to strings that lie one after the other from `p`. */
  function Pointers(size: CodeSize, p: nat, texts: seq<Text>): seq<byte> {
    if |texts| == 0 then []
    else
      var before := texts[..|texts| - 1];
      Pointers(size, p, before) + Digits(p + |Blob(before)|, size.Slot())
  }

  lemma {:induction false} PointersLength(size: CodeSize, p: nat, texts: seq<Text>)
    ensures |Pointers(size, p, texts)| == size.Extent(|texts|)
  {
    if |texts| == 0 {
    } else {
      PointersLength(size, p, texts[..|texts| - 1]);
    }
  }

  /** The pointer to string `k` is entry `k` of the array. */
  lemma {:induction false} PointerAt(size: CodeSize, p: nat, texts: seq<Text>, k: nat)
    requires k < |texts|
    ensures size.Extent(k) + size.Slot() <= |Pointers(size, p, texts)|
    ensures Pointers(size, p, texts)[size.Extent(k)..size.Extent(k) + size.Slot()]
      == Digits(p + |Blob(texts[..k])|, size.Slot())
  {
    hide Digits;
    hide Blob;
    hide Pointers;
    hide CodeSize.Extent;
    var before := texts[..|texts| - 1];
    PointersLength(size, p, before);
    PointersNext(size, p, texts);
    if k < |before| {
      PointerAt(size, p, before, k);
      assert before[..k] == texts[..k];
      InPrefix(Pointers(size, p, before), Digits(p + |Blob(before)|, size.Slot()), size.Extent(k), size.Slot());
    } else {
      assert before == texts[..k];
      AtSuffix(Pointers(size, p, before), Digits(p + |Blob(before)|, size.Slot()));
    }
  }

  lemma AtSuffix(s: seq<byte>, t: seq<byte>)
    ensures (s + t)[|s|..|s| + |t|] == t
  {
  }

  lemma PointersNext(size: CodeSize, p: nat, texts: seq<Text>)
    requires |texts| > 0
    ensures var before := texts[..|texts| - 1];
      Pointers(size, p, texts) == Pointers(size, p, before) + Digits(p + |Blob(before)|, size.Slot())
  {
  }

  lemma InPrefix(s: seq<byte>, t: seq<byte>, i: nat, n: nat)
    requires i + n <= |s|
    ensures (s + t)[i..i + n] == s[i..i + n]
  {
  }

  /** String `k` and its terminator inside the strings. */
  lemma {:induction false} BlobAt(texts: seq<Text>, k: nat)
    requires k < |texts|
    ensures |Blob(texts[..k])| + |texts[k]| + 1 <= |Blob(texts)|
    ensures Blob(texts)[|Blob(texts[..k])|..|Blob(texts[..k])| + |texts[k]| + 1] == texts[k] + [0]
  {
    var before := texts[..|texts| - 1];
    var at, n := |Blob(texts[..k])|, |texts[k]| + 1;
    if k < |before| {
      BlobAt(before, k);
      assert before[..k] == texts[..k];
      assert Blob(texts)[at..at + n] == Blob(before)[at..at + n];
    } else {
      assert before == texts[..k];
      assert Blob(texts) == Blob(before) + (texts[k] + [0]);
    }
  }

  /** The bytes of all strings. */
  function Content(texts: seq<Text>): nat {
    if |texts| == 0 then 0 else Content(texts[..|texts| - 1]) + |texts[|texts| - 1]| + 1
  }

  lemma {:induction false} ContentIsBlob(texts: seq<Text>)
    ensures Content(texts) == |Blob(texts)|
  {
    if |texts| == 0 {
    } else {
      ContentIsBlob(texts[..|texts| - 1]);
    }
  }

  /** Where the parts of the image are, relative to the stack segment. */
  datatype Plan = Plan(sp: nat, argc: nat, argv: nat, envp: nat, strings: nat)

  /** The image ends at the stack top; a top of 0 is the end of the address space. */
  function Top(size: CodeSize, stack: nat): (top: nat)
    ensures 0 < top <= size.Space()
  {
    if size.Mask(stack) == 0 then size.Space() else size.Mask(stack)
  }

  function Slots(size: CodeSize, argv: seq<Text>, envp: seq<Text>): nat {
    size.Extent(size.FixedSlots() + |argv| + |envp|)
  }

  predicate Fits(size: CodeSize, stack: nat, argv: seq<Text>, envp: seq<Text>) {
    Content(argv) + Content(envp) + Slots(size, argv, envp) <= Top(size, stack)
  }

  function PlanOf(size: CodeSize, stack: nat, argv: seq<Text>, envp: seq<Text>): Plan
    requires Fits(size, stack, argv, envp)
  {
    var strings := Top(size, stack) - Content(argv) - Content(envp);
    var sp := size.AlignDown(strings - Slots(size, argv, envp));
    if size == Code8 then
      Plan(sp, sp + 2, sp + 4 + |envp| * 2 + 2, sp + 4, strings)
    else
      Plan(sp, sp, sp + size.Slot(), sp + size.Slot() + size.Extent(|argv|) + size.Slot(), strings)
  }

  /** Memory holds an array of pointers to strings, and the strings. */
  ghost predicate HasList(m: Memory, start: nat, size: CodeSize, list: nat, p: nat, texts: seq<Text>) {
    Has(m, start + list, Pointers(size, p, texts)) && Has(m, start + p, Blob(texts))
  }

  /** The two memories agree outside of `n` bytes from `a` and `k` bytes from `b`. */
  ghost predicate Kept(m: Memory, m': Memory, a: nat, n: nat, b: nat, k: nat) {
    forall x: nat :: !(a <= x < a + n) && !(b <= x < b + k) ==> m'(x) == m(x)
  }

  lemma KeptHas(m: Memory, m': Memory, a: nat, n: nat, b: nat, k: nat, c: nat, s: seq<byte>)
    requires Kept(m, m', a, n, b, k) && Has(m, c, s)
    requires (c + |s| <= a || a + n <= c) && (c + |s| <= b || b + k <= c)
    ensures Has(m', c, s)
  {
    forall i | 0 <= i < |s|
      ensures m'(c + i) == s[i]
    {
      HasAt(m, c, s, i);
    }
  }

  lemma StoreIsKept(m: Memory, a: nat, s: seq<byte>)
    ensures Kept(m, Store(m, a, s), a, |s|, 0, 0) && Has(Store(m, a, s), a, s)
  {
  }

  /** Memory is the same but for the addresses from `lo` up to `hi`. */
  ghost predicate KeptOutside(m: Memory, m': Memory, lo: nat, hi: nat) {
    forall x: nat :: x < lo || hi <= x ==> m'(x) == m(x)
  }

  lemma KeptInside(m: Memory, m': Memory, a: nat, n: nat, b: nat, k: nat, lo: nat, hi: nat)
    requires Kept(m, m', a, n, b, k) && lo <= a && a + n <= hi && (k == 0 || (lo <= b && b + k <= hi))
    ensures KeptOutside(m, m', lo, hi)
  {
  }

  lemma KeptOutsideTwice(m: Memory, m1: Memory, m2: Memory, m3: Memory, lo: nat, hi: nat)
    requires KeptOutside(m, m1, lo, hi) && KeptOutside(m1, m2, lo, hi) && KeptOutside(m2, m3, lo, hi)
    ensures KeptOutside(m, m3, lo, hi)
  {
  }

  lemma KeptEmpty(m: Memory, m': Memory, a: nat, n: nat, b: nat)
    requires Kept(m, m', a, n, 0, 0)
    ensures Kept(m, m', a, n, b, 0)
  {
  }

  lemma ListStart(m: Memory, start: nat, size: CodeSize, list: nat, p: nat, texts: seq<Text>)
    ensures texts[..0] == [] && size.Extent(0) == 0 && |Blob(texts[..0])| == 0
    ensures HasList(m, start, size, list, p, texts[..0])
    ensures Kept(m, m, start + list, 0, start + p, 0)
  {
  }

  lemma LoadHas(m: Memory, a: nat, n: nat)
    ensures Has(m, a, Load(m, a, n))
  {
  }

  /** Two successive writes, to growing regions. */
  lemma KeptGrows(m: Memory, m1: Memory, m2: Memory, a: nat, n: nat, n': nat, b: nat, k: nat, k': nat)
    requires Kept(m, m1, a, n, b, k) && Kept(m1, m2, a + n, n', b + k, k')
    ensures Kept(m, m2, a, n + n', b, k + k')
  {
  }

  lemma MaskSmall(size: CodeSize, x: nat)
    requires x < size.Space()
    ensures size.Mask(x) == x
  {
  }

  lemma Masked(size: CodeSize, offset: nat, p: nat, j: nat)
    requires size.Mask(offset) == size.Mask(p) && p + j < size.Space()
    ensures size.Mask(offset + j) == p + j
  {
    MaskSub(size, offset, p, 0 - j as int);
    MaskSmall(size, p + j);
  }

  lemma MaskedAdd(size: CodeSize, offset: nat, p: nat, j: nat)
    requires size.Mask(offset) == size.Mask(p)
    ensures size.Mask((offset + j) % TWO64) == size.Mask(p + j)
  {
    MaskMod(size, offset + j);
    MaskSub(size, offset, p, 0 - j as int);
  }

  lemma ExtentStart(size: CodeSize)
    ensures size.Extent(0) == 0
  {
  }

  lemma ExtentNext(size: CodeSize, n: nat)
    ensures size.Extent(n + 1) == size.Extent(n) + size.Slot()
  {
  }

  lemma {:induction false} ExtentIsProduct(size: CodeSize, n: nat)
    ensures size.Extent(n) == n * size.Slot()
  {
    if n == 0 {
    } else {
      ExtentIsProduct(size, n - 1);
      assert n * size.Slot() == (n - 1) * size.Slot() + size.Slot();
    }
  }

  lemma {:induction false} ExtentSum(size: CodeSize, n: nat, n': nat)
    ensures size.Extent(n + n') == size.Extent(n) + size.Extent(n')
  {
    if n' == 0 {
    } else {
      ExtentSum(size, n, n' - 1);
    }
  }

  /** The write of the 8-bit argument array pointer, at `sp` without the segment base. */
  lemma UziSlot(m: Memory, m': Memory, start: nat, sp: nat, s: seq<byte>, a: nat)
    requires m' == Store(m, sp, s) && |s| == 2 && start + sp + 2 <= a
    ensures Load(m', a, 2) == Load(m, a, 2)
    ensures start == 0 ==> Load(m', start + sp, 2) == s
    ensures start >= 2 ==> Load(m', start + sp, 2) == Load(m, start + sp, 2)
  {
  }

  /** The parts of the image do not overlap: `w` is the size of a slot, `a` and
    `e` are the bytes of the pointers and `ca` those of the arguments. */
  ghost predicate Ordered(plan: Plan, w: nat, a: nat, e: nat, ca: nat) {
    || (plan.argc + w == plan.argv && plan.argv + a + w == plan.envp && plan.envp + e + w <= plan.strings)
    || (plan.argc + w == plan.envp && plan.envp + e + w == plan.argv && plan.argv + a + w <= plan.strings)
  }

  /** The three steps of the builder keep what the steps before have written. */
  lemma ImageKept(m0: Memory, m1: Memory, m2: Memory, m3: Memory, start: nat, plan: Plan, w: nat, a: nat, e: nat,
                  ce: nat,
                  count: seq<byte>, pointers: seq<byte>, texts: seq<byte>, below: nat)
    requires Ordered(plan, w, a, e, |texts|) && |count| == w && |pointers| == a && below <= plan.argc
    requires m1 == Store(m0, start + plan.argc, count)
    requires Kept(m1, m2, start + plan.argv, a, start + plan.strings, |texts|)
    requires Has(m2, start + plan.argv, pointers) && Has(m2, start + plan.strings, texts)
    requires Kept(m2, m3, start + plan.envp, e + w, start + plan.strings + |texts|, ce)
    ensures Has(m3, start + plan.argc, count) && Has(m3, start + plan.argv, pointers)
    ensures Has(m3, start + plan.strings, texts)
    ensures Has(m3, start + plan.argv + a, Load(m0, start + plan.argv + a, w))
    ensures Has(m3, start + plan.argc - below, Load(m0, start + plan.argc - below, below))
  {
    hide Has;
    hide Kept;
    hide Load;
    hide Store;
    StoreIsKept(m0, start + plan.argc, count);
    LoadHas(m0, start + plan.argv + a, w);
    LoadHas(m0, start + plan.argc - below, below);
    KeptThrough(m0, m1, m2, m3, start, plan, w, a, e, ce, |texts|, start + plan.argv + a,
      Load(m0, start + plan.argv + a, w));
    KeptThrough(m0, m1, m2, m3, start, plan, w, a, e, ce, |texts|, start + plan.argc - below,
      Load(m0, start + plan.argc - below, below));
    var list, at := start + plan.envp, start + plan.strings + |texts|;
    KeptHas(m1, m2, start + plan.argv, a, start + plan.strings, |texts|, start + plan.argc, count);
    KeptHas(m2, m3, list, e + w, at, ce, start + plan.argc, count);
    KeptHas(m2, m3, list, e + w, at, ce, start + plan.argv, pointers);
    KeptHas(m2, m3, list, e + w, at, ce, start + plan.strings, texts);
  }

  lemma KeptThrough(m0: Memory, m1: Memory, m2: Memory, m3: Memory, start: nat, plan: Plan, w: nat, a: nat, e: nat,
                    ce: nat,
                    ca: nat, c: nat, s: seq<byte>)
    requires Ordered(plan, w, a, e, ca) && Has(m0, c, s)
    requires c + |s| <= start + plan.argc || (c == start + plan.argv + a && |s| == w)
    requires Kept(m0, m1, start + plan.argc, w, 0, 0)
    requires Kept(m1, m2, start + plan.argv, a, start + plan.strings, ca)
    requires Kept(m2, m3, start + plan.envp, e + w, start + plan.strings + ca, ce)
    ensures Has(m3, c, s)
  {
    hide Has;
    hide Kept;
    KeptHas(m0, m1, start + plan.argc, w, 0, 0, c, s);
    KeptHas(m1, m2, start + plan.argv, a, start + plan.strings, ca, c, s);
    KeptHas(m2, m3, start + plan.envp, e + w, start + plan.strings + ca, ce, c, s);
  }

  /** The image in memory: the count, the two pointer arrays and the strings. */
  ghost predicate HasImage(m: Memory, start: nat, size: CodeSize, plan: Plan, argv: seq<Text>, envp: seq<Text>) {
    && Has(m, start + plan.argc, Digits(|argv|, size.Slot()))
    && HasList(m, start, size, plan.argv, plan.strings, argv)
    && HasList(m, start, size, plan.envp, plan.strings + |Blob(argv)|, envp)
    && Has(m, start + plan.envp + size.Extent(|envp|), Digits(0, size.Slot()))
  }

  /** A list that fits the address space has a count that fits a slot. */
  lemma {:induction false} CountFits(size: CodeSize, n: nat)
    requires size.Extent(n) <= size.Space()
    ensures size.Mask(n) == n
  {
    ExtentIsProduct(size, n);
    assert 2 * n <= n * size.Slot();
  }

  /** Wrapping at 64 bits does not matter in the address space. */
  lemma MaskMod(size: CodeSize, x: int)
    ensures size.Mask(x % TWO64) == size.Mask(x)
  {
    var q := x / TWO64;
    assert x == x % TWO64 + TWO64 * q;
    match size {
      case Code8 => AddMultiple(x % TWO64, 0x1_0000_0000_0000 * q, 0x1_0000);
      case Code16 => AddMultiple(x % TWO64, 0x1_0000_0000_0000 * q, 0x1_0000);
      case Code32 => AddMultiple(x % TWO64, 0x1_0000_0000 * q, 0x1_0000_0000);
      case Code64 =>
    }
  }

  lemma SameResidue(a: int, b: int, c: int, n: int)
    requires n > 0 && a % n == b % n
    ensures (a - c) % n == (b - c) % n
  {
    var q := a / n - b / n;
    assert a - b == n * q;
    AddMultiple(b - c, q, n);
  }

  lemma AddMultiple(x: int, q: int, n: int)
    requires n > 0
    ensures (x + n * q) % n == x % n
  {
    var d := (x + n * q) / n - x / n - q;
    assert n * d == x % n - (x + n * q) % n;
    MultipleBound(n, d);
  }

  lemma MaskSub(size: CodeSize, a: int, b: int, c: int)
    requires size.Mask(a) == size.Mask(b)
    ensures size.Mask(a - c) == size.Mask(b - c)
  {
    match size {
      case Code8 => SameResidue(a, b, c, 0x1_0000);
      case Code16 => SameResidue(a, b, c, 0x1_0000);
      case Code32 => SameResidue(a, b, c, 0x1_0000_0000);
      case Code64 => SameResidue(a, b, c, TWO64);
    }
  }

  lemma TopMasks(size: CodeSize, stack: nat)
    ensures size.Mask(Top(size, stack)) == size.Mask(stack)
  {
    MaskSmall(size, size.Mask(stack));
  }

  /** The 64-bit arithmetic of the builder, seen in the address space. */
  lemma StackArithmetic(size: CodeSize, stack: nat, content: nat, slots: nat)
    requires content + slots <= Top(size, stack)
    ensures size.Mask((stack - content) % TWO64) == size.Mask(Top(size, stack) - content)
    ensures size.Mask(((stack - content) % TWO64 - slots) % TWO64) == size.Mask(Top(size, stack) - content - slots)
  {
    TopMasks(size, stack);
    hide CodeSize.Mask;
    hide Top;
    var top, offset := Top(size, stack), (stack - content) % TWO64;
    MaskMod(size, stack - content);
    MaskSub(size, stack, top, content);
    MaskSub(size, offset, top - content, slots);
    MaskMod(size, offset - slots);
  }

  /** The image ends at the stack top and its parts do not overlap. */
  lemma PlanFits(size: CodeSize, stack: nat, argv: seq<Text>, envp: seq<Text>)
    requires Fits(size, stack, argv, envp)
    ensures var plan := PlanOf(size, stack, argv, envp);
      && Ordered(plan, size.Slot(), size.Extent(|argv|), size.Extent(|envp|), |Blob(argv)|)
      && plan.strings + |Blob(argv)| + |Blob(envp)| == Top(size, stack)
  {
    ContentIsBlob(argv);
    ContentIsBlob(envp);
    SlotsAre(size, argv, envp);
    hide CodeSize.Extent;
    hide CodeSize.Mask;
    hide CodeSize.AlignDown;
    hide Content;
    hide Blob;
    hide Slots;
    hide Top;
    match size {
      case Code8 => ExtentIsProduct(size, |envp|);
      case Code16 =>
      case Code32 =>
      case Code64 =>
    }
  }

  lemma SlotsAre(size: CodeSize, argv: seq<Text>, envp: seq<Text>)
    ensures Slots(size, argv, envp) == size.Extent(|argv|) + size.Extent(|envp|)
      + match size case Code8 => 8 case Code16 => 6 case Code32 => 12 case Code64 => 24
  {
    ExtentSum(size, size.FixedSlots(), |argv| + |envp|);
    ExtentSum(size, |argv|, |envp|);
    ExtentIsProduct(size, size.FixedSlots());
  }

  /** The stack pointer of the new process is aligned. */
  lemma PlanAligned(size: CodeSize, stack: nat, argv: seq<Text>, envp: seq<Text>)
    requires Fits(size, stack, argv, envp)
    ensures PlanOf(size, stack, argv, envp).sp % size.Alignment() == 0
  {
    Aligned(size, Top(size, stack) - Content(argv) - Content(envp) - Slots(size, argv, envp));
  }

  lemma Aligned(size: CodeSize, x: nat)
    ensures size.AlignDown(x) % size.Alignment() == 0
  {
    match size {
      case Code8 => AddMultiple(0, x / 2, 2);
      case Code16 => AddMultiple(0, x / 2, 2);
      case Code32 => AddMultiple(0, x / 4, 4);
      case Code64 => AddMultiple(0, x / 16, 16);
    }
  }

  lemma {:induction false} BlobGrows(texts: seq<Text>, i: nat)
    requires i <= |texts|
    ensures |Blob(texts[..i])| <= |Blob(texts)|
    decreases |texts| - i
  {
    if i < |texts| {
      assert texts[..i + 1][..i] == texts[..i];
      BlobGrows(texts, i + 1);
    } else {
      assert texts[..i] == texts;
    }
  }

  lemma {:induction false} ExtentGrows(size: CodeSize, i: nat, n: nat)
    requires i <= n
    ensures size.Extent(i) <= size.Extent(n)
    decreases n - i
  {
    if i == n {
    } else {
      ExtentGrows(size, i + 1, n);
    }
  }

  lemma HasConcat(m: Memory, a: nat, s: seq<byte>, t: seq<byte>)
    requires Has(m, a, s) && Has(m, a + |s|, t)
    ensures Has(m, a, s + t)
  {
    forall i | 0 <= i < |s| + |t|
      ensures m(a + i) == (s + t)[i]
    {
      if i < |s| {
        HasAt(m, a, s, i);
      } else {
        HasAt(m, a + |s|, t, i - |s|);
        assert a + |s| + (i - |s|) == a + i;
      }
    }
  }

  // The reader.

  /** The string at an address, up to its terminator. */
  function ReadString(m: Memory, a: nat, limit: nat): seq<byte>
    decreases limit
  {
    if limit == 0 || m(a) == 0 then [] else [m(a)] + ReadString(m, a + 1, limit - 1)
  }

  /** The number in a slot. */
  function ReadSlot(m: Memory, start: nat, size: CodeSize, a: nat): nat {
    BytesValue(Load(m, start + a, size.Slot()))
  }

  /** The strings named by an array of `n` pointers. */
  function ReadCounted(m: Memory, start: nat, size: CodeSize, list: nat, n: nat): seq<seq<byte>>
    decreases n
  {
    if n == 0 then []
    else
      [ReadString(m, start + ReadSlot(m, start, size, list), size.Space())]
      + ReadCounted(m, start, size, list + size.Slot(), n - 1)
  }

  /** The strings named by an array of pointers that a zero ends. */
  function ReadTerminated(m: Memory, start: nat, size: CodeSize, list: nat, limit: nat): seq<seq<byte>>
    decreases limit
  {
    if limit == 0 || ReadSlot(m, start, size, list) == 0 then []
    else
      [ReadString(m, start + ReadSlot(m, start, size, list), size.Space())]
      + ReadTerminated(m, start, size, list + size.Slot(), limit - 1)
  }

  /** Where a started program finds its arguments. */
  function GuestList(m: Memory, start: nat, size: CodeSize, sp: nat): nat {
    if size == Code8 then ReadSlot(m, start, size, sp) else sp + size.Slot()
  }

  function GuestCount(m: Memory, start: nat, size: CodeSize, sp: nat): nat {
    ReadSlot(m, start, size, if size == Code8 then sp + 2 else sp)
  }

  function GuestArguments(m: Memory, start: nat, size: CodeSize, sp: nat): seq<seq<byte>> {
    ReadCounted(m, start, size, GuestList(m, start, size, sp), GuestCount(m, start, size, sp))
  }

  function GuestEnvironment(m: Memory, start: nat, size: CodeSize, sp: nat): seq<seq<byte>> {
    var list := if size == Code8 then sp + 4
      else sp + size.Slot() + size.Extent(GuestCount(m, start, size, sp)) + size.Slot();
    ReadTerminated(m, start, size, list, size.Space())
  }

  lemma {:induction false} StringReadsBack(m: Memory, a: nat, text: Text, limit: nat)
    requires Has(m, a, text + [0]) && |text| < limit
    ensures ReadString(m, a, limit) == text
    decreases |text|
  {
    HasAt(m, a, text + [0], 0);
    if |text| == 0 {
    } else {
      HasPart(m, a, text + [0], 1, text[1..] + [0]);
      StringReadsBack(m, a + 1, text[1..], limit - 1);
    }
  }

  lemma SlotReadsBack(m: Memory, start: nat, size: CodeSize, a: nat, v: nat)
    requires Has(m, start + a, Digits(v, size.Slot())) && v < size.Space()
    ensures ReadSlot(m, start, size, a) == v
  {
    SpaceIsPow(size);
    DigitsValue(v, size.Slot());
  }

  /** Entry `k` of a list names string `k`. */
  lemma EntryReadsBack(m: Memory, start: nat, size: CodeSize, list: nat, p: nat, texts: seq<Text>, k: nat)
    requires HasList(m, start, size, list, p, texts) && k < |texts| && p + |Blob(texts)| <= size.Space()
    ensures ReadSlot(m, start, size, list + size.Extent(k)) == p + |Blob(texts[..k])|
    ensures ReadString(m, start + p + |Blob(texts[..k])|, size.Space()) == texts[k]
  {
    hide Has;
    hide Blob;
    hide Pointers;
    hide Digits;
    hide ReadString;
    hide ReadSlot;
    hide CodeSize.Extent;
    hide CodeSize.Space;
    var at, w := |Blob(texts[..k])|, size.Slot();
    PointerAt(size, p, texts, k);
    HasPart(m, start + list, Pointers(size, p, texts), size.Extent(k), Digits(p + at, w));
    assert start + list + size.Extent(k) == start + (list + size.Extent(k));
    BlobAt(texts, k);
    SlotReadsBack(m, start, size, list + size.Extent(k), p + at);
    HasPart(m, start + p, Blob(texts), at, texts[k] + [0]);
    StringReadsBack(m, start + p + at, texts[k], size.Space());
  }

  lemma {:induction false} CountedReadsBack(m: Memory, start: nat, size: CodeSize, list: nat, p: nat,
                                            texts: seq<Text>, k: nat)
    requires HasList(m, start, size, list, p, texts) && k <= |texts| && p + |Blob(texts)| <= size.Space()
    ensures ReadCounted(m, start, size, list + size.Extent(k), |texts| - k) == texts[k..]
    decreases |texts| - k
  {
    hide Has;
    hide HasList;
    hide Blob;
    hide Digits;
    hide ReadString;
    hide ReadSlot;
    hide CodeSize.Extent;
    hide CodeSize.Space;
    if k == |texts| {
    } else {
      EntryReadsBack(m, start, size, list, p, texts, k);
      ExtentNext(size, k);
      CountedReadsBack(m, start, size, list, p, texts, k + 1);
      assert texts[k..] == [texts[k]] + texts[k + 1..];
    }
  }

  lemma TerminatedOnce(m: Memory, start: nat, size: CodeSize, list: nat, limit: nat)
    requires limit > 0
    ensures var slot := ReadSlot(m, start, size, list);
      ReadTerminated(m, start, size, list, limit) ==
        if slot == 0 then []
        else
          [ReadString(m, start + slot, size.Space())] + ReadTerminated(m, start, size, list + size.Slot(), limit - 1)
  {
  }

  /** Following an array of pointers up to a zero yields the list if and only if the
    slot after the last pointer is zero; otherwise the reader goes on. */
  lemma {:induction false} TerminatedReadsBack(m: Memory, start: nat, size: CodeSize, list: nat, p: nat,
                                               texts: seq<Text>,
                                               k: nat, limit: nat)
    requires HasList(m, start, size, list, p, texts) && k <= |texts| && 0 < p && p + |Blob(texts)| <= size.Space()
    requires |texts| - k < limit
    ensures ReadTerminated(m, start, size, list + size.Extent(k), limit) == texts[k..]
      <==> ReadSlot(m, start, size, list + size.Extent(|texts|)) == 0
    decreases |texts| - k
  {
    hide Has;
    hide HasList;
    hide Blob;
    hide Digits;
    hide ReadString;
    hide ReadSlot;
    hide CodeSize.Extent;
    hide CodeSize.Space;
    hide ReadTerminated;
    TerminatedOnce(m, start, size, list + size.Extent(k), limit);
    if k == |texts| {
    } else {
      EntryReadsBack(m, start, size, list, p, texts, k);
      ExtentNext(size, k);
      TerminatedReadsBack(m, start, size, list, p, texts, k + 1, limit - 1);
      assert texts[k..] == [texts[k]] + texts[k + 1..];
      SameRest(texts[k], ReadTerminated(m, start, size, list + size.Extent(k + 1), limit - 1), texts[k + 1..]);
    }
  }

  lemma SameRest(text: seq<byte>, s: seq<seq<byte>>, t: seq<seq<byte>>)
    ensures [text] + s == [text] + t <==> s == t
  {
    assert ([text] + s)[1..] == s && ([text] + t)[1..] == t;
  }

  /** A program started on the image reads back its environment and, if it finds
    the argument array, exactly its arguments; following that array up to a zero
    yields them if and only if the slot after it is zero. */
  lemma ImageReadsBack(m: Memory, start: nat, size: CodeSize, stackTop: nat, argv: seq<Text>, envp: seq<Text>)
    requires Fits(size, stackTop, argv, envp)
    requires HasImage(m, start, size, PlanOf(size, stackTop, argv, envp), argv, envp)
    ensures var plan := PlanOf(size, stackTop, argv, envp);
      && GuestCount(m, start, size, plan.sp) == |argv| && GuestEnvironment(m, start, size, plan.sp) == envp
      && (size != Code8 ==> GuestList(m, start, size, plan.sp) == plan.argv)
      && (GuestList(m, start, size, plan.sp) == plan.argv ==>
        && GuestArguments(m, start, size, plan.sp) == argv
        && (ReadTerminated(m, start, size, plan.argv, size.Space()) == argv
            <==> ReadSlot(m, start, size, plan.argv + size.Extent(|argv|)) == 0))
  {
    hide Has;
    hide HasImage;
    hide Anchored;
    hide Digits;
    hide CodeSize.Extent;
    hide CodeSize.Space;
    hide ReadTerminated;
    hide ReadSlot;
    hide GuestArguments;
    hide GuestEnvironment;
    hide GuestList;
    hide GuestCount;
    PlanAnchored(size, stackTop, argv, envp);
    ArgumentsReadBack(m, start, size, PlanOf(size, stackTop, argv, envp), argv, envp);
    EnvironmentReadsBack(m, start, size, PlanOf(size, stackTop, argv, envp), argv, envp);
  }

  /** Where the parts are seen from the stack pointer, and the bounds they keep. */
  ghost predicate Anchored(size: CodeSize, plan: Plan, argv: seq<Text>, envp: seq<Text>) {
    && (if size == Code8 then plan.argc == plan.sp + 2 && plan.envp == plan.sp + 4
        else (plan.argc == plan.sp && plan.argv == plan.sp + size.Slot()
              && plan.envp == plan.sp + size.Slot() + size.Extent(|argv|) + size.Slot()))
    && 0 < plan.strings && plan.strings + |Blob(argv)| + |Blob(envp)| <= size.Space()
    && plan.argv < size.Space() && |argv| < size.Space() && |envp| < size.Space()
  }

  lemma PlanAnchored(size: CodeSize, stackTop: nat, argv: seq<Text>, envp: seq<Text>)
    requires Fits(size, stackTop, argv, envp)
    ensures Anchored(size, PlanOf(size, stackTop, argv, envp), argv, envp)
  {
    PlanFits(size, stackTop, argv, envp);
    SlotsAre(size, argv, envp);
    ListsBounded(size, argv, envp);
    ExtentIsProduct(size, |envp|);
    hide Blob;
    hide CodeSize.Extent;
    hide CodeSize.AlignDown;
    hide CodeSize.Mask;
    hide Content;
    hide Slots;
    hide Top;
  }

  lemma ArgumentsReadBack(m: Memory, start: nat, size: CodeSize, plan: Plan, argv: seq<Text>, envp: seq<Text>)
    requires Anchored(size, plan, argv, envp) && HasImage(m, start, size, plan, argv, envp)
    ensures GuestCount(m, start, size, plan.sp) == |argv|
    ensures size != Code8 ==> GuestList(m, start, size, plan.sp) == plan.argv
    ensures GuestList(m, start, size, plan.sp) == plan.argv ==> GuestArguments(m, start, size, plan.sp) == argv
    ensures ReadTerminated(m, start, size, plan.argv, size.Space()) == argv
      <==> ReadSlot(m, start, size, plan.argv + size.Extent(|argv|)) == 0
  {
    hide Has;
    hide HasList;
    hide Blob;
    hide Digits;
    hide ReadCounted;
    hide ReadTerminated;
    hide ReadSlot;
    hide CodeSize.Extent;
    hide CodeSize.Space;
    ExtentStart(size);
    SlotReadsBack(m, start, size, plan.argc, |argv|);
    CountedReadsBack(m, start, size, plan.argv, plan.strings, argv, 0);
    TerminatedReadsBack(m, start, size, plan.argv, plan.strings, argv, 0, size.Space());
    assert argv[0..] == argv;
  }

  lemma EnvironmentReadsBack(m: Memory, start: nat, size: CodeSize, plan: Plan, argv: seq<Text>, envp: seq<Text>)
    requires Anchored(size, plan, argv, envp) && HasImage(m, start, size, plan, argv, envp)
    requires GuestCount(m, start, size, plan.sp) == |argv|
    ensures GuestEnvironment(m, start, size, plan.sp) == envp
  {
    hide Has;
    hide HasList;
    hide Blob;
    hide Digits;
    hide ReadTerminated;
    hide ReadSlot;
    hide GuestCount;
    hide CodeSize.Extent;
    hide CodeSize.Space;
    ExtentStart(size);
    assert start + plan.envp + size.Extent(|envp|) == start + (plan.envp + size.Extent(|envp|));
    SlotReadsBack(m, start, size, plan.envp + size.Extent(|envp|), 0);
    TerminatedReadsBack(m, start, size, plan.envp, plan.strings + |Blob(argv)|, envp, 0, size.Space());
    assert envp[0..] == envp;
  }

  /** Lists whose pointers fit the address space are shorter than it. */
  lemma ListsBounded(size: CodeSize, argv: seq<Text>, envp: seq<Text>)
    ensures 2 * |argv| <= size.Extent(|argv|) && 2 * |envp| <= size.Extent(|envp|)
  {
    ExtentIsProduct(size, |argv|);
    ExtentIsProduct(size, |envp|);
  }

  /** The slot of the 8-bit argument array pointer as the program reads it, when
    the pointer was written at `sp` without the segment base. */
  lemma UziPointer(m0: Memory, m: Memory, start: nat, sp: nat, pointer: nat)
    requires 0 < pointer < 0x1_0000
    requires Load(m, start + sp, 2) == Load(Store(m0, sp, Digits(pointer, 2)), start + sp, 2)
    ensures start == 0 ==> ReadSlot(m, start, Code8, sp) == pointer
    ensures start >= 2 ==> ReadSlot(m, start, Code8, sp) == ReadSlot(m0, start, Code8, sp)
    ensures m0(start + sp) == m0(start + sp + 1) == 0 ==> (ReadSlot(m, start, Code8, sp) == pointer <==> start == 0)
  {
    var s, d := Load(m, start + sp, 2), Digits(pointer, 2);
    TwoDigits(pointer);
    TwoBytes(s);
    TwoBytes(Load(m0, start + sp, 2));
    hide Digits;
    hide BytesValue;
    if start == 0 {
      assert s[0] == d[0] && s[1] == d[1];
    } else if start == 1 {
      assert s[0] == d[1] && s[1] == m0(start + sp + 1);
    } else {
      assert s[0] == m0(start + sp) && s[1] == m0(start + sp + 1);
    }
  }

  lemma TwoDigits(v: nat)
    requires v < 0x1_0000
    ensures Digits(v, 2) == [v % 0x100, v / 0x100]
  {
    assert Digits(v / 0x100, 1) == [v / 0x100];
  }

  lemma TwoBytes(s: seq<byte>)
    requires |s| == 2
    ensures BytesValue(s) == s[0] as int + 0x100 * s[1] as int
  {
    assert BytesValue(s[1..][1..]) == 0;
    assert BytesValue(s[1..]) == s[1];
  }

  /** The slot after the argument array is as it was before. */
  lemma SlotKept(m0: Memory, m: Memory, start: nat, size: CodeSize, a: nat)
    requires Has(m, start + a, Load(m0, start + a, size.Slot()))
    ensures ReadSlot(m, start, size, a) == ReadSlot(m0, start, size, a)
  {
  }

  lemma ArgvInSpace(stackTop: nat, argv: seq<Text>, envp: seq<Text>)
    requires Fits(Code8, stackTop, argv, envp)
    ensures 0 < PlanOf(Code8, stackTop, argv, envp).argv < 0x1_0000
  {
    PlanAnchored(Code8, stackTop, argv, envp);
  }

  // The image in bytes.

  /** Byte `k` of a number of `n` bytes. */
  lemma {:induction false} DigitsByte(v: nat, n: nat, k: nat)
    requires k < n
    ensures Digits(v, n)[k] as int == v / Pow256(k) % 0x100
  {
    if k == 0 {
    } else {
      DigitsByte(v / 0x100, n - 1, k - 1);
      assert Digits(v, n)[k] == Digits(v / 0x100, n - 1)[k - 1];
      ByteQuotient(v, Pow256(k - 1));
    }
  }

  lemma ByteQuotient(x: nat, q: nat)
    requires q > 0
    ensures x / (0x100 * q) == x / 0x100 / q
  {
    var a, b := x / 0x100 / q, x / 0x100 % q;
    assert x / 0x100 == q * a + b;
    assert x == (0x100 * b + x % 0x100) + a * (0x100 * q) by {
      assert 0x100 * (q * a) == a * (0x100 * q);
    }
    Fields(0x100 * b + x % 0x100, 0x100 * q, a);
  }

  /** The `n` bytes at an address hold a number, the lowest byte first. */
  ghost predicate HoldsNumber(m: Memory, a: nat, n: nat, v: nat) {
    forall k :: 0 <= k < n ==> m(a + k) as int == v / Pow256(k) % 0x100
  }

  lemma NumberInBytes(m: Memory, a: nat, v: nat, n: nat)
    requires Has(m, a, Digits(v, n))
    ensures HoldsNumber(m, a, n, v)
  {
    hide Has;
    hide Digits;
    hide Pow256;
    forall k | 0 <= k < n
      ensures m(a + k) as int == v / Pow256(k) % 0x100
    {
      HasAt(m, a, Digits(v, n), k);
      DigitsByte(v, n, k);
    }
  }

  /** Pointer `i` of a list, byte by byte, and string `i`, which it names, with its
    terminator. */
  lemma EntryInBytes(m: Memory, start: nat, size: CodeSize, list: nat, p: nat, texts: seq<Text>, i: nat)
    requires HasList(m, start, size, list, p, texts) && i < |texts|
    ensures HoldsNumber(m, start + list + size.Slot() * i, size.Slot(), p + Content(texts[..i]))
    ensures forall j :: 0 <= j < |texts[i]| ==> m(start + p + Content(texts[..i]) + j) == texts[i][j]
    ensures m(start + p + Content(texts[..i]) + |texts[i]|) == 0
  {
    hide Has;
    hide Blob;
    hide Pointers;
    hide Digits;
    hide Content;
    hide Pow256;
    hide CodeSize.Extent;
    hide CodeSize.Slot;
    var w, at, text := size.Slot(), Content(texts[..i]), texts[i] + [0];
    ContentIsBlob(texts[..i]);
    ExtentIsProduct(size, i);
    PointerAt(size, p, texts, i);
    HasPart(m, start + list, Pointers(size, p, texts), size.Extent(i), Digits(p + at, w));
    NumberInBytes(m, start + list + size.Extent(i), p + at, w);
    BlobAt(texts, i);
    HasPart(m, start + p, Blob(texts), at, text);
    forall j | 0 <= j < |text|
      ensures m(start + p + at + j) == text[j]
    {
      HasAt(m, start + p + at, text, j);
    }
    assert text[|texts[i]|] == 0 && forall j :: 0 <= j < |texts[i]| ==> text[j] == texts[i][j];
  }

  /** The stack top in numbers. */
  lemma TopInNumbers(size: CodeSize, stack: nat)
    ensures var space := match size
      case Code8 => 0x1_0000
      case Code16 => 0x1_0000
      case Code32 => 0x1_0000_0000
      case Code64 => 0x1_0000_0000_0000_0000;
      Top(size, stack) == if stack % space == 0 then space else stack % space
  {
  }

  /** A list in bytes: pointer `i` is a number of `w` bytes, the sum of the lengths
    before string `i`, with their terminators, and string `i` lies there. */
  ghost predicate ListBytes(m: Memory, start: nat, w: nat, list: nat, p: nat, texts: seq<Text>) {
    forall i :: 0 <= i < |texts| ==> var at := p + Content(texts[..i]);
      && HoldsNumber(m, start + list + w * i, w, at)
      && (forall j :: 0 <= j < |texts[i]| ==> m(start + at + j) == texts[i][j])
      && m(start + at + |texts[i]|) == 0
  }

  lemma ListInBytes(m: Memory, start: nat, size: CodeSize, list: nat, p: nat, texts: seq<Text>)
    requires HasList(m, start, size, list, p, texts)
    ensures ListBytes(m, start, size.Slot(), list, p, texts)
  {
    hide Has;
    hide Content;
    hide Pow256;
    hide CodeSize.Slot;
    hide Blob;
    hide Pointers;
    forall i | 0 <= i < |texts|
      ensures var w, at := size.Slot(), p + Content(texts[..i]);
        && HoldsNumber(m, start + list + w * i, w, at)
        && (forall j :: 0 <= j < |texts[i]| ==> m(start + at + j) == texts[i][j])
        && m(start + at + |texts[i]|) == 0
    {
      EntryInBytes(m, start, size, list, p, texts, i);
    }
  }

  /** The parts of the image in bytes. */
  lemma ImageInBytes(m: Memory, start: nat, size: CodeSize, plan: Plan, argv: seq<Text>, envp: seq<Text>)
    requires HasImage(m, start, size, plan, argv, envp)
    ensures HoldsNumber(m, start + plan.argc, size.Slot(), |argv|)
    ensures ListBytes(m, start, size.Slot(), plan.argv, plan.strings, argv)
    ensures ListBytes(m, start, size.Slot(), plan.envp, plan.strings + Content(argv), envp)
    ensures HoldsNumber(m, start + plan.envp + size.Slot() * |envp|, size.Slot(), 0)
  {
    hide *;
    ImageParts(m, start, size, plan, argv, envp);
    NumberInBytes(m, start + plan.argc, |argv|, size.Slot());
    ContentIsBlob(argv);
    ListInBytes(m, start, size, plan.argv, plan.strings, argv);
    ListInBytes(m, start, size, plan.envp, plan.strings + |Blob(argv)|, envp);
    ExtentIsProduct(size, |envp|);
    NumberInBytes(m, start + plan.envp + size.Extent(|envp|), 0, size.Slot());
  }

  lemma ImageParts(m: Memory, start: nat, size: CodeSize, plan: Plan, argv: seq<Text>, envp: seq<Text>)
    requires HasImage(m, start, size, plan, argv, envp)
    ensures Has(m, start + plan.argc, Digits(|argv|, size.Slot()))
    ensures HasList(m, start, size, plan.argv, plan.strings, argv)
    ensures HasList(m, start, size, plan.envp, plan.strings + |Blob(argv)|, envp)
    ensures Has(m, start + plan.envp + size.Extent(|envp|), Digits(0, size.Slot()))
  {
  }

  lemma SlotsInNumbers(size: CodeSize, argv: seq<Text>, envp: seq<Text>)
    ensures var n, k := |argv|, |envp|;
      match size
      case Code8 => Slots(size, argv, envp) == 2 * (4 + n + k) && size.Extent(n) == 2 * n
      case Code16 => Slots(size, argv, envp) == 2 * (3 + n + k) && size.Extent(n) == 2 * n
      case Code32 => Slots(size, argv, envp) == 4 * (3 + n + k) && size.Extent(n) == 4 * n
      case Code64 => Slots(size, argv, envp) == 8 * (3 + n + k) && size.Extent(n) == 8 * n
  {
    ExtentIsProduct(size, size.FixedSlots() + |argv| + |envp|);
    ExtentIsProduct(size, |argv|);
    hide CodeSize.Extent;
  }

  /** The layout in numbers: the strings end at the stack top, the slots lie below
    them, and the stack pointer is rounded down. */
  lemma PlanInNumbers(size: CodeSize, stack: nat, argv: seq<Text>, envp: seq<Text>)
    requires Fits(size, stack, argv, envp)
    ensures var plan, n, k, w := PlanOf(size, stack, argv, envp), |argv|, |envp|, match size
        case Code8 => 2
        case Code16 => 2
        case Code32 => 4
        case Code64 => 8;
      var strings := Top(size, stack) - Content(argv) - Content(envp);
      var sp := if size == Code8 then (strings - 2 * (4 + n + k)) / 2 * 2
        else if size == Code64 then (strings - 8 * (3 + n + k)) / 16 * 16
        else (strings - w * (3 + n + k)) / w * w;
      && plan.strings == strings && plan.sp == sp && size.Slot() == w
      && plan.argc == (if size == Code8 then sp + 2 else sp)
      && plan.argv == (if size == Code8 then sp + 4 + 2 * k + 2 else sp + w)
      && plan.envp == (if size == Code8 then sp + 4 else sp + w + w * n + w)
  {
    hide Content;
    hide CodeSize.Extent;
    hide CodeSize.Mask;
    hide Slots;
    hide Top;
    SlotsInNumbers(size, argv, envp);
    match size {
      case Code8 =>
      case Code16 =>
      case Code32 =>
      case Code64 =>
    }
  }

  class Emulator {
    var memory: Memory

    /** Writes the low bytes of a value to entry `index` of an array of slots. */
    method WriteAddress(size: CodeSize, start: nat, base: nat, index: nat, value: nat)
      requires base + size.Extent(index) + size.Slot() <= size.Space()
      modifies this`memory
      ensures memory == Store(old(memory), start + base + size.Extent(index), Digits(size.Mask(value), size.Slot()))
    {
      ExtentIsProduct(size, index);
      memory := Store(memory, start + size.Mask(base + index * size.Slot()), Digits(size.Mask(value), size.Slot()));
    }

    /** Copies a string and its terminator; returns the number of bytes. */
    method WriteString(size: CodeSize, start: nat, stringOffset: nat, text: Text, ghost p: nat) returns (j: nat)
      requires size.Mask(stringOffset) == size.Mask(p) && p + |text| + 1 <= size.Space()
      modifies this`memory
      ensures j == |text| + 1
      ensures Has(memory, start + p, text + [0])
      ensures Kept(old(memory), memory, 0, 0, start + p, |text| + 1)
    {
      var bytes := text + [0];
      j := 0;
      while true
        invariant 0 <= j <= |text|
        invariant Has(memory, start + p, bytes[..j])
        invariant Kept(old(memory), memory, 0, 0, start + p, |text| + 1)
        decreases |text| - j
      {
        Masked(size, stringOffset, p, j);
        StoreExtends(memory, start + p, bytes[..j], [bytes[j]]);
        assert bytes[..j] + [bytes[j]] == bytes[..j + 1];
        memory := Store(memory, start + size.Mask(stringOffset + j), [bytes[j]]);
        j := j + 1;
        if bytes[j - 1] == 0 {
          break;
        }
      }
      assert bytes[..j] == bytes;
    }

    /** Writes the pointer to string `i`. */
    method WritePointer(size: CodeSize, start: nat, list: nat, stringOffset: nat, i: nat, ghost texts: seq<Text>,
                        ghost p: nat, ghost done: nat)
      requires i < |texts| && HasList(memory, start, size, list, p, texts[..i]) && done == size.Extent(i)
      requires size.Mask(stringOffset) == p + |Blob(texts[..i])| && list + done + size.Slot() <= p < size.Space()
      modifies this`memory
      ensures Has(memory, start + list, Pointers(size, p, texts[..i + 1])) && Has(memory, start + p, Blob(texts[..i]))
      ensures |Pointers(size, p, texts[..i + 1])| == done + size.Slot()
      ensures Kept(old(memory), memory, start + list + done, size.Slot(), 0, 0)
    {
      hide Has;
      hide Kept;
      hide Load;
      hide Store;
      hide Digits;
      hide Blob;
      hide Pointers;
      hide CodeSize.Mask;
      hide CodeSize.Extent;
      hide CodeSize.Slot;
      hide CodeSize.Space;
      ghost var before, after, digits := texts[..i], texts[..i + 1], Digits(p + |Blob(texts[..i])|, size.Slot());
      assert after[..|after| - 1] == before;
      PointersNext(size, p, after);
      PointersLength(size, p, before);
      MaskSmall(size, p + |Blob(before)|);
      StoreIsKept(memory, start + list + done, digits);
      StoreExtends(memory, start + list, Pointers(size, p, before), digits);
      StoreElsewhere(memory, start + p, Blob(before), start + list + done, digits);
      WriteAddress(size, start, list, i, stringOffset);
    }

    /** Writes string `i` after the strings before it. */
    method AppendString(size: CodeSize, start: nat, stringOffset: nat, texts: seq<Text>, i: nat,
                        ghost p: nat, ghost list: nat, ghost pointers: seq<byte>)
      returns (n: nat)
      requires i < |texts| && Has(memory, start + p, Blob(texts[..i]))
      requires Has(memory, start + list, pointers) && list + |pointers| <= p
      requires size.Mask(stringOffset) == p + |Blob(texts[..i])|
      requires p + |Blob(texts[..i])| + |texts[i]| + 1 <= size.Space()
      modifies this`memory
      ensures n == |texts[i]| + 1 && |Blob(texts[..i + 1])| == |Blob(texts[..i])| + n
      ensures Has(memory, start + p, Blob(texts[..i + 1])) && Has(memory, start + list, pointers)
      ensures Kept(old(memory), memory, 0, 0, start + p + |Blob(texts[..i])|, n)
    {
      ghost var before, after := texts[..i], texts[..i + 1];
      BlobNext(texts, i);
      hide Has;
      hide Kept;
      hide Blob;
      hide CodeSize.Mask;
      MaskSmall(size, p + |Blob(before)|);
      ghost var m, at := memory, start + p + |Blob(before)|;
      n := WriteString(size, start, stringOffset, texts[i], p + |Blob(before)|);
      KeptHas(m, memory, 0, 0, at, n, start + list, pointers);
      KeptHas(m, memory, 0, 0, at, n, start + p, Blob(before));
      HasConcat(memory, start + p, Blob(before), texts[i] + [0]);
    }

    /** Writes one pointer and its string after the first `i` of them. */
    method WriteEntry(size: CodeSize, start: nat, list: nat, stringOffset: nat, texts: seq<Text>, i: nat,
                      ghost p: nat, ghost done: nat)
      returns (offset: nat)
      requires i < |texts| && HasList(memory, start, size, list, p, texts[..i]) && done == size.Extent(i)
      requires size.Mask(stringOffset) == size.Mask(p + |Blob(texts[..i])|)
      requires list + done + size.Slot() <= p && p + |Blob(texts[..i])| + |texts[i]| + 1 <= size.Space()
      modifies this`memory
      ensures HasList(memory, start, size, list, p, texts[..i + 1])
      ensures |Blob(texts[..i + 1])| == |Blob(texts[..i])| + |texts[i]| + 1
      ensures Kept(old(memory), memory, start + list + done, size.Slot(), start + p + |Blob(texts[..i])|,
        |texts[i]| + 1)
      ensures offset < TWO64 && size.Mask(offset) == size.Mask(p + |Blob(texts[..i + 1])|)
    {
      ghost var at := p + |Blob(texts[..i])|;
      BlobNext(texts, i);
      hide Has;
      hide Blob;
      hide Pointers;
      hide CodeSize.Mask;
      MaskSmall(size, at);
      WritePointer(size, start, list, stringOffset, i, texts, p, done);
      var n := AppendString(size, start, stringOffset, texts, i, p, list, Pointers(size, p, texts[..i + 1]));
      MaskedAdd(size, stringOffset, at, n);
      offset := (stringOffset + n) % TWO64;
    }

    /** Writes the pointers to a list of strings and the strings. */
    method WriteList(size: CodeSize, start: nat, list: nat, stringOffset: nat, texts: seq<Text>, ghost p: nat)
      returns (offset: nat)
      requires size.Mask(stringOffset) == size.Mask(p) && stringOffset < TWO64
      requires list + size.Extent(|texts|) <= p && p + |Blob(texts)| <= size.Space()
      modifies this`memory
      ensures HasList(memory, start, size, list, p, texts)
      ensures Kept(old(memory), memory, start + list, size.Extent(|texts|), start + p, |Blob(texts)|)
      ensures offset < TWO64 && size.Mask(offset) == size.Mask(p + |Blob(texts)|)
    {
      hide Has;
      hide Kept;
      hide Blob;
      hide Pointers;
      hide CodeSize.Extent;
      hide CodeSize.Mask;
      ListStart(memory, start, size, list, p, texts);
      offset := stringOffset;
      for i := 0 to |texts|
        invariant HasList(memory, start, size, list, p, texts[..i])
        invariant Kept(old(memory), memory, start + list, size.Extent(i), start + p, |Blob(texts[..i])|)
        invariant offset < TWO64 && size.Mask(offset) == size.Mask(p + |Blob(texts[..i])|)
      {
        BlobNext(texts, i);
        BlobGrows(texts, i + 1);
        ExtentNext(size, i);
        ExtentGrows(size, i + 1, |texts|);
        ghost var m, done, content := memory, size.Extent(i), |Blob(texts[..i])|;
        offset := WriteEntry(size, start, list, offset, texts, i, p, done);
        KeptGrows(old(memory), m, memory, start + list, done, size.Slot(), start + p, content, |texts[i]| + 1);
      }
      assert texts[..|texts|] == texts;
    }

    /** Writes a list and the terminator of its pointers. */
    method WriteTerminated(size: CodeSize, start: nat, list: nat, stringOffset: nat, texts: seq<Text>,
                           ghost p: nat, ghost extent: nat)
      requires size.Mask(stringOffset) == size.Mask(p) && stringOffset < TWO64
      requires extent == size.Extent(|texts|) && list + extent + size.Slot() <= p && p + |Blob(texts)| <= size.Space()
      modifies this`memory
      ensures HasList(memory, start, size, list, p, texts)
      ensures Has(memory, start + list + extent, Digits(0, size.Slot()))
      ensures Kept(old(memory), memory, start + list, extent + size.Slot(), start + p, |Blob(texts)|)
    {
      hide Has;
      hide Kept;
      hide Load;
      hide Store;
      hide CodeSize.Extent;
      hide CodeSize.Mask;
      hide Blob;
      hide Pointers;
      hide Digits;
      var offset := WriteList(size, start, list, stringOffset, texts, p);
      ghost var m := memory;
      WriteAddress(size, start, list, |texts|, 0);
      StoreIsKept(m, start + list + extent, Digits(size.Mask(0), size.Slot()));
      assert size.Mask(0) == 0 by {
        MaskSmall(size, 0);
      }
      KeptEmpty(m, memory, start + list + extent, size.Slot(), start + p + |Blob(texts)|);
      PointersLength(size, p, texts);
      KeptHas(m, memory, start + list + extent, size.Slot(), 0, 0, start + list, Pointers(size, p, texts));
      KeptHas(m, memory, start + list + extent, size.Slot(), 0, 0, start + p, Blob(texts));
      KeptGrows(old(memory), m, memory, start + list, extent, size.Slot(), start + p, |Blob(texts)|, 0);
    }

    /** Writes the count, the arguments and the environment at their places; the
      terminator of the arguments and what lies below the count stay as they were. */
    method FillImage(size: CodeSize, start: nat, argcAddress: nat, argvContents: nat, envpContents: nat,
                     stringOffset: nat,
                     argv: seq<Text>, envp: seq<Text>, ghost plan: Plan, ghost below: nat)
      requires argcAddress == plan.argc && argvContents == plan.argv && envpContents == plan.envp && below <= plan.argc
      requires Ordered(plan, size.Slot(), size.Extent(|argv|), size.Extent(|envp|), |Blob(argv)|)
      requires plan.strings + |Blob(argv)| + |Blob(envp)| <= size.Space()
      requires stringOffset < TWO64 && size.Mask(stringOffset) == size.Mask(plan.strings)
      modifies this`memory
      ensures HasImage(memory, start, size, plan, argv, envp)
      ensures var a := start + plan.argv + size.Extent(|argv|); Has(memory, a, old(Load(memory, a, size.Slot())))
      ensures var a := start + plan.argc - below; Has(memory, a, old(Load(memory, a, below)))
      ensures KeptOutside(old(memory), memory, start + plan.argc, start + plan.strings + |Blob(argv)| + |Blob(envp)|)
    {
      hide KeptOutside;
      hide Has;
      hide Kept;
      hide Load;
      hide Store;
      hide CodeSize.Extent;
      hide CodeSize.Mask;
      hide Blob;
      hide Pointers;
      hide Digits;
      ghost var m0, pointers := memory, Pointers(size, plan.strings, argv);
      CountFits(size, |argv|);
      ExtentStart(size);
      ghost var lo, hi := start + plan.argc, start + plan.strings + |Blob(argv)| + |Blob(envp)|;
      StoreIsKept(m0, start + argcAddress, Digits(size.Mask(|argv|), size.Slot()));
      WriteAddress(size, start, argcAddress, 0, |argv|);
      ghost var m1 := memory;
      KeptInside(m0, m1, start + plan.argc, size.Slot(), 0, 0, lo, hi);
      var offset := WriteList(size, start, argvContents, stringOffset, argv, plan.strings);
      ghost var m2 := memory;
      KeptInside(m1, m2, start + plan.argv, size.Extent(|argv|), start + plan.strings, |Blob(argv)|, lo, hi);
      WriteTerminated(size, start, envpContents, offset, envp, plan.strings + |Blob(argv)|, size.Extent(|envp|));
      KeptInside(m2, memory, start + plan.envp, size.Extent(|envp|) + size.Slot(), start + plan.strings + |Blob(argv)|,
                 |Blob(envp)|, lo, hi);
      KeptOutsideTwice(m0, m1, m2, memory, lo, hi);
      PointersLength(size, plan.strings, argv);
      ImageKept(m0, m1, m2, memory, start, plan, size.Slot(), size.Extent(|argv|), size.Extent(|envp|), |Blob(envp)|,
                Digits(|argv|, size.Slot()), pointers, Blob(argv), below);
    }

    /** Builds the image below `stackTop` and returns the stack pointer. The
      terminator of the argument array is not written, and the 8-bit pointer to
      the argument array is written without the segment base. */
    method BuildInitialStack(size: CodeSize, start: nat, stackTop: nat, argv: seq<Text>, envp: seq<Text>)
      returns (sp: nat)
      requires stackTop < TWO64 && Fits(size, stackTop, argv, envp)
      modifies this`memory
      ensures sp == PlanOf(size, stackTop, argv, envp).sp
      ensures HasImage(memory, start, size, PlanOf(size, stackTop, argv, envp), argv, envp)
      ensures var a := start + PlanOf(size, stackTop, argv, envp).argv + size.Extent(|argv|);
        Has(memory, a, old(Load(memory, a, size.Slot())))
      ensures size == Code8 && start == 0 ==> Has(memory, sp, Digits(PlanOf(size, stackTop, argv, envp).argv, 2))
      ensures size == Code8 && start >= 2 ==> Has(memory, start + sp, old(Load(memory, start + sp, 2)))
      ensures forall x: nat ::
        !(start + sp <= x < start + Top(size, stackTop)) && !(size == Code8 && sp <= x < sp + 2) ==>
        memory(x) == old(memory)(x)
      ensures size == Code8 ==>
        var written := Store(old(memory), sp, Digits(PlanOf(size, stackTop, argv, envp).argv, 2));
        Load(memory, start + sp, 2) == Load(written, start + sp, 2)
    {
      hide Has;
      hide Load;
      hide Kept;
      hide Ordered;
      hide CodeSize.Extent;
      hide CodeSize.Mask;
      hide CodeSize.AlignDown;
      hide Content;
      hide Blob;
      hide HasImage;
      hide Top;
      hide Digits;
      var content := Content(argv) + Content(envp);
      var slots := (size.FixedSlots() + |argv| + |envp|) * size.Slot();
      var stringOffset := (stackTop - content) % TWO64;
      sp := size.AlignDown(size.Mask((stringOffset - slots) % TWO64));
      ghost var plan := PlanOf(size, stackTop, argv, envp);
      ExtentIsProduct(size, size.FixedSlots() + |argv| + |envp|);
      StackArithmetic(size, stackTop, content, slots);
      MaskSmall(size, Top(size, stackTop) - content - slots);
      PlanFits(size, stackTop, argv, envp);
      ExtentIsProduct(size, |argv|);
      if size == Code8 {
        ghost var m, a := memory, start + plan.argv + size.Extent(|argv|);
        var argvContents := sp + 4 + |envp| * 2 + 2;
        memory := Store(memory, sp, Digits(size.Mask(argvContents), 2));
        UziSlot(m, memory, start, sp, Digits(size.Mask(argvContents), 2), a);
        MaskSmall(size, argvContents);
        ghost var written := memory;
        FillImage(size, start, sp + 2, argvContents, sp + 4, stringOffset, argv, envp, plan, 2);
        HasIsLoad(memory, start + sp, Load(written, start + sp, 2));
      } else {
        var w := size.Slot();
        FillImage(size, start, sp, sp + w, sp + w + |argv| * w + w, stringOffset, argv, envp, plan, 0);
      }
    }
  }

  /** Builds the image in any memory and follows it as a started program does. The
    count and the environment always come back. The arguments come back if the
    program finds their array, and are ended by a zero if and only if the slot
    after the array was zero before. The array is found except in the 8-bit
    layout in a segment that does not start at 0: there its pointer is missing. */
  method LaunchReadsBack(emulator: Emulator, size: CodeSize, start: nat, stackTop: nat, argv: seq<Text>,
                         envp: seq<Text>)
    returns (sp: nat)
    requires stackTop < TWO64 && Fits(size, stackTop, argv, envp)
    modifies emulator
    ensures sp % size.Alignment() == 0
    ensures GuestCount(emulator.memory, start, size, sp) == |argv|
    ensures GuestEnvironment(emulator.memory, start, size, sp) == envp
    ensures var list := PlanOf(size, stackTop, argv, envp).argv;
      && (size != Code8 || start == 0 ==> GuestList(emulator.memory, start, size, sp) == list)
      && (size == Code8 && start >= 2 ==>
        GuestList(emulator.memory, start, size, sp) == old(ReadSlot(emulator.memory, start, size, sp)))
      && (size == Code8 && old(emulator.memory)(start + sp) == old(emulator.memory)(start + sp + 1) == 0 ==>
        (GuestList(emulator.memory, start, size, sp) == list <==> start == 0))
      && (GuestList(emulator.memory, start, size, sp) == list ==>
        && GuestArguments(emulator.memory, start, size, sp) == argv
        && (ReadTerminated(emulator.memory, start, size, list, size.Space()) == argv
            <==> old(ReadSlot(emulator.memory, start, size, list + size.Extent(|argv|))) == 0))
  {
    hide Has;
    hide HasImage;
    hide Fits;
    hide PlanOf;
    hide Digits;
    hide Load;
    hide Store;
    hide ReadSlot;
    hide ReadTerminated;
    hide GuestArguments;
    hide GuestEnvironment;
    hide GuestCount;
    hide CodeSize.Extent;
    hide CodeSize.Space;
    ghost var plan, before := PlanOf(size, stackTop, argv, envp), emulator.memory;
    sp := emulator.BuildInitialStack(size, start, stackTop, argv, envp);
    PlanAligned(size, stackTop, argv, envp);
    assert start + plan.argv + size.Extent(|argv|) == start + (plan.argv + size.Extent(|argv|));
    SlotKept(before, emulator.memory, start, size, plan.argv + size.Extent(|argv|));
    ImageReadsBack(emulator.memory, start, size, stackTop, argv, envp);
    if size == Code8 {
      ArgvInSpace(stackTop, argv, envp);
      UziPointer(before, emulator.memory, start, sp, plan.argv);
    }
  }

  /** The image in bytes, for an 8-bit or 16-bit program and for a 32-bit or 64-bit
    one: count, pointers and strings, and the pointers' terminator of zero bytes. */
  method BuildInBytes(emulator: Emulator, size: CodeSize, start: nat, stackTop: nat, argv: seq<Text>, envp: seq<Text>)
    returns (sp: nat)
    requires stackTop < TWO64 && Fits(size, stackTop, argv, envp)
    modifies emulator
    ensures var m, n, k, w := emulator.memory, |argv|, |envp|, match size
        case Code8 => 2
        case Code16 => 2
        case Code32 => 4
        case Code64 => 8;
      var space := match size
        case Code8 => 0x1_0000
        case Code16 => 0x1_0000
        case Code32 => 0x1_0000_0000
        case Code64 => 0x1_0000_0000_0000_0000;
      var top := if stackTop % space == 0 then space else stackTop % space;
      var strings := top - Content(argv) - Content(envp);
      && 0 <= strings
      && sp == (if size == Code8 then (strings - 2 * (4 + n + k)) / 2 * 2
                else if size == Code64 then (strings - 8 * (3 + n + k)) / 16 * 16
                else (strings - w * (3 + n + k)) / w * w)
      && var argc := if size == Code8 then sp + 2 else sp;
         var args := if size == Code8 then sp + 4 + 2 * k + 2 else sp + w;
         var environment := if size == Code8 then sp + 4 else sp + w + w * n + w;
         && HoldsNumber(m, start + argc, w, n)
         && ListBytes(m, start, w, args, strings, argv)
         && ListBytes(m, start, w, environment, strings + Content(argv), envp)
         && HoldsNumber(m, start + environment + w * k, w, 0)
         && (size == Code8 && start == 0 ==> HoldsNumber(m, sp, 2, args))
  {
    hide *;
    TopInNumbers(size, stackTop);
    PlanInNumbers(size, stackTop, argv, envp);
    sp := emulator.BuildInitialStack(size, start, stackTop, argv, envp);
    ImageInBytes(emulator.memory, start, size, PlanOf(size, stackTop, argv, envp), argv, envp);
    if size == Code8 && start == 0 {
      NumberInBytes(emulator.memory, sp, PlanOf(size, stackTop, argv, envp).argv, 2);
    }
  }
}
