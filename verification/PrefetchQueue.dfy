/** The prefetch queue (src/cpu/memory.c): a cache of the code bytes after IP.
  Code is given by its bytes relative to CS. It is not modified, reading it does
  not fault, and no fetch crosses the end of the 64 KiB segment. */
module PrefetchQueue {
  import opened ByteMemory

  const CAPACITY := 16

  datatype Step = Jump(target: nat) | Fetch(count: nat) | Fill

  /** What a processor without a queue fetches. */
  function DirectRun(code: Memory, ip: nat, steps: seq<Step>): (nat, seq<seq<byte>>) {
    if |steps| == 0 then (ip, [])
    else
      var (at, results) := DirectRun(code, ip, steps[..|steps| - 1]);
      match steps[|steps| - 1]
      case Jump(target) => (target, results)
      case Fetch(count) => (at + count, results + [Load(code, at, count)])
      case Fill => (at, results)
  }

  /** The bookkeeping of the queue: where its live bytes start in the buffer, how
    many there are, the prefetch pointer and IP. */
  datatype Counters = Counters(offset: nat, size: nat, pointer: nat, ip: nat)

  /** Whether a fill stays inside the buffer. It does not when the queue was
    drained exactly, so that its start was never moved back to 0. */
  predicate FillFits(queueSize: nat, c: Counters) {
    c.ip + c.size != c.pointer || c.size != 0 || c.offset + queueSize <= CAPACITY
  }

  /** The bookkeeping after a step; a fill that misses the buffer has no next one. */
  function Next(queueSize: nat, c: Counters, step: Step): Counters {
    match step
    case Jump(target) => Counters(0, 0, target, target)
    case Fetch(count) =>
      var taken := if count < c.size then count else c.size;
      Counters(c.offset + taken, c.size - taken, c.pointer, c.ip + count)
    case Fill =>
      var live := if c.ip + c.size == c.pointer then c.size else 0;
      var size := if live > queueSize then live else queueSize;
      Counters(if c.ip + c.size == c.pointer && c.size == 0 then c.offset else 0, size, c.ip + size, c.ip)
  }

  function After(queueSize: nat, c: Counters, steps: seq<Step>): Counters {
    if |steps| == 0 then c
    else Next(queueSize, After(queueSize, c, steps[..|steps| - 1]), steps[|steps| - 1])
  }

  /** Step `k` is not a fill that misses the buffer. */
  predicate StepFits(queueSize: nat, c: Counters, steps: seq<Step>, k: nat)
    requires k < |steps|
  {
    steps[k].Fill? ==> FillFits(queueSize, After(queueSize, c, steps[..k]))
  }

  /** No fill of a run misses the buffer. */
  predicate RunFits(queueSize: nat, c: Counters, steps: seq<Step>) {
    forall k :: 0 <= k < |steps| ==> StepFits(queueSize, c, steps, k)
  }

  lemma LoadSplits(m: Memory, a: nat, i: nat, j: nat)
    ensures Load(m, a, i + j) == Load(m, a, i) + Load(m, a + i, j)
  {
  }

  /** A part of the buffer holds a part of the code. */
  lemma LoadPart(m: Memory, a: nat, n: nat, i: nat, j: nat)
    requires i + j <= n
    ensures Load(m, a, n)[i..i + j] == Load(m, a + i, j)
  {
  }

  /** A run that is one step longer. */
  lemma DirectOneMore(code: Memory, ip: nat, steps: seq<Step>, n: nat)
    requires n < |steps|
    ensures var (at, results) := DirectRun(code, ip, steps[..n]);
      DirectRun(code, ip, steps[..n + 1]) ==
        match steps[n]
        case Jump(target) => (target, results)
        case Fetch(count) => (at + count, results + [Load(code, at, count)])
        case Fill => (at, results)
  {
    hide Load;
    assert steps[..n + 1][..n] == steps[..n];
  }

  lemma NextIp(queueSize: nat, c: Counters, step: Step)
    ensures Next(queueSize, c, step).ip ==
      match step
      case Jump(target) => target
      case Fetch(count) => c.ip + count
      case Fill => c.ip
  {
  }

  /** Three 6-byte instructions in a row on a processor with a 6-byte queue, each
    followed by its fill, run past the 16-byte buffer at the third fill; the
    first two stay inside. */
  lemma DrainedQueueOverruns(ip: nat)
    ensures var steps := [Fill, Fetch(6), Fill, Fetch(6), Fill];
      && !RunFits(6, Counters(0, 0, ip, ip), steps)
      && RunFits(6, Counters(0, 0, ip, ip), steps[..4])
  {
    var c, steps := Counters(0, 0, ip, ip), [Fill, Fetch(6), Fill, Fetch(6), Fill];
    assert steps[..0] == [];
    AfterOneMore(6, c, steps, 0);
    AfterOneMore(6, c, steps, 1);
    AfterOneMore(6, c, steps, 2);
    AfterOneMore(6, c, steps, 3);
    assert After(6, c, steps[..1]) == Counters(0, 6, ip + 6, ip);
    assert After(6, c, steps[..2]) == Counters(6, 0, ip + 6, ip + 6);
    assert After(6, c, steps[..3]) == Counters(6, 6, ip + 12, ip + 6);
    assert After(6, c, steps[..4]) == Counters(12, 0, ip + 12, ip + 12);
    assert !StepFits(6, c, steps, 4);
    forall k | 0 <= k < 4
      ensures StepFits(6, c, steps[..4], k)
    {
      assert steps[..4][..k] == steps[..k];
    }
  }

  lemma AfterOneMore(queueSize: nat, c: Counters, steps: seq<Step>, n: nat)
    requires n < |steps|
    ensures After(queueSize, c, steps[..n + 1]) == Next(queueSize, After(queueSize, c, steps[..n]), steps[n])
  {
    assert steps[..n + 1][..n] == steps[..n];
  }

  class Fetcher {
    const code: Memory
    const queueSize: nat
    const queue: array<byte>
    var offset: nat
    var size: nat
    var pointer: nat
    var ip: nat

    /** The buffer holds the code bytes just before the prefetch pointer: first
      those already taken, then those still queued. */
    ghost predicate Valid()
      reads this, queue
    {
      && queue.Length == CAPACITY && queueSize <= CAPACITY
      && offset + size <= CAPACITY && offset + size <= pointer
      && queue[..offset + size] == Load(code, pointer - (offset + size), offset + size)
    }

    /** The queued bytes are the ones IP is about to fetch. */
    predicate Agrees()
      reads this
    {
      size == 0 || ip + size == pointer
    }

    function State(): Counters
      reads this
    {
      Counters(offset, size, pointer, ip)
    }

    constructor (code: Memory, queueSize: nat, ip: nat)
      requires queueSize <= CAPACITY
      ensures Valid() && Agrees() && fresh(queue)
      ensures this.code == code && this.queueSize == queueSize && this.ip == ip
      ensures size == 0 && offset == 0 && pointer == ip
    {
      this.code, this.queueSize, this.ip := code, queueSize, ip;
      queue := new byte[CAPACITY](_ => 0);
      size, offset, pointer := 0, 0, ip;
    }

    method Flush()
      requires queue.Length == CAPACITY && queueSize <= CAPACITY
      modifies this`size, this`offset, this`pointer
      ensures Valid() && Agrees()
      ensures size == 0 && offset == 0 && pointer == ip
    {
      size, offset, pointer := 0, 0, ip;
    }

    method SetIp(target: nat)
      requires Valid()
      modifies this`size, this`offset, this`pointer, this`ip
      ensures Valid() && Agrees() && State() == Next(queueSize, old(State()), Jump(target))
      ensures ip == pointer == target && size == 0 && offset == 0
    {
      ip := target;
      Flush();
    }

    /** Moves the queued bytes to the front of the buffer. */
    method Compact()
      requires Valid()
      modifies queue, this`offset
      ensures Valid() && offset == 0
    {
      var live := queue[offset..offset + size];
      assert live == queue[..offset + size][offset..];
      forall i | 0 <= i < size {
        queue[i] := live[i];
      }
      assert queue[..size] == live;
      offset := 0;
    }

    /** Queues one more byte. */
    method Prefetch()
      requires Valid() && offset + size < CAPACITY
      modifies queue, this`size, this`pointer
      ensures Valid() && size == old(size) + 1 && pointer == old(pointer) + 1
    {
      queue[offset + size] := code(pointer);
      assert queue[..offset + size + 1] == queue[..offset + size] + [code(pointer)];
      size := size + 1;
      pointer := pointer + 1;
    }

    /** The queued bytes of a queue that agrees with IP. */
    lemma QueuedBytes()
      requires Valid() && ip + size == pointer
      ensures forall j :: offset <= j < offset + size ==> queue[j] == code(ip + (j - offset))
    {
      forall j | offset <= j < offset + size
        ensures queue[j] == code(ip + (j - offset))
      {
        assert queue[..offset + size][j] == queue[j];
      }
    }

    /** Fills the queue, and drops its contents first if it does not agree with IP;
      `ok` is false if a store would miss the buffer. */
    method FillQueue() returns (ok: bool)
      requires Valid()
      modifies queue, this`size, this`offset, this`pointer
      ensures Valid() && Agrees()
      ensures ok <==> FillFits(queueSize, old(State()))
      ensures ok ==> State() == Next(queueSize, old(State()), Fill)
      ensures ok <==> old(ip + size != pointer || size != 0 || offset + queueSize <= 16)
      ensures ok ==> ip == old(ip) && pointer == ip + size
      ensures ok ==> size == if old(ip + size == pointer && size > queueSize) then old(size) else queueSize
      ensures forall j :: offset <= j < offset + size ==> queue[j] == code(ip + (j - offset))
    {
      if ip + size != pointer {
        Flush();
      }
      if offset != 0 && size != 0 {
        Compact();
      }
      while size < queueSize
        invariant Valid() && pointer == ip + size
        invariant size <= if old(ip + size == pointer && size > queueSize) then old(size) else queueSize
        invariant FillFits(queueSize, old(State())) ==> offset + queueSize <= CAPACITY
        invariant offset == if old(ip + size == pointer && size == 0) then old(offset) else 0
        invariant size >= if old(ip + size == pointer) then old(size) else 0
        invariant old(ip + size == pointer && size > queueSize) ==> size == old(size)
      {
        if offset + size == CAPACITY {
          QueuedBytes();
          return false;
        }
        Prefetch();
      }
      ok := true;
      QueuedBytes();
    }

    /** Takes queued bytes, those just before the prefetch pointer. */
    method Take(n: nat) returns (buffer: seq<byte>)
      requires Valid() && n <= size
      modifies this`size, this`offset
      ensures Valid() && offset == old(offset) + n && size == old(size) - n
      ensures buffer == Load(code, pointer - old(size), n)
    {
      hide Load;
      LoadPart(code, pointer - (offset + size), offset + size, offset, n);
      buffer := queue[offset..offset + n];
      ghost var held := queue[..offset + size];
      forall i | 0 <= i < n
        ensures buffer[i] == held[offset..offset + n][i]
      {
        assert held[offset + i] == queue[offset + i];
      }
      offset := offset + n;
      size := size - n;
    }

    /** Fetches `count` bytes at IP, from the queue as far as it reaches. */
    method FetchBytes(count: nat) returns (buffer: seq<byte>)
      requires Valid() && Agrees()
      modifies this`size, this`offset, this`ip
      ensures Valid() && Agrees()
      ensures buffer == Load(code, old(ip), count) && State() == Next(queueSize, old(State()), Fetch(count))
      ensures |buffer| == count && forall i :: 0 <= i < count ==> buffer[i] == code(old(ip) + i)
      ensures ip == old(ip) + count && pointer == old(pointer)
      ensures var taken := if count < old(size) then count else old(size);
        offset == old(offset) + taken && size == old(size) - taken
    {
      hide Load;
      hide Fetcher.Valid;
      var address, n := ip, count;
      buffer := [];
      if size > 0 {
        var queued := if n > size then size else n;
        LoadSplits(code, address, queued, n - queued);
        buffer := Take(queued);
        address := address + queued;
        n := n - queued;
      }
      buffer := buffer + Load(code, address, n);
      SetIpOnly(ip + count);
    }

    /** IP moves past what was fetched; the queue stays. */
    method SetIpOnly(target: nat)
      requires Valid()
      modifies this`ip
      ensures Valid() && ip == target
    {
      ip := target;
    }

    /** Makes the bytes already taken available again, with IP set back by
      `back`. The queue then agrees with IP exactly if `back` reaches the byte at
      the front of the buffer. */
    method Rewind(back: nat)
      requires Valid() && back <= ip
      modifies this`size, this`offset, this`ip
      ensures Valid() && State() == Counters(0, old(size + offset), old(pointer), old(ip) - back)
      ensures Agrees() <==> old(offset + size) == 0 || old(ip) - back == old(pointer - (offset + size))
    {
      size := size + offset;
      offset := 0;
      ip := ip - back;
    }

    /** One step of a run; `fits` is false for a fill that misses the buffer. */
    method Perform(step: Step) returns (fits: bool, buffer: seq<byte>)
      requires Valid() && Agrees()
      modifies this, queue
      ensures Valid() && Agrees()
      ensures fits <==> step.Fill? ==> FillFits(queueSize, old(State()))
      ensures fits ==> State() == Next(queueSize, old(State()), step)
      ensures ip == Next(queueSize, old(State()), step).ip
      ensures step.Fetch? ==> buffer == Load(code, old(ip), step.count)
    {
      hide Load;
      hide Fetcher.Valid;
      fits, buffer := true, [];
      match step {
        case Jump(target) => SetIp(target);
        case Fetch(count) => buffer := FetchBytes(count);
        case Fill => fits := FillQueue();
      }
    }

    /** Every fetch of a run returns what a fetch without the queue would, until
      the first fill that misses the buffer; there is none if and only if the
      run fits. */
    method Run(steps: seq<Step>) returns (done: nat, results: seq<seq<byte>>)
      requires Valid() && Agrees()
      modifies this, queue
      ensures Valid() && Agrees() && done <= |steps|
      ensures (ip, results) == DirectRun(code, old(ip), steps[..done])
      ensures done == |steps| <==> RunFits(queueSize, old(State()), steps)
      ensures done == |steps| ==> State() == After(queueSize, old(State()), steps)
      ensures done < |steps| ==> !StepFits(queueSize, old(State()), steps, done)
      ensures forall k :: 0 <= k < done ==> StepFits(queueSize, old(State()), steps, k)
    {
      hide Load;
      hide Fetcher.Valid;
      hide FillFits;
      hide Next;
      results := [];
      done := 0;
      while done < |steps|
        invariant Valid() && Agrees() && done <= |steps|
        invariant (ip, results) == DirectRun(code, old(ip), steps[..done])
        invariant State() == After(queueSize, old(State()), steps[..done])
        invariant forall k :: 0 <= k < done ==> StepFits(queueSize, old(State()), steps, k)
      {
        DirectOneMore(code, old(ip), steps, done);
        AfterOneMore(queueSize, old(State()), steps, done);
        NextIp(queueSize, State(), steps[done]);
        assert StepFits(queueSize, old(State()), steps, done) <==> steps[done].Fill? ==> FillFits(queueSize, State());
        var fits, buffer := Perform(steps[done]);
        if !fits {
          return;
        }
        if steps[done].Fetch? {
          results := results + [buffer];
        }
        done := done + 1;
      }
      assert steps[..done] == steps;
    }
  }

  /** A 6-byte queue that was drained and filled again. */
  method DrainAndFill(code: Memory, ip: nat) returns (f: Fetcher)
    ensures fresh(f) && f.Valid() && f.Agrees() && f.code == code
    ensures f.State() == Counters(6, 6, ip + 12, ip + 6)
  {
    hide Load;
    hide Fetcher.Valid;
    f := new Fetcher(code, 6, ip);
    var ok := f.FillQueue();
    var instruction := f.FetchBytes(6);
    ok := f.FillQueue();
  }

  /** After such a fill the buffer does not start at the current instruction. A
    rewind from the end of that instruction to its start, as the disassembler
    does it, makes the queue hold the code from the instruction before. */
  method RewindAfterDrain(code: Memory, ip: nat, length: nat) returns (f: Fetcher, start: nat)
    requires 0 < length <= 6
    ensures start == ip + 6 && f.State() == Counters(0, 12, ip + 12, start) && f.code == code
    ensures f.Valid() && f.queue[..12] == Load(code, ip, 12) && !f.Agrees()
  {
    hide Load;
    f := DrainAndFill(code, ip);
    start := f.ip;
    var instruction := f.FetchBytes(length);
    f.Rewind(length);
  }
}
