/** The allocator's macros as they run: reading and writing a memory of bytes in place. Each is
    proved to be one step of the machine in `Amalloc`, whose runs carry the guarantees. */
module AmallocMachine {
  import opened Basics
  import opened Amalloc

  function Repeat(b: byte, n: nat): (s: seq<byte>)
    ensures |s| == n
  {
    seq(n, _ => b)
  }

  /** Filling a fresh block in the order of the source, tag and payload after the raw block,
      comes to laying it down in one go. */
  lemma Assembled(cfg: Config, mem: seq<byte>, base: int, op: Op, storage: Storage, raw: seq<byte>)
    requires op.Alloc? && 0 <= base && base + |op.junk| <= |mem| && |op.junk| == op.s + ALIGN
    requires raw == if storage.Heap? && op.zero then Repeat(0, |op.junk|) else op.junk
    ensures
      var tagged := Splice(Splice(mem, base, raw), base, [cfg.Key(storage)]);
      var fill := StackFill(cfg, op.kind, op.zero);
      Splice(mem, base, BlockBytes(cfg, op, storage)) ==
      if storage.Stack? && fill.Some? then Splice(tagged, base + ALIGN, Repeat(fill.value, op.s)) else tagged
  {
  }

  class Machine {
    const cfg: Config
    const mem: array<byte>
    var blocks: map<int, Block>
    var frame: nat
    var log: seq<Event>
    ghost var live: map<int, nat>

    constructor (cfg: Config)
      ensures this.cfg == cfg && Init(cfg, Snapshot()) && Inv(cfg, Snapshot()) && fresh(mem)
    {
      this.cfg := cfg;
      mem := new byte[cfg.Space()](_ => 0);
      blocks, frame, log, live := map[], 0, [], map[];
      new;
      assert HeapBases(blocks) == {};
    }

    ghost function Snapshot(): State
      reads this, mem
    {
      State(mem[..], blocks, live, frame, log)
    }

    // ---- The services underneath ------------------------------------------------------------

    method Store(base: int, bytes: seq<byte>)
      requires 0 <= base && base + |bytes| <= mem.Length
      modifies mem
      ensures mem[..] == Splice(old(mem[..]), base, bytes)
    {
      for i := 0 to |bytes|
        invariant mem[..] == Splice(old(mem[..]), base, bytes[..i])
      {
        mem[base + i] := bytes[i];
      }
      assert bytes[..|bytes|] == bytes;
    }

    method Memset(p: int, b: byte, n: nat)
      requires 0 <= p && p + n <= mem.Length
      modifies mem
      ensures mem[..] == Splice(old(mem[..]), p, Repeat(b, n))
    {
      for i := 0 to n
        invariant mem[..] == Splice(old(mem[..]), p, Repeat(b, i))
      {
        mem[p + i] := b;
      }
    }

    /** malloc and calloc: refused, or a fresh block at the address given. */
    method HybridMalloc(n: nat, answer: Option<int>, junk: seq<byte>, zero: bool) returns (res: int)
      requires answer.Some? ==> |junk| == n && Vacant(Snapshot(), answer.value, n)
      modifies this`blocks, this`log, mem
      ensures answer.None? ==> res == 0 && mem[..] == old(mem[..]) && blocks == old(blocks)
                               && log == old(log) + [Refused(n)]
      ensures answer.Some? ==>
                && res == answer.value
                && mem[..] == Splice(old(mem[..]), res, if zero then Repeat(0, n) else junk)
                && blocks == old(blocks)[res := Block(n, Heap, frame)] && log == old(log) + [Allocated(res)]
    {
      if answer.None? {
        log := log + [Refused(n)];
        return 0;
      }
      res := answer.value;
      if zero { Memset(res, 0, n); } else { Store(res, junk); }
      blocks, log := blocks[res := Block(n, Heap, frame)], log + [Allocated(res)];
    }

    method Alloca(n: nat, base: int, junk: seq<byte>) returns (res: int)
      requires |junk| == n && Vacant(Snapshot(), base, n)
      modifies this`blocks, mem
      ensures res == base && mem[..] == Splice(old(mem[..]), base, junk)
      ensures blocks == old(blocks)[base := Block(n, Stack, frame)]
    {
      res := base;
      Store(base, junk);
      blocks := blocks[base := Block(n, Stack, frame)];
    }

    method HybridFree(base: int)
      modifies this`blocks, this`log
      ensures blocks == old(blocks) - {base} && log == old(log) + [Freed(base)]
    {
      blocks, log := blocks - {base}, log + [Freed(base)];
    }

    /** __AMALLOC_SKEW_ALLOCA */
    method Skew(p: int, n: nat)
      requires 0 <= p && p + n <= mem.Length
      modifies mem
      ensures mem[..] == if cfg.ndebug then old(mem[..]) else Splice(old(mem[..]), p, Repeat(0xcd, n))
    {
      if !cfg.ndebug { Memset(p, 0xcd, n); }
    }

    method Tag(p: int, storage: Storage)
      requires 0 <= p < mem.Length
      modifies mem
      ensures mem[..] == Splice(old(mem[..]), p, [cfg.Key(storage)])
    {
      mem[p] := cfg.Key(storage);
    }

    // ---- The statement-expression form ------------------------------------------------------

    /** __amalloc, __acalloc and their _stack and _heap variants as statement expressions. */
    method XBlock(kind: Kind, zero: bool, s: nat, heap: Option<int>, stack: int, junk: seq<byte>) returns (res: int)
      requires !kind.NoFail? && Legal(cfg, Snapshot(), Alloc(kind, zero, s, heap, stack, junk))
      modifies this, mem
      ensures Snapshot() == Step(cfg, old(Snapshot()), Alloc(kind, zero, s, heap, stack, junk))
      ensures res == Returned(cfg, Alloc(kind, zero, s, heap, stack, junk))
      ensures kind.Auto? ==> (log != old(log) <==> XBlockTakesHeap(cfg, s))
    {
      var n := (s + ALIGN) % cfg.Space();
      if kind.OnHeap? || (kind.Auto? && XBlockTakesHeap(cfg, s)) {
        res := XBlockHeap(n, Alloc(kind, zero, s, heap, stack, junk));
      } else {
        res := XBlockStack(n, Alloc(kind, zero, s, heap, stack, junk));
      }
    }

    /** The heap branch of the statement expressions */
    method XBlockHeap(n: nat, op: Op) returns (res: int)
      requires op.Alloc? && !op.kind.NoFail? && Legal(cfg, Snapshot(), op) && n == op.s + ALIGN
               && WantsHeap(cfg, op.kind, op.s)
      modifies this, mem
      ensures Snapshot() == Step(cfg, old(Snapshot()), op) && res == Returned(cfg, op)
    {
      res := HybridMalloc(n, op.heap, op.junk, op.zero);
      if res != 0 {
        Tag(res, Heap);
        res := res + ALIGN;
        live := live[res := op.s];
        Assembled(cfg, old(mem[..]), op.heap.value, op, Heap, if op.zero then Repeat(0, n) else op.junk);
      }
    }

    /** The stack branch of the statement expressions */
    method XBlockStack(n: nat, op: Op) returns (res: int)
      requires op.Alloc? && !op.kind.NoFail? && Legal(cfg, Snapshot(), op) && n == op.s + ALIGN
               && !WantsHeap(cfg, op.kind, op.s)
      modifies this, mem
      ensures Snapshot() == Step(cfg, old(Snapshot()), op) && res == Returned(cfg, op)
    {
      res := Alloca(n, op.stack, op.junk);
      Tag(res, Stack);
      res := res + ALIGN;
      if op.zero { Memset(res, 0, n - ALIGN); } else { Skew(res, n - ALIGN); }
      live := live[res := op.s];
      Assembled(cfg, old(mem[..]), op.stack, op, Stack, op.junk);
    }

    // ---- The function form ------------------------------------------------------------------

    /** __local_amalloc_heap and __local_acalloc_heap */
    method LocalHeap(op: Op) returns (res: int)
      requires op.Alloc? && !op.kind.NoFail? && Legal(cfg, Snapshot(), op) && WantsHeap(cfg, op.kind, op.s)
      modifies this, mem
      ensures Snapshot() == Step(cfg, old(Snapshot()), op) && res == Returned(cfg, op)
    {
      var n := (op.s + ALIGN) % cfg.Space();
      res := HybridMalloc(n, op.heap, op.junk, op.zero);
      if res != 0 {
        Tag(res, Heap);
        res := res + ALIGN;
        live := live[res := op.s];
        Assembled(cfg, old(mem[..]), op.heap.value, op, Heap, if op.zero then Repeat(0, n) else op.junk);
      }
    }

    /** __local_aminit_stack and __local_acinit_stack over a block from alloca */
    method LocalStack(op: Op) returns (res: int)
      requires op.Alloc? && !op.kind.NoFail? && Legal(cfg, Snapshot(), op) && !WantsHeap(cfg, op.kind, op.s)
      modifies this, mem
      ensures Snapshot() == Step(cfg, old(Snapshot()), op) && res == Returned(cfg, op)
    {
      var block := Alloca((op.s + ALIGN) % cfg.Space(), op.stack, op.junk);
      Tag(block, Stack);
      res := block + ALIGN;
      if op.zero { Memset(res, 0, op.s); } else { Skew(res, op.s); }
      live := live[res := op.s];
      Assembled(cfg, old(mem[..]), op.stack, op, Stack, op.junk);
    }

    /** __amalloc and __acalloc of the function form, which compare the size without its header. */
    method Local(zero: bool, s: nat, heap: Option<int>, stack: int, junk: seq<byte>) returns (res: int)
      requires Legal(cfg, Snapshot(), Alloc(Auto, zero, s, heap, stack, junk))
      modifies this, mem
      ensures Snapshot() == Step(cfg, old(Snapshot()), Alloc(Auto, zero, s, heap, stack, junk))
      ensures res == Returned(cfg, Alloc(Auto, zero, s, heap, stack, junk))
      ensures log != old(log) <==> LocalTakesHeap(cfg, s)
    {
      if LocalTakesHeap(cfg, s) {
        res := LocalHeap(Alloc(Auto, zero, s, heap, stack, junk));
      } else {
        res := LocalStack(Alloc(Auto, zero, s, heap, stack, junk));
      }
    }

    // ---- The no-fail form -------------------------------------------------------------------

    /** __amalloc_nofail and __acalloc_nofail */
    method NoFailForm(zero: bool, s: nat, heap: Option<int>, stack: int, junk: seq<byte>) returns (p: int)
      requires Legal(cfg, Snapshot(), Alloc(NoFail, zero, s, heap, stack, junk))
      modifies this, mem
      ensures Snapshot() == Step(cfg, old(Snapshot()), Alloc(NoFail, zero, s, heap, stack, junk))
      ensures p == Returned(cfg, Alloc(NoFail, zero, s, heap, stack, junk))
    {
      ghost var op := Alloc(NoFail, zero, s, heap, stack, junk);
      var n := (s + ALIGN) % cfg.Space();
      p := 0;
      if n > cfg.Max() {
        p := HybridMalloc(n, heap, junk, zero);
      }
      if p != 0 {
        Tag(p, Heap);
        p := p + ALIGN;
        Assembled(cfg, old(mem[..]), heap.value, op, Heap, if zero then Repeat(0, n) else junk);
      } else {
        p := Alloca(n, stack, junk);
        Tag(p, Stack);
        p := p + ALIGN;
        if zero { Skew(p, n - ALIGN); } else { Memset(p, 0, n - ALIGN); }
        Assembled(cfg, old(mem[..]), stack, op, Stack, junk);
      }
      live := live[p := s];
    }

    // ---- Release ----------------------------------------------------------------------------

    /** __afree. The assertion of debug builds never fires. */
    method Afree(p: int)
      requires Inv(cfg, Snapshot()) && p in live
      modifies this
      ensures Snapshot() == Step(cfg, old(Snapshot()), Free(p))
    {
      assert Tagged(cfg, Snapshot(), p);
      FreeDecides(cfg, Snapshot(), p);
      var key := mem[p - ALIGN];
      assert cfg.AssertsOk(key);
      if cfg.MustFree(key) {
        HybridFree(p - ALIGN);
      }
      live := live - {p};
    }
  }

  // ---- The two forms compared ---------------------------------------------------------------

  /** Whether each form goes to the heap for a size of any value that a size_t can hold. */
  predicate XBlockTakesHeap(cfg: Config, s: nat) {
    (s + ALIGN) % cfg.Space() > cfg.Max()
  }

  predicate LocalTakesHeap(cfg: Config, s: nat) {
    s > cfg.Max() - ALIGN
  }

  /** The forms choose the same storage exactly for the sizes that leave room for the header. For
      the others one takes a few bytes of stack where the other goes to the heap. */
  lemma FormsAgreeUnlessSizeWraps(cfg: Config, s: nat)
    requires s < if cfg.wide then 0x1_0000_0000_0000_0000 else 0x1_0000_0000
    ensures
      var words := if cfg.wide then 0x1_0000_0000_0000_0000 else 0x1_0000_0000;
      && (LocalTakesHeap(cfg, s) <==> s > if cfg.kernel then 248 else 4088)
      && ((XBlockTakesHeap(cfg, s) <==> LocalTakesHeap(cfg, s)) <==> s + 8 < words)
      && (s + 8 >= words ==> !XBlockTakesHeap(cfg, s) && (s + 8) % words < 8)
  {
    if s + ALIGN >= cfg.Space() {
      assert (s + ALIGN) % cfg.Space() == s + ALIGN - cfg.Space();
    }
  }
}
