// The heap and the profiler as they are written: globals, a slab pointer that advances, and
// list nodes written to memory.
module HeapProfiler {
  import opened HeapModel
  import opened Words
  import opened HeapSafety

  class Profiler {
    const layout: Layout
    var heap_end: nat
    var mcount_slab_ptr: nat
    var mcount_slab_size: nat
    const mcount_fn_head: array<nat>
    var mem: map<nat, Node>           // the list nodes in the heap
    ghost var blocks: seq<Block>
    ghost var owner: map<nat, nat>

    ghost predicate Valid()
      reads this, mcount_fn_head
    {
      mcount_fn_head.Length == BUCKETS && Inv(layout, Now())
    }

    ghost function Now(): State
      reads this, mcount_fn_head
      requires mcount_fn_head.Length == BUCKETS
    {
      State(heap_end, mcount_slab_ptr, mcount_slab_size, mcount_fn_head[..], mem, blocks, owner)
    }

    constructor (l: Layout)
      requires Sensible(l)
      ensures Valid() && fresh(mcount_fn_head) && layout == l && Now() == Boot(l)
    {
      layout, heap_end, mcount_slab_ptr, mcount_slab_size := l, l.start, 0, 0;
      mcount_fn_head := new nat[64](_ => 0);
      mem, blocks, owner := map[], [], map[];
      new;
      BootIsFine(l);
      assert mcount_fn_head[..] == seq(64, _ => 0);
    }

    /** ALT_SBRK */
    method Extend(incr: s32, ghost slab: bool) returns (p: nat)
      requires mcount_fn_head.Length == BUCKETS
      modifies this`heap_end, this`blocks
      ensures (Now(), p) == HeapModel.Sbrk(layout, old(Now()), incr, slab)
    {
      heap_end := (heap_end + 3) / 4 * 4;
      if (heap_end + incr) % WORD > layout.limit {
        return FAILED;
      }
      var prev_heap_end := heap_end;
      heap_end := (heap_end + incr) % WORD;
      if incr >= 0 {
        blocks := blocks + [Block(prev_heap_end, incr, slab)];
      }
      return prev_heap_end;
    }

    /** mcount_allocate */
    method AllocateNode() returns (data: nat)
      requires mcount_fn_head.Length == BUCKETS
      modifies this`heap_end, this`blocks, this`mcount_slab_ptr, this`mcount_slab_size
      ensures (Now(), data) == Allocate(layout, old(Now()))
    {
      if NODE > mcount_slab_size {
        mcount_slab_ptr := Extend(INCREMENT, true);
        mcount_slab_size := INCREMENT;
      }
      data := mcount_slab_ptr;
      mcount_slab_ptr := (mcount_slab_ptr + NODE) % WORD;
      mcount_slab_size := mcount_slab_size - NODE;
    }

    /** A search along the next pointers, as the assembler code makes it. */
    method Search(head: nat, pc: u32) returns (p: nat)
      requires mcount_fn_head.Length == BUCKETS && Lists(Now()) && (head == 0 || head in mem)
      ensures p == Find(mem, head, pc)
    {
      hide Find;
      p := head;
      FindNone(mem, pc);
      while p != 0
        invariant p == 0 || p in mem
        invariant Find(mem, p, pc) == Find(mem, head, pc)
      {
        assert NodeOk(Now(), p);
        FindStep(mem, p, pc);
        if mem[p].pc == pc { return; }
        p := mem[p].next;
      }
    }

    /** __mcount_record */
    method McountRecord(pc: u32, from: u32, fn: nat)
      requires Valid() && Recordable(layout, Now(), pc, from)
      requires fn == FindFn(Now(), pc) && FindArc(Now(), fn, from) == 0
      modifies this, mcount_fn_head
      ensures Valid() && Now() == Record(layout, old(Now()), pc, from, fn)
    {
      hide Find, Allocate, Memory, NodeOk, Count, HasRoom;
      RecordEffect(layout, Now(), pc, from);
      Searches(Now(), pc, from);
      ghost var s := Now();
      var entry := fn;
      if entry == 0 {
        entry := AllocateNode();
        ghost var t := Now();
        var b := Bucket(pc);
        mem := mem[entry := Fn(mcount_fn_head[b], pc, 0)];
        mcount_fn_head[b] := entry;
        assert Now() == PushFn(t, entry, pc);
      }
      assert (Now(), entry) == Entered(layout, s, pc, fn);
      ghost var u := Now();
      assert entry in mem && mem[entry].Fn?;
      var arc := AllocateNode();
      ghost var v := Now();
      mem := mem[arc := Arc(mem[entry].arcs, from, 1)][entry := mem[entry].(arcs := arc)];
      owner := owner[arc := entry];
      assert Now() == PushArc(v, arc, entry, from);
    }

    /** mcount */
    method Mcount(pc: u32, from: u32)
      requires Valid() && Recordable(layout, Now(), pc, from)
      modifies this, mcount_fn_head
      ensures Valid() && Now() == HeapModel.Mcount(layout, old(Now()), pc, from)
      ensures forall x: u32, y: u32 ::
                Count(Now(), x, y) ==
                if x == pc && y == from then (old(Count(Now(), pc, from)) + 1) % WORD else old(Count(Now(), x, y))
    {
      hide Find, Memory, NodeOk, Count, Record, Recordable;
      CallIsCounted(layout, Now(), pc, from);
      Searches(Now(), pc, from);
      var fn := Search(mcount_fn_head[Bucket(pc)], pc);
      if fn != 0 {
        FunctionHasArcs(Now(), fn);
        var arc := Search(mem[fn].arcs, from);
        if arc != 0 {
          mem := mem[arc := mem[arc].(count := (mem[arc].count + 1) % WORD)];
          return;
        }
      }
      McountRecord(pc, from, fn);
    }
  }

  lemma FunctionHasArcs(s: State, f: nat)
    requires Lists(s) && Called(s) && f in s.mem && s.mem[f].Fn?
    ensures s.mem[f].arcs != 0 && s.mem[f].arcs in s.mem
  {
    hide Find;
    assert NodeOk(s, f);
  }
}
