// The break allocator, the slab allocator of the profiler that sits on top of it, and the call
// graph that the profiler keeps in slab memory.  Addresses are numbers, 0 is NULL, and a node
// of either list is a record at an address.
module HeapModel {
  import opened Words

  const INCREMENT := 1020   // MCOUNT_SLAB_INCREMENT
  const NODE := 12          // bytes of either list node
  const BUCKETS := 64       // HASH_BUCKETS
  const FAILED := 0xFFFF_FFFF   // (caddr_t)-1

  /** Where the linker put the heap. */
  datatype Layout = Layout(start: nat, limit: nat)

  /** The heap does not reach the last kilobyte of the address space. */
  predicate Sensible(l: Layout) { 0 < l.start <= l.limit <= WORD - 1024 }

  /** A successful extension of the heap, by the profiler (a slab) or by somebody else. */
  datatype Block = Block(addr: nat, len: nat, slab: bool)

  /** mcount_fn_entry and mcount_fn_arc. */
  datatype Node = Fn(next: nat, pc: u32, arcs: nat) | Arc(next: nat, pc: u32, count: u32)

  type Heads = h: seq<nat> | |h| == 64 witness seq(64, _ => 0)

  /** The globals, and for the sake of the proofs the blocks handed out and the function that
      an arc belongs to. */
  datatype State = State(end: nat, slab: nat, left: nat, heads: Heads, mem: map<nat, Node>,
                         blocks: seq<Block>, owner: map<nat, nat>)

  function Boot(l: Layout): State { State(l.start, 0, 0, seq(64, _ => 0), map[], [], map[]) }

  // ---------------------------------------------------------------- allocators

  function Aligned(addr: nat): nat { (addr + 3) / 4 * 4 }

  /** The new end that is asked for, added up in 32 bits. */
  function NewEnd(s: State, incr: s32): nat { (Aligned(s.end) + incr) % WORD }

  predicate Fits(l: Layout, s: State, incr: s32) { NewEnd(s, incr) <= l.limit }

  /** ALT_SBRK.  The end is rounded up even on failure; a negative increment gives memory back. */
  function Sbrk(l: Layout, s: State, incr: s32, slab: bool): (State, nat) {
    var prev := Aligned(s.end);
    if Fits(l, s, incr) then
      (s.(end := NewEnd(s, incr), blocks := if incr < 0 then s.blocks else s.blocks + [Block(prev, incr, slab)]), prev)
    else (s.(end := prev), FAILED)
  }

  /** A request that is refused, or adds up without a carry, or gives back only memory that
      nobody has. */
  predicate Sound(l: Layout, s: State, incr: s32) {
    Fits(l, s, incr) ==>
      if incr >= 0 then Aligned(s.end) + incr < WORD
      else l.start <= NewEnd(s, incr) && forall b <- s.blocks :: b.addr + b.len <= NewEnd(s, incr)
  }

  /** The slab to allocate a node from, after fetching another one if need be. */
  function Refilled(l: Layout, s: State): State {
    if NODE > s.left then
      var (t, p) := Sbrk(l, s, INCREMENT, true);
      t.(slab := p, left := INCREMENT)
    else s
  }

  /** mcount_allocate for a node. */
  function Allocate(l: Layout, s: State): (State, nat) {
    var t := Refilled(l, s);
    (t.(slab := (t.slab + NODE) % WORD, left := t.left - NODE), t.slab)
  }

  /** The slab, or a new one, has room for a node. */
  predicate HasRoom(l: Layout, s: State) { NODE <= s.left || Fits(l, s, INCREMENT) }

  // ---------------------------------------------------------------- the call graph

  function Bucket(pc: u32): (b: nat)
    ensures b < 64
  {
    pc / 32 % BUCKETS
  }

  /** The first node from p on with this pc, or NULL. */
  function Find(mem: map<nat, Node>, p: nat, pc: u32): nat
    decreases p
  {
    if p !in mem then 0
    else if mem[p].pc == pc then p
    else if mem[p].next < p then Find(mem, mem[p].next, pc)
    else 0
  }

  /** A new function entry at address p. */
  function PushFn(s: State, p: nat, pc: u32): State {
    var b := Bucket(pc);
    s.(mem := s.mem[p := Fn(s.heads[b], pc, 0)], heads := s.heads[b := p])
  }

  /** A new arc at address q, in front of the arcs of f. */
  function PushArc(s: State, q: nat, f: nat, from: u32): State {
    if f in s.mem && s.mem[f].Fn? then
      s.(mem := s.mem[q := Arc(s.mem[f].arcs, from, 1)][f := s.mem[f].(arcs := q)], owner := s.owner[q := f])
    else s
  }

  /** The function entry to hang an arc on: f, or a new one if f is NULL. */
  function Entered(l: Layout, s: State, pc: u32, f: nat): (State, nat) {
    if f == 0 then
      var (t, p) := Allocate(l, s);
      (PushFn(t, p, pc), p)
    else (s, f)
  }

  /** __mcount_record */
  function Record(l: Layout, s: State, pc: u32, from: u32, f: nat): State {
    var (t, g) := Entered(l, s, pc, f);
    var (u, q) := Allocate(l, t);
    PushArc(u, q, g, from)
  }

  function Bump(s: State, a: nat): State {
    if a in s.mem && s.mem[a].Arc? then
      s.(mem := s.mem[a := s.mem[a].(count := (s.mem[a].count + 1) % WORD)])
    else s
  }

  function FindFn(s: State, pc: u32): nat { Find(s.mem, s.heads[Bucket(pc)], pc) }

  function FindArc(s: State, f: nat, from: u32): nat {
    if f in s.mem && s.mem[f].Fn? then Find(s.mem, s.mem[f].arcs, from) else 0
  }

  /** mcount: the function at pc is called from a call site. */
  function Mcount(l: Layout, s: State, pc: u32, from: u32): State {
    var f := FindFn(s, pc);
    var a := FindArc(s, f, from);
    if a != 0 then Bump(s, a) else Record(l, s, pc, from, f)
  }

  /** The call makes no node, or the slabs have room for the nodes it makes. */
  predicate Recordable(l: Layout, s: State, pc: u32, from: u32) {
    var f := FindFn(s, pc);
    FindArc(s, f, from) != 0
    || (if f != 0 then HasRoom(l, s)
        else HasRoom(l, s) && HasRoom(l, PushFn(Allocate(l, s).0, Allocate(l, s).1, pc)))
  }

  // ---------------------------------------------------------------- runs

  datatype Request = Extend(incr: s32) | Call(pc: u32, from: u32)

  function Perform(l: Layout, s: State, r: Request): State {
    match r
    case Extend(incr) => Sbrk(l, s, incr, false).0
    case Call(pc, from) => Mcount(l, s, pc, from)
  }

  function Run(l: Layout, rs: seq<Request>): State {
    if rs == [] then Boot(l) else Perform(l, Run(l, rs[..|rs| - 1]), rs[|rs| - 1])
  }

  predicate Supported(l: Layout, s: State, r: Request) {
    match r
    case Extend(incr) => Sound(l, s, incr)
    case Call(pc, from) => Recordable(l, s, pc, from)
  }

  /** The heap never runs out under the profiler, and other callers, who may be refused, make
      sound requests only. */
  predicate NeverExhausted(l: Layout, rs: seq<Request>) {
    rs == []
    || (NeverExhausted(l, rs[..|rs| - 1]) && Supported(l, Run(l, rs[..|rs| - 1]), rs[|rs| - 1]))
  }

  /** What the graph says about a call site. */
  function Count(s: State, pc: u32, from: u32): u32 {
    var a := FindArc(s, FindFn(s, pc), from);
    if a in s.mem && s.mem[a].Arc? then s.mem[a].count else 0
  }

  /** How often the call really happened. */
  function Calls(rs: seq<Request>, pc: u32, from: u32): nat {
    if rs == [] then 0
    else Calls(rs[..|rs| - 1], pc, from) + (if rs[|rs| - 1] == Call(pc, from) then 1 else 0)
  }
}
