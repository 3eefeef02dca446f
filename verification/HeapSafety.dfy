// Every block and every node has memory of its own, and the call graph counts every call.
module HeapSafety {
  import opened HeapModel
  import opened Words

  // ---------------------------------------------------------------- memory

  ghost predicate InSlab(blocks: seq<Block>, addr: nat, len: nat) {
    exists b <- blocks :: b.slab && b.addr <= addr && addr + len <= b.addr + b.len
  }

  ghost predicate BlocksOk(l: Layout, s: State) {
    && l.start <= s.end <= l.limit + 3 && (s.end <= l.limit || s.end % 4 == 0)
    && (forall b <- s.blocks ::
          b.addr % 4 == 0 && l.start <= b.addr && b.addr + b.len <= l.limit && b.addr + b.len <= s.end)
    && (forall i, j | 0 <= i < j < |s.blocks| :: s.blocks[i].addr + s.blocks[i].len <= s.blocks[j].addr)
  }

  ghost predicate SlabOk(s: State) {
    && s.slab % 4 == 0
    && (s.left > 0 ==> InSlab(s.blocks, s.slab, s.left))
  }

  ghost predicate NodesOk(s: State) {
    && (forall a <- s.mem :: a % 4 == 0 && InSlab(s.blocks, a, NODE) && a + NODE <= s.slab)
    && (forall a <- s.mem, b <- s.mem :: a < b ==> a + NODE <= b)
  }

  ghost predicate Memory(l: Layout, s: State) { Sensible(l) && BlocksOk(l, s) && SlabOk(s) && NodesOk(s) }

  /** A request keeps blocks and nodes apart if and only if it is sound. */
  lemma RequestIsSoundExactlyWhen(l: Layout, s: State, incr: s32, slab: bool)
    requires Memory(l, s)
    ensures Memory(l, Sbrk(l, s, incr, slab).0) <==> Sound(l, s, incr)
    ensures var (t, p) := Sbrk(l, s, incr, slab);
            && t.mem == s.mem && t.heads == s.heads && t.owner == s.owner
            && (incr >= 0 && Fits(l, s, incr) ==>
                  p % 4 == 0 && p >= s.end && t.blocks == s.blocks + [Block(p, incr, slab)])
  {
    hide InSlab;
    var t := Sbrk(l, s, incr, slab).0;
    forall a, n: nat | InSlab(s.blocks, a, n) ensures InSlab(t.blocks, a, n) {
      MoreBlocks(s.blocks, t.blocks, a, n);
    }
    if incr >= 0 && Fits(l, s, incr) {
      assert t.blocks[|s.blocks|] == Block(Aligned(s.end), incr, slab);
      assert Block(Aligned(s.end), incr, slab) in t.blocks;
    }
  }

  /** Below 2^31 no sum wraps: extending the heap is always sound. */
  lemma LowHeapsAreSound(l: Layout, s: State, incr: s32)
    requires Memory(l, s) && l.limit <= INT_MAX && incr >= 0
    ensures Sound(l, s, incr)
  {
  }

  /** A huge request on a heap above 2^31: it is accepted, and the heap ends before its start. */
  lemma HugeRequestWraps()
    ensures var l := Layout(0x9000_0000, 0x9010_0000);
            var t := Sbrk(l, Boot(l), 0x7FFF_FFFF, false).0;
            Fits(l, Boot(l), 0x7FFF_FFFF) && t.end == 0x0FFF_FFFF < l.start && !Memory(l, t)
  {
  }

  lemma MoreBlocks(blocks: seq<Block>, more: seq<Block>, a: nat, n: nat)
    requires InSlab(blocks, a, n) && blocks <= more
    ensures InSlab(more, a, n)
  {
    var b :| b in blocks && b.slab && b.addr <= a && a + n <= b.addr + b.len;
    assert b in more;
  }

  /** A fresh place for a node. */
  ghost predicate Fresh(s: State, p: nat) {
    && p > 0 && p % 4 == 0 && p + NODE <= s.slab && InSlab(s.blocks, p, NODE)
    && forall a <- s.mem :: a + NODE <= p
  }

  lemma RefillKeepsMemory(l: Layout, s: State)
    requires Memory(l, s) && HasRoom(l, s)
    ensures var t := Refilled(l, s);
            && Memory(l, t) && t.left >= NODE
            && t.mem == s.mem && t.heads == s.heads && t.owner == s.owner
  {
    if NODE > s.left {
      RequestIsSoundExactlyWhen(l, s, INCREMENT, true);
      SlabsAreBelow(l, s);
      var (t, p) := Sbrk(l, s, INCREMENT, true);
      assert t.blocks[|s.blocks|] == Block(p, INCREMENT, true);
      assert Block(p, INCREMENT, true) in t.blocks;
    }
  }

  lemma SlabsAreBelow(l: Layout, s: State)
    requires Memory(l, s)
    ensures forall a <- s.mem :: a + NODE <= s.end
  {
  }

  lemma AllocateGivesFresh(l: Layout, s: State)
    requires Memory(l, s) && HasRoom(l, s)
    ensures var (t, p) := Allocate(l, s);
            && Memory(l, t) && Fresh(t, p)
            && t.mem == s.mem && t.heads == s.heads && t.owner == s.owner
  {
    hide Refilled, Memory;
    RefillKeepsMemory(l, s);
    TakeFromSlab(l, Refilled(l, s));
  }

  lemma TakeFromSlab(l: Layout, s: State)
    requires Memory(l, s) && s.left >= NODE
    ensures var t := s.(slab := (s.slab + NODE) % WORD, left := s.left - NODE);
            Memory(l, t) && Fresh(t, s.slab)
  {
    hide InSlab;
    SlabParts(s.blocks, s.slab, s.left, NODE);
    SlabIsInHeap(l, s, s.slab, s.left);
  }

  lemma SlabParts(blocks: seq<Block>, a: nat, n: nat, k: nat)
    requires InSlab(blocks, a, n) && k <= n
    ensures InSlab(blocks, a, k) && InSlab(blocks, a + k, n - k)
  {
  }

  lemma SlabIsInHeap(l: Layout, s: State, a: nat, n: nat)
    requires InSlab(s.blocks, a, n) && BlocksOk(l, s)
    ensures l.start <= a
  {
  }

  /** A node has memory of its own exactly when the heap had room for it; otherwise it is
      written to the last address there is. */
  lemma AllocationIsSoundExactlyWhen(l: Layout, s: State)
    requires Memory(l, s)
    ensures var (t, p) := Allocate(l, s);
            && (HasRoom(l, s) <==> InSlab(t.blocks, p, NODE))
            && (!HasRoom(l, s) ==> p == FAILED)
  {
    if HasRoom(l, s) {
      AllocateGivesFresh(l, s);
    } else {
      var (t, p) := Allocate(l, s);
      assert forall b <- t.blocks :: b.addr + b.len <= l.limit;
    }
  }

  lemma PushKeepsMemory(l: Layout, s: State, p: nat, mem: map<nat, Node>)
    requires Memory(l, s) && Fresh(s, p) && mem.Keys == s.mem.Keys + {p}
    ensures Memory(l, s.(mem := mem))
  {
    hide InSlab;
  }

  // ---------------------------------------------------------------- lists

  ghost predicate NodeOk(s: State, a: nat)
    requires a in s.mem
  {
    var n := s.mem[a];
    && (n.next != 0 ==> n.next in s.mem && n.next < a && (s.mem[n.next].Fn? <==> n.Fn?))
    && (n.Fn? ==> n.arcs != 0 ==> n.arcs in s.mem && s.mem[n.arcs].Arc? && n.arcs in s.owner && s.owner[n.arcs] == a)
    && (n.Arc? ==> a in s.owner && (n.next != 0 ==> n.next in s.owner && s.owner[n.next] == s.owner[a]))
    && Find(s.mem, n.next, n.pc) == 0
  }

  ghost predicate Lists(s: State) {
    && 0 !in s.mem
    && (forall a <- s.mem :: NodeOk(s, a))
    && (forall b | 0 <= b < 64 :: s.heads[b] != 0 ==> s.heads[b] in s.mem && s.mem[s.heads[b]].Fn?)
  }

  /** Every function in the graph has been called from somewhere. */
  ghost predicate Called(s: State) { forall f <- s.mem :: s.mem[f].Fn? ==> s.mem[f].arcs != 0 }

  /** Searching sees the links and the pcs of old nodes only. */
  ghost predicate SameLinks(mem: map<nat, Node>, mem': map<nat, Node>) {
    && 0 !in mem'
    && forall a <- mem :: a in mem' && mem'[a].next == mem[a].next && mem'[a].pc == mem[a].pc
                          && (mem[a].next != 0 ==> mem[a].next in mem)
  }

  lemma {:induction false} FindSame(mem: map<nat, Node>, mem': map<nat, Node>, p: nat, pc: u32)
    requires SameLinks(mem, mem') && (p == 0 || p in mem)
    ensures Find(mem', p, pc) == Find(mem, p, pc)
    decreases p
  {
    if p != 0 && mem[p].pc != pc && mem[p].next < p {
      FindSame(mem, mem', mem[p].next, pc);
    }
  }

  lemma {:induction false} FindsFn(s: State, p: nat, pc: u32)
    requires Lists(s) && (p == 0 || (p in s.mem && s.mem[p].Fn?))
    ensures var f := Find(s.mem, p, pc); f != 0 ==> f in s.mem && s.mem[f].Fn? && s.mem[f].pc == pc
    decreases p
  {
    if p != 0 {
      assert NodeOk(s, p);
      if s.mem[p].pc != pc { FindsFn(s, s.mem[p].next, pc); }
    }
  }

  lemma {:induction false} FindsArc(s: State, p: nat, pc: u32, f: nat)
    requires Lists(s) && (p == 0 || (p in s.mem && s.mem[p].Arc? && p in s.owner && s.owner[p] == f))
    ensures var a := Find(s.mem, p, pc);
            a != 0 ==> a in s.mem && s.mem[a].Arc? && s.mem[a].pc == pc && a in s.owner && s.owner[a] == f
    decreases p
  {
    if p != 0 {
      assert NodeOk(s, p);
      if s.mem[p].pc != pc { FindsArc(s, s.mem[p].next, pc, f); }
    }
  }

  /** What the two searches of mcount come upon. */
  lemma Searches(s: State, pc: u32, from: u32)
    requires Lists(s)
    ensures var f := FindFn(s, pc);
            && (f != 0 ==> f in s.mem && s.mem[f].Fn? && s.mem[f].pc == pc)
            && var a := FindArc(s, f, from);
               a != 0 ==>
                 f != 0 && a in s.mem && s.mem[a].Arc? && s.mem[a].pc == from && a in s.owner && s.owner[a] == f
  {
    hide Find;
    FindsFn(s, s.heads[Bucket(pc)], pc);
    var f := FindFn(s, pc);
    if f != 0 {
      assert NodeOk(s, f);
      FindsArc(s, s.mem[f].arcs, from, f);
    }
  }

  // ---------------------------------------------------------------- three ways to change the graph

  lemma BumpEffect(s: State, pc: u32, from: u32)
    requires Lists(s) && FindArc(s, FindFn(s, pc), from) != 0
    ensures var t := Bump(s, FindArc(s, FindFn(s, pc), from));
            && Lists(t) && t.mem.Keys == s.mem.Keys && (Called(s) ==> Called(t))
            && forall pc': u32, from': u32 ::
                 Count(t, pc', from') ==
                 if pc' == pc && from' == from then (Count(s, pc, from) + 1) % WORD else Count(s, pc', from')
  {
    hide Find, NodeOk, Lists, Count;
    Searches(s, pc, from);
    var a := FindArc(s, FindFn(s, pc), from);
    BumpLists(s, a);
    forall pc': u32, from': u32
      ensures Count(Bump(s, a), pc', from') ==
              if pc' == pc && from' == from then (Count(s, pc, from) + 1) % WORD else Count(s, pc', from')
    {
      Searches(s, pc', from');
      BumpCounts(s, a, pc', from');
      BumpCounts(s, a, pc, from);
    }
  }

  lemma BumpLists(s: State, a: nat)
    requires Lists(s) && a in s.mem && s.mem[a].Arc?
    ensures var t := Bump(s, a); Lists(t) && t.mem.Keys == s.mem.Keys && (Called(s) ==> Called(t))
    ensures forall pc: u32 :: FindFn(Bump(s, a), pc) == FindFn(s, pc)
    ensures forall f: nat, from: u32 :: FindArc(Bump(s, a), f, from) == FindArc(s, f, from)
  {
    hide Find, NodeOk;
    var t := Bump(s, a);
    OldLinks(s);
    SearchesSame(s, t);
    forall x <- t.mem ensures NodeOk(t, x) {
      BumpedNodeOk(s, a, x);
    }
  }

  lemma BumpedNodeOk(s: State, a: nat, x: nat)
    requires a in s.mem && s.mem[a].Arc? && x in s.mem && NodeOk(s, x)
    requires Find(Bump(s, a).mem, s.mem[x].next, s.mem[x].pc) == Find(s.mem, s.mem[x].next, s.mem[x].pc)
    ensures NodeOk(Bump(s, a), x)
  {
    hide Find;
  }

  lemma OldLinks(s: State)
    requires Lists(s)
    ensures forall a <- s.mem :: s.mem[a].next != 0 ==> s.mem[a].next in s.mem && s.mem[a].next < a
    ensures forall a <- s.mem :: s.mem[a].Fn? ==> s.mem[a].arcs != 0 ==> s.mem[a].arcs in s.mem
  {
    hide Find;
    forall a <- s.mem ensures s.mem[a].next != 0 ==> s.mem[a].next in s.mem && s.mem[a].next < a
                      ensures s.mem[a].Fn? ==> s.mem[a].arcs != 0 ==> s.mem[a].arcs in s.mem
    {
      assert NodeOk(s, a);
    }
  }

  lemma BumpCounts(s: State, a: nat, pc: u32, from: u32)
    requires a in s.mem && s.mem[a].Arc?
    requires FindFn(Bump(s, a), pc) == FindFn(s, pc)
    requires FindArc(Bump(s, a), FindFn(s, pc), from) == FindArc(s, FindFn(s, pc), from)
    ensures Count(Bump(s, a), pc, from) ==
            if FindArc(s, FindFn(s, pc), from) == a then (Count(s, pc, from) + 1) % WORD else Count(s, pc, from)
  {
    hide FindFn, FindArc;
  }

  /** A change that keeps links, pcs and heads of old nodes does not change old searches. */
  lemma SearchesSame(s: State, t: State)
    requires Lists(s) && SameLinks(s.mem, t.mem)
    ensures forall x <- s.mem, pc: u32 :: Find(t.mem, s.mem[x].next, pc) == Find(s.mem, s.mem[x].next, pc)
    ensures forall x <- s.mem, pc: u32 :: s.mem[x].Fn? ==>
              Find(t.mem, s.mem[x].arcs, pc) == Find(s.mem, s.mem[x].arcs, pc)
    ensures forall b, pc: u32 | 0 <= b < 64 :: Find(t.mem, s.heads[b], pc) == Find(s.mem, s.heads[b], pc)
  {
    hide Find;
    forall x <- s.mem, pc: u32
      ensures Find(t.mem, s.mem[x].next, pc) == Find(s.mem, s.mem[x].next, pc)
      ensures s.mem[x].Fn? ==> Find(t.mem, s.mem[x].arcs, pc) == Find(s.mem, s.mem[x].arcs, pc)
    {
      assert NodeOk(s, x);
      FindSame(s.mem, t.mem, s.mem[x].next, pc);
      if s.mem[x].Fn? { FindSame(s.mem, t.mem, s.mem[x].arcs, pc); }
    }
    forall b, pc: u32 | 0 <= b < 64 ensures Find(t.mem, s.heads[b], pc) == Find(s.mem, s.heads[b], pc) {
      FindSame(s.mem, t.mem, s.heads[b], pc);
    }
  }

  lemma FindStep(mem: map<nat, Node>, p: nat, pc: u32)
    requires p in mem && mem[p].next < p
    ensures Find(mem, p, pc) == if mem[p].pc == pc then p else Find(mem, mem[p].next, pc)
  {
  }

  lemma FindNone(mem: map<nat, Node>, pc: u32)
    requires 0 !in mem
    ensures Find(mem, 0, pc) == 0
  {
  }

  lemma PushFnEffect(s: State, p: nat, pc: u32)
    requires Lists(s) && FindFn(s, pc) == 0 && p > 0 && (forall a <- s.mem :: a < p)
    ensures var t := PushFn(s, p, pc);
            && Lists(t) && FindFn(t, pc) == p && FindArc(t, p, 0) == 0
            && (forall from: u32 :: FindArc(t, p, from) == 0)
            && forall pc': u32, from': u32 :: Count(t, pc', from') == Count(s, pc', from')
  {
    hide Find, NodeOk, Count;
    var t := PushFn(s, p, pc);
    ListsGive(s);
    OldLinks(s);
    SearchesSame(s, t);
    PushFnNodes(s, p, pc);
    forall x: u32
      ensures Find(t.mem, t.heads[Bucket(pc)], x) == if x == pc then p else Find(s.mem, s.heads[Bucket(pc)], x)
    {
      FindStep(t.mem, p, x);
    }
    forall from: u32 ensures FindArc(t, p, from) == 0 { FindNone(t.mem, from); }
    forall pc': u32, from': u32 ensures Count(t, pc', from') == Count(s, pc', from') {
      Searches(s, pc', from');
      PushFnCounts(s, p, pc, pc', from');
    }
  }

  lemma PushFnNodes(s: State, p: nat, pc: u32)
    requires Lists(s) && FindFn(s, pc) == 0 && p > 0 && (forall a <- s.mem :: a < p)
    requires var t := PushFn(s, p, pc);
             && (forall x <- s.mem, y: u32 :: Find(t.mem, s.mem[x].next, y) == Find(s.mem, s.mem[x].next, y))
             && Find(t.mem, s.heads[Bucket(pc)], pc) == 0
    ensures Lists(PushFn(s, p, pc))
  {
    hide Find, NodeOk;
    var t := PushFn(s, p, pc);
    forall x <- t.mem ensures NodeOk(t, x) {
      if x != p { KeptNodeOk(s, p, pc, x); } else { NewFnOk(s, p, pc); }
    }
  }

  lemma KeptNodeOk(s: State, p: nat, pc: u32, x: nat)
    requires x in s.mem && p !in s.mem && NodeOk(s, x)
    requires Find(PushFn(s, p, pc).mem, s.mem[x].next, s.mem[x].pc) == Find(s.mem, s.mem[x].next, s.mem[x].pc)
    ensures NodeOk(PushFn(s, p, pc), x)
  {
    hide Find;
  }

  lemma NewFnOk(s: State, p: nat, pc: u32)
    requires p > 0 && (forall a <- s.mem :: a < p)
    requires var h := s.heads[Bucket(pc)]; h != 0 ==> h in s.mem && s.mem[h].Fn?
    requires Find(PushFn(s, p, pc).mem, s.heads[Bucket(pc)], pc) == 0
    ensures NodeOk(PushFn(s, p, pc), p)
  {
    hide Find;
  }

  lemma PushFnCounts(s: State, p: nat, pc: u32, pc': u32, from': u32)
    requires p !in s.mem && p != 0 && 0 !in s.mem && FindFn(s, pc) == 0
    requires var t := PushFn(s, p, pc);
             && FindFn(t, pc') == (if pc' == pc then p else FindFn(s, pc'))
             && (forall from: u32 :: FindArc(t, p, from) == 0)
             && (FindFn(s, pc') in s.mem ==> FindArc(t, FindFn(s, pc'), from') == FindArc(s, FindFn(s, pc'), from'))
             && (FindFn(s, pc') == 0 || FindFn(s, pc') in s.mem)
             && (FindArc(s, FindFn(s, pc'), from') != 0 ==> FindArc(s, FindFn(s, pc'), from') in s.mem)
    ensures Count(PushFn(s, p, pc), pc', from') == Count(s, pc', from')
  {
    hide Find, FindFn;
  }

  lemma PushArcEffect(s: State, q: nat, pc: u32, from: u32)
    requires Lists(s) && q > 0 && (forall a <- s.mem :: a < q)
    requires var f := FindFn(s, pc); f != 0 && FindArc(s, f, from) == 0
    ensures var t := PushArc(s, q, FindFn(s, pc), from);
            && Lists(t) && t.mem.Keys == s.mem.Keys + {q}
            && ((forall f <- s.mem :: s.mem[f].Fn? && f != FindFn(s, pc) ==> s.mem[f].arcs != 0) ==> Called(t))
            && forall pc': u32, from': u32 ::
                 Count(t, pc', from') == if pc' == pc && from' == from then 1 else Count(s, pc', from')
  {
    hide Find, NodeOk, Lists, Count;
    Searches(s, pc, from);
    ListsGive(s);
    var f := FindFn(s, pc);
    var t := PushArc(s, q, f, from);
    PushArcLists(s, q, f, from);
    forall pc': u32, from': u32
      ensures Count(t, pc', from') == if pc' == pc && from' == from then 1 else Count(s, pc', from')
    {
      Searches(s, pc', from');
      PushArcCounts(s, q, f, from, pc', from');
    }
  }

  lemma PushArcLists(s: State, q: nat, f: nat, from: u32)
    requires Lists(s) && q > 0 && (forall a <- s.mem :: a < q) && f in s.mem && s.mem[f].Fn? && FindArc(s, f, from) == 0
    ensures Lists(PushArc(s, q, f, from))
    ensures forall pc: u32 :: FindFn(PushArc(s, q, f, from), pc) == FindFn(s, pc)
    ensures forall g: nat, x: u32 | g in s.mem :: FindArc(PushArc(s, q, f, from), g, x) ==
              if g == f && x == from then q else FindArc(s, g, x)
  {
    hide Find, NodeOk, Lists, FindFn, FindArc;
    PushArcKeepsLinks(s, q, f, from);
    OldLinks(s);
    var t := PushArc(s, q, f, from);
    SearchesSame(s, t);
    PushArcNodes(s, q, f, from);
    PushArcHeads(s, q, f, from);
    forall pc: u32 ensures FindFn(t, pc) == FindFn(s, pc) {
      PushArcFn(s, q, f, from, pc);
    }
    forall g: nat, x: u32 | g in s.mem
      ensures FindArc(t, g, x) == if g == f && x == from then q else FindArc(s, g, x)
    {
      PushArcArc(s, q, f, from, g, x);
    }
  }

  lemma PushArcKeepsLinks(s: State, q: nat, f: nat, from: u32)
    requires Lists(s) && q > 0 && (forall a <- s.mem :: a < q) && f in s.mem && s.mem[f].Fn?
    ensures SameLinks(s.mem, PushArc(s, q, f, from).mem)
  {
    hide Find, NodeOk;
    OldLinks(s);
  }

  lemma PushArcHeads(s: State, q: nat, f: nat, from: u32)
    requires Lists(s) && q > 0 && (forall a <- s.mem :: a < q) && f in s.mem && s.mem[f].Fn?
    requires forall x <- PushArc(s, q, f, from).mem :: NodeOk(PushArc(s, q, f, from), x)
    ensures Lists(PushArc(s, q, f, from))
  {
    hide Find, NodeOk;
  }

  lemma PushArcFn(s: State, q: nat, f: nat, from: u32, pc: u32)
    requires f in s.mem && s.mem[f].Fn?
    requires Find(PushArc(s, q, f, from).mem, s.heads[Bucket(pc)], pc) == Find(s.mem, s.heads[Bucket(pc)], pc)
    ensures FindFn(PushArc(s, q, f, from), pc) == FindFn(s, pc)
  {
    hide Find;
  }

  lemma PushArcArc(s: State, q: nat, f: nat, from: u32, g: nat, x: u32)
    requires f in s.mem && s.mem[f].Fn? && g in s.mem && q !in s.mem && s.mem[f].arcs < q
    requires s.mem[g].Fn? ==> Find(PushArc(s, q, f, from).mem, s.mem[g].arcs, x) == Find(s.mem, s.mem[g].arcs, x)
    ensures FindArc(PushArc(s, q, f, from), g, x) == if g == f && x == from then q else FindArc(s, g, x)
  {
    hide Find;
    FindStep(PushArc(s, q, f, from).mem, q, x);
  }

  lemma PushArcNodes(s: State, q: nat, f: nat, from: u32)
    requires Lists(s) && q > 0 && (forall a <- s.mem :: a < q) && f in s.mem && s.mem[f].Fn?
    requires FindArc(s, f, from) == 0
    requires var t := PushArc(s, q, f, from);
             && (forall x <- s.mem, pc: u32 :: Find(t.mem, s.mem[x].next, pc) == Find(s.mem, s.mem[x].next, pc))
             && (forall pc: u32 :: Find(t.mem, s.mem[f].arcs, pc) == Find(s.mem, s.mem[f].arcs, pc))
    ensures forall x <- PushArc(s, q, f, from).mem :: NodeOk(PushArc(s, q, f, from), x)
  {
    hide Find, Lists, NodeOk;
    ListsGive(s);
    forall x <- PushArc(s, q, f, from).mem ensures NodeOk(PushArc(s, q, f, from), x) {
      if x == q { NewArcOk(s, q, f, from); } else { OldNodeOk(s, q, f, from, x); }
    }
  }

  lemma NewArcOk(s: State, q: nat, f: nat, from: u32)
    requires q > 0 && (forall a <- s.mem :: a < q) && f in s.mem && s.mem[f].Fn? && NodeOk(s, f)
    requires Find(PushArc(s, q, f, from).mem, s.mem[f].arcs, from) == 0
    ensures NodeOk(PushArc(s, q, f, from), q)
  {
    hide Find;
  }

  lemma OldNodeOk(s: State, q: nat, f: nat, from: u32, x: nat)
    requires q > 0 && (forall a <- s.mem :: a < q) && f in s.mem && s.mem[f].Fn? && x in s.mem && NodeOk(s, x)
    requires Find(PushArc(s, q, f, from).mem, s.mem[x].next, s.mem[x].pc) == Find(s.mem, s.mem[x].next, s.mem[x].pc)
    ensures NodeOk(PushArc(s, q, f, from), x)
  {
    hide Find;
  }

  lemma ListsGive(s: State)
    requires Lists(s)
    ensures 0 !in s.mem && forall a <- s.mem :: NodeOk(s, a)
  {
  }

  lemma PushArcCounts(s: State, q: nat, f: nat, from: u32, pc': u32, from': u32)
    requires f in s.mem && s.mem[f].Fn? && q !in s.mem
    requires FindFn(PushArc(s, q, f, from), pc') == FindFn(s, pc')
    requires var g := FindFn(s, pc');
             && (g in s.mem ==>
                   FindArc(PushArc(s, q, f, from), g, from') ==
                   if g == f && from' == from then q else FindArc(s, g, from'))
             && (g == 0 || g in s.mem) && 0 !in s.mem && q != 0
             && (FindArc(s, g, from') != 0 ==> FindArc(s, g, from') in s.mem && s.mem[FindArc(s, g, from')].Arc?)
    ensures Count(PushArc(s, q, f, from), pc', from') ==
            if FindFn(s, pc') == f && from' == from then 1 else Count(s, pc', from')
  {
    hide FindFn, Find;
  }

  // ---------------------------------------------------------------- runs

  ghost predicate Inv(l: Layout, s: State) { Memory(l, s) && Lists(s) && Called(s) }

  lemma RecordEffect(l: Layout, s: State, pc: u32, from: u32)
    requires Inv(l, s) && Recordable(l, s, pc, from) && FindArc(s, FindFn(s, pc), from) == 0
    ensures var t := Record(l, s, pc, from, FindFn(s, pc));
            && Inv(l, t) && Count(s, pc, from) == 0
            && forall pc': u32, from': u32 ::
                 Count(t, pc', from') == if pc' == pc && from' == from then 1 else Count(s, pc', from')
  {
    hide Find, Memory, InSlab, Allocate, HasRoom, PushFn, PushArc, NodeOk;
    var f := FindFn(s, pc);
    Searches(s, pc, from);
    var (t, g) := Entered(l, s, pc, f);
    if f == 0 {
      AllocateGivesFresh(l, s);
      var (a, p) := Allocate(l, s);
      SameGraph(s, a);
      PushFnEffect(a, p, pc);
      PushFnMemory(l, a, p, pc);
    }
    AllocateGivesFresh(l, t);
    var (u, q) := Allocate(l, t);
    SameGraph(t, u);
    PushArcEffect(u, q, pc, from);
    PushArcMemory(l, u, q, g, from);
  }

  lemma PushFnMemory(l: Layout, s: State, p: nat, pc: u32)
    requires Memory(l, s) && Fresh(s, p)
    ensures Memory(l, PushFn(s, p, pc)) && PushFn(s, p, pc).mem.Keys == s.mem.Keys + {p}
    ensures PushFn(s, p, pc).mem[p].Fn?
    ensures forall f <- s.mem :: PushFn(s, p, pc).mem[f] == s.mem[f]
  {
    hide InSlab;
    PushKeepsMemory(l, s, p, PushFn(s, p, pc).mem);
  }

  lemma PushArcMemory(l: Layout, s: State, q: nat, f: nat, from: u32)
    requires Memory(l, s) && Fresh(s, q) && f in s.mem && s.mem[f].Fn?
    ensures Memory(l, PushArc(s, q, f, from))
  {
    hide InSlab;
    PushKeepsMemory(l, s, q, PushArc(s, q, f, from).mem);
  }

  lemma SameGraph(s: State, t: State)
    requires t.mem == s.mem && t.heads == s.heads && t.owner == s.owner
    ensures Lists(s) ==> Lists(t)
    ensures forall pc: u32 :: FindFn(t, pc) == FindFn(s, pc)
    ensures forall f: nat, from: u32 :: FindArc(t, f, from) == FindArc(s, f, from)
    ensures forall pc: u32, from: u32 :: Count(t, pc, from) == Count(s, pc, from)
  {
    hide Find;
    if Lists(s) {
      forall x <- t.mem ensures NodeOk(t, x) { assert NodeOk(s, x); }
    }
  }

  /** One call: the graph counts it, and nothing else in the graph changes. */
  lemma CallIsCounted(l: Layout, s: State, pc: u32, from: u32)
    requires Inv(l, s) && Recordable(l, s, pc, from)
    ensures var t := Mcount(l, s, pc, from);
            && Inv(l, t)
            && forall pc': u32, from': u32 ::
                 Count(t, pc', from') ==
                 if pc' == pc && from' == from then (Count(s, pc, from) + 1) % WORD else Count(s, pc', from')
  {
    hide Find, Memory, Record, Lists, Count, Recordable, Called;
    if FindArc(s, FindFn(s, pc), from) != 0 {
      BumpEffect(s, pc, from);
      BumpMemory(l, s, FindArc(s, FindFn(s, pc), from));
    } else {
      RecordEffect(l, s, pc, from);
    }
  }

  lemma BumpMemory(l: Layout, s: State, a: nat)
    requires Memory(l, s)
    ensures Memory(l, Bump(s, a))
  {
    hide InSlab;
  }

  lemma ExtendKeepsInv(l: Layout, s: State, incr: s32)
    requires Inv(l, s) && Sound(l, s, incr)
    ensures Inv(l, Sbrk(l, s, incr, false).0)
    ensures forall pc: u32, from: u32 :: Count(Sbrk(l, s, incr, false).0, pc, from) == Count(s, pc, from)
  {
    hide Find, Memory, NodeOk, Count;
    RequestIsSoundExactlyWhen(l, s, incr, false);
    SameGraph(s, Sbrk(l, s, incr, false).0);
  }

  /** Over every run in which the heap does not run out under the profiler, the graph counts
      for every call site how often the call happened. */
  lemma {:induction false} ProfileIsExact(l: Layout, rs: seq<Request>)
    requires Sensible(l) && NeverExhausted(l, rs)
    ensures Inv(l, Run(l, rs))
    ensures forall pc: u32, from: u32 :: Count(Run(l, rs), pc, from) == Calls(rs, pc, from) % WORD
  {
    hide Inv, Perform, Count, Supported;
    if rs == [] {
      BootIsFine(l);
    } else {
      var before, r := rs[..|rs| - 1], rs[|rs| - 1];
      ProfileIsExact(l, before);
      PerformEffect(l, Run(l, before), r);
      forall pc: u32, from: u32 ensures Count(Run(l, rs), pc, from) == Calls(rs, pc, from) % WORD {
        assert Count(Run(l, before), pc, from) == Calls(before, pc, from) % WORD;
      }
    }
  }

  lemma PerformEffect(l: Layout, s: State, r: Request)
    requires Inv(l, s) && Supported(l, s, r)
    ensures Inv(l, Perform(l, s, r))
    ensures forall pc: u32, from: u32 ::
              Count(Perform(l, s, r), pc, from) == (Count(s, pc, from) + (if r == Call(pc, from) then 1 else 0)) % WORD
  {
    hide Inv, Count, Recordable, Mcount, Sbrk, Sound;
    match r
    case Extend(incr) => ExtendKeepsInv(l, s, incr);
    case Call(pc, from) => CallIsCounted(l, s, pc, from);
  }

  lemma BootIsFine(l: Layout)
    requires Sensible(l)
    ensures Inv(l, Boot(l)) && forall pc: u32, from: u32 :: Count(Boot(l), pc, from) == 0
  {
  }

  /** Blocks handed out to different callers, and nodes, have no byte in common. */
  lemma NothingOverlaps(l: Layout, s: State, a: nat, b: nat, k: nat)
    requires Inv(l, s) && a in s.mem && b in s.mem && k < |s.blocks|
    ensures a != b ==> a + NODE <= b || b + NODE <= a
    ensures !s.blocks[k].slab ==> a + NODE <= s.blocks[k].addr || s.blocks[k].addr + s.blocks[k].len <= a
  {
    hide Lists, Called, SlabOk;
    assert InSlab(s.blocks, a, NODE);
    var h :| h in s.blocks && h.slab && h.addr <= a && a + NODE <= h.addr + h.len;
    var j :| 0 <= j < |s.blocks| && s.blocks[j] == h;
    if !s.blocks[k].slab {
      assert j != k;
    }
  }

  // ---------------------------------------------------------------- exhaustion

  /** Without room the profiler gets the failure value for a node. */
  lemma NoRoomNoNode(l: Layout, s: State)
    requires Memory(l, s) && !HasRoom(l, s)
    ensures var (t, p) := Allocate(l, s); p == FAILED && t.mem == s.mem
  {
  }

  lemma FailedIsNoPlace(l: Layout, s: State)
    requires FAILED in s.mem
    ensures !Memory(l, s)
  {
    assert FAILED % 4 != 0;
  }

  /** A call that the heap has no room for writes a node to the failure address. */
  lemma UnrecordableCallBreaksMemory(l: Layout, s: State, pc: u32, from: u32)
    requires Inv(l, s) && !Recordable(l, s, pc, from)
    ensures !Memory(l, Mcount(l, s, pc, from))
  {
    hide Memory, Allocate, HasRoom, Find;
    var f := FindFn(s, pc);
    Searches(s, pc, from);
    var (t, g) := Entered(l, s, pc, f);
    if f == 0 && !HasRoom(l, s) {
      NoRoomNoNode(l, s);
      AllocationKeepsGraph(l, t);
    } else {
      if f == 0 {
        AllocateGivesFresh(l, s);
        PushFnMemory(l, Allocate(l, s).0, Allocate(l, s).1, pc);
      }
      NoRoomNoNode(l, t);
    }
    FailedIsNoPlace(l, Mcount(l, s, pc, from));
  }

  lemma AllocationKeepsGraph(l: Layout, s: State)
    ensures Allocate(l, s).0.mem == s.mem
  {
  }

  lemma UnsupportedBreaksMemory(l: Layout, s: State, r: Request)
    requires Inv(l, s) && !Supported(l, s, r)
    ensures !Memory(l, Perform(l, s, r))
  {
    hide Memory, Recordable, Mcount, Sbrk, Sound, Lists, Called;
    match r
    case Extend(incr) => RequestIsSoundExactlyWhen(l, s, incr, false);
    case Call(pc, from) => UnrecordableCallBreaksMemory(l, s, pc, from);
  }

  /** Over a whole run: blocks and nodes have memory of their own after every request if and
      only if every request was sound and the heap never ran out under the profiler. */
  lemma MemoryHoldsExactlyWhen(l: Layout, rs: seq<Request>)
    requires Sensible(l)
    ensures (forall k | 0 <= k <= |rs| :: Memory(l, Run(l, rs[..k]))) <==> NeverExhausted(l, rs)
  {
    hide Memory, Run;
    if NeverExhausted(l, rs) {
      forall k | 0 <= k <= |rs| ensures Memory(l, Run(l, rs[..k])) {
        PrefixNeverExhausted(l, rs, k);
        ProfileIsExact(l, rs[..k]);
      }
    } else {
      var k := FirstFailure(l, rs);
      assert !Memory(l, Run(l, rs[..k]));
    }
  }

  lemma {:induction false} PrefixNeverExhausted(l: Layout, rs: seq<Request>, k: nat)
    requires k <= |rs| && NeverExhausted(l, rs)
    ensures NeverExhausted(l, rs[..k])
    decreases |rs|
  {
    hide Supported, Run;
    if k < |rs| {
      assert rs[..|rs| - 1][..k] == rs[..k];
      PrefixNeverExhausted(l, rs[..|rs| - 1], k);
    } else {
      assert rs[..k] == rs;
    }
  }

  lemma {:induction false} FirstFailure(l: Layout, rs: seq<Request>) returns (k: nat)
    requires Sensible(l) && !NeverExhausted(l, rs)
    ensures k <= |rs| && !Memory(l, Run(l, rs[..k]))
    decreases |rs|
  {
    hide Memory, Perform, Supported;
    var before := rs[..|rs| - 1];
    if NeverExhausted(l, before) {
      ProfileIsExact(l, before);
      UnsupportedBreaksMemory(l, Run(l, before), rs[|rs| - 1]);
      k := |rs|;
      assert rs[..k] == rs;
    } else {
      k := FirstFailure(l, before);
      assert rs[..k] == before[..k];
    }
  }

  /** A heap smaller than a slab: the first call ever puts its node at the failure address. */
  lemma SmallHeapFailsAtOnce(l: Layout, pc: u32, from: u32)
    requires Sensible(l) && l.limit < l.start + INCREMENT
    ensures Memory(l, Boot(l)) && !HasRoom(l, Boot(l)) && Allocate(l, Boot(l)).1 == FAILED
    ensures !NeverExhausted(l, [Call(pc, from)]) && !Memory(l, Run(l, [Call(pc, from)]))
  {
    hide Mcount, Allocate;
    BootIsFine(l);
    NoRoomNoNode(l, Boot(l));
    assert [Call(pc, from)][..0] == [];
    assert !Recordable(l, Boot(l), pc, from);
    UnrecordableCallBreaksMemory(l, Boot(l), pc, from);
  }

  /** The graph as it lies in memory: a call site that was counted is found by walking the list of
      bucket pc / 32 mod 64 to the function, and its list of arcs to the count. */
  lemma GraphShowsCalls(l: Layout, rs: seq<Request>, pc: u32, from: u32)
    requires Sensible(l) && NeverExhausted(l, rs) && Calls(rs, pc, from) % WORD != 0
    ensures var s := Run(l, rs);
            var f := Find(s.mem, s.heads[pc / 32 % 64], pc);
            f in s.mem && s.mem[f].Fn? && s.mem[f].pc == pc
            && var a := Find(s.mem, s.mem[f].arcs, from);
               a in s.mem && s.mem[a].Arc? && s.mem[a].pc == from && s.mem[a].count == Calls(rs, pc, from) % WORD
  {
    hide Run, Calls, NeverExhausted, Find, Inv;
    ProfileIsExact(l, rs);
    var s := Run(l, rs);
    NoNull(l, s);
    assert Count(s, pc, from) != 0;
    var f := FindFn(s, pc);
    assert f in s.mem && s.mem[f].Fn?;
    FoundHasAddress(s.mem, s.heads[Bucket(pc)], pc);
    FoundHasAddress(s.mem, s.mem[f].arcs, from);
  }

  lemma NoNull(l: Layout, s: State)
    requires Inv(l, s)
    ensures 0 !in s.mem
  {
  }

  lemma {:induction false} FoundHasAddress(mem: map<nat, Node>, p: nat, pc: u32)
    requires 0 !in mem
    ensures Find(mem, p, pc) in mem ==> mem[Find(mem, p, pc)].pc == pc
    decreases p
  {
    if p in mem && mem[p].pc != pc && mem[p].next < p { FoundHasAddress(mem, mem[p].next, pc); }
  }

  // ---------------------------------------------------------------- what the allocators answer

  /** ALT_SBRK grants a request exactly if the new end, added up in 32 bits, is within the limit; it
      then answers with the old end, rounded up to a word. */
  lemma SbrkAnswers(l: Layout, s: State, incr: s32, slab: bool)
    requires Sensible(l) && s.end <= l.limit
    ensures var (t, p) := Sbrk(l, s, incr, slab);
            var old_ := if s.end % 4 == 0 then s.end else s.end + 4 - s.end % 4;
            var sum := old_ + incr;
            var wrapped := if sum < 0 then sum + WORD else if sum >= WORD then sum - WORD else sum;
            if wrapped <= l.limit then
              && p == old_ != FAILED && t.end == wrapped
              && t.blocks == s.blocks + (if incr >= 0 then [Block(p, incr, slab)] else [])
            else p == FAILED && t.end == old_ && t.blocks == s.blocks
  {
    RoundsUp(s.end);
  }

  lemma RoundsUp(n: nat)
    ensures Aligned(n) == if n % 4 == 0 then n else n + 4 - n % 4
  {
  }

  /** Nodes are packed: 12 bytes after one another while the slab has 12 bytes left, and only then
      from a new slab of 1020 bytes, if the heap has room for it. */
  lemma NodesArePacked(l: Layout, s: State)
    requires Sensible(l) && s.end <= l.limit && s.slab + s.left < WORD
    ensures var (t, p) := Allocate(l, s);
            && (s.left >= 12 ==> p == s.slab && t == s.(slab := s.slab + 12, left := s.left - 12))
            && (s.left < 12 && Aligned(s.end) + 1020 <= l.limit ==>
                  && p == Aligned(s.end) && t.slab == p + 12 && t.left == 1008 && t.end == p + 1020
                  && t.blocks == s.blocks + [Block(p, 1020, true)])
  {
    RoundsUp(s.end);
  }
}
