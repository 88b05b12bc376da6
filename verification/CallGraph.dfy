/** The call graph that __mcount_record builds: per hash bucket a list of function entries, per
    entry a list of arcs, all in words of memory obtained from the profiler's slab. */
module CallGraph {
  import opened Common
  import opened HeapArena

  const BUCKETS: int := 64
  const RECORD: int := 12

  /** Memory words by address, and the bucket heads.  Both kinds of record have three words: a
      next pointer, a program counter, and the arc list head or the count. */
  datatype Graph = Graph(mem: map<int, int>, heads: seq<int>)

  /** Add a function entry at the front of bucket b. */
  function WithEntry(g: Graph, b: nat, e: int, selfPc: int): Graph
    requires b < |g.heads|
  {
    Graph(g.mem[e + 4 := selfPc][e + 8 := 0][e := g.heads[b]], g.heads[b := e])
  }

  /** Add an arc, executed once, at the front of entry e's list. */
  function WithArc(g: Graph, e: int, a: int, fromPc: int): Graph
    requires e + 8 in g.mem
  {
    g.(mem := g.mem[a + 4 := fromPc][a + 8 := 1][a := g.mem[e + 8]][e + 8 := a])
  }

  /** The next pointers from head run through exactly these nodes and then end. */
  ghost predicate Chain(mem: map<int, int>, head: int, nodes: seq<int>)
    decreases |nodes|
  {
    if nodes == [] then head == 0
    else head == nodes[0] && head != 0 && head in mem && Chain(mem, mem[head], nodes[1..])
  }

  /** The lists as sequences: entries per bucket, arcs per entry. */
  datatype Lists = Lists(buckets: seq<seq<int>>, arcs: map<int, seq<int>>)

  /** Records do not overlap. */
  ghost predicate Spaced(recs: set<int>) {
    && (forall r | r in recs :: r > 0)
    && (forall r, q | r in recs && q in recs && r != q :: r + RECORD <= q || q + RECORD <= r)
  }

  ghost predicate ListsIn(l: Lists, recs: set<int>) {
    && (forall b, e | 0 <= b < |l.buckets| && e in l.buckets[b] :: e in l.arcs)
    && (forall e | e in l.arcs :: e in recs)
    && (forall e, a | e in l.arcs && a in l.arcs[e] :: a in recs && a !in l.arcs)
  }

  ghost predicate Represents(g: Graph, l: Lists) {
    && |g.heads| == |l.buckets| == BUCKETS
    && (forall b | 0 <= b < BUCKETS :: Chain(g.mem, g.heads[b], l.buckets[b]))
    && (forall e | e in l.arcs :: e + 8 in g.mem && Chain(g.mem, g.mem[e + 8], l.arcs[e]))
  }

  ghost predicate GraphOk(g: Graph, l: Lists, recs: set<int>) {
    Spaced(recs) && ListsIn(l, recs) && Represents(g, l)
  }

  lemma {:induction false} ChainFrame(mem: map<int, int>, now: map<int, int>, head: int, nodes: seq<int>)
    requires Chain(mem, head, nodes)
    requires forall n | n in nodes && n in mem :: n in now && now[n] == mem[n]
    ensures Chain(now, head, nodes)
    decreases |nodes|
  {
    if nodes != [] {
      ChainFrame(mem, now, mem[head], nodes[1..]);
    }
  }

  /** A chain that ends visits no node twice: the lists are acyclic. */
  lemma {:induction false} ChainDetermined(mem: map<int, int>, head: int, first: seq<int>, second: seq<int>)
    requires Chain(mem, head, first) && Chain(mem, head, second)
    ensures first == second
    decreases |first|
  {
    if first != [] && second != [] {
      ChainDetermined(mem, mem[head], first[1..], second[1..]);
      assert first == [first[0]] + first[1..] && second == [second[0]] + second[1..];
    }
  }

  lemma {:induction false} ChainSuffix(mem: map<int, int>, head: int, nodes: seq<int>, i: nat)
    requires Chain(mem, head, nodes) && i < |nodes|
    ensures Chain(mem, nodes[i], nodes[i..])
    decreases i
  {
    if i > 0 {
      ChainSuffix(mem, mem[head], nodes[1..], i - 1);
      assert nodes[1..][i - 1..] == nodes[i..];
    }
  }

  lemma ChainAcyclic(mem: map<int, int>, head: int, nodes: seq<int>, i: nat, j: nat)
    requires Chain(mem, head, nodes) && i < j < |nodes|
    ensures nodes[i] != nodes[j]
  {
    if nodes[i] == nodes[j] {
      ChainSuffix(mem, head, nodes, i);
      ChainSuffix(mem, head, nodes, j);
      ChainDetermined(mem, nodes[i], nodes[i..], nodes[j..]);
    }
  }

  // ---------------------------------------------------------------- one call of __mcount_record

  /** A record at r lies apart from all others. */
  ghost predicate FreshRecord(r: int, recs: set<int>) {
    r > 0 && r !in recs && Spaced(recs + {r})
  }

  function EntryAdded(l: Lists, b: nat, e: int): Lists
    requires b < |l.buckets|
  {
    Lists(l.buckets[b := [e] + l.buckets[b]], l.arcs[e := []])
  }

  function ArcAdded(l: Lists, e: int, a: int): Lists
    requires e in l.arcs
  {
    l.(arcs := l.arcs[e := [a] + l.arcs[e]])
  }

  ghost predicate SameWord(mem: map<int, int>, now: map<int, int>, p: int) {
    p in mem ==> p in now && now[p] == mem[p]
  }

  /** The words of the existing records, but for the arc list head of `but`, are untouched. */
  ghost predicate Untouched(mem: map<int, int>, now: map<int, int>, recs: set<int>, but: int) {
    forall r | r in recs ::
      SameWord(mem, now, r) && SameWord(mem, now, r + 4) && (r != but ==> SameWord(mem, now, r + 8))
  }

  lemma EntryTouches(g: Graph, b: nat, e: int, selfPc: int, recs: set<int>)
    requires b < |g.heads| && FreshRecord(e, recs)
    ensures Untouched(g.mem, WithEntry(g, b, e, selfPc).mem, recs, 0)
  {
  }

  lemma ArcTouches(g: Graph, e: int, a: int, fromPc: int, recs: set<int>)
    requires e + 8 in g.mem && e in recs && FreshRecord(a, recs)
    ensures Untouched(g.mem, WithArc(g, e, a, fromPc).mem, recs, e)
  {
  }

  /** A list of old records survives. */
  lemma ListSurvives(mem: map<int, int>, now: map<int, int>, recs: set<int>, but: int, head: int, nodes: seq<int>)
    requires Untouched(mem, now, recs, but) && Chain(mem, head, nodes) && forall n | n in nodes :: n in recs
    ensures Chain(now, head, nodes)
  {
    hide Chain;
    assert forall n | n in nodes && n in mem :: SameWord(mem, now, n);
    ChainFrame(mem, now, head, nodes);
  }

  lemma Prepend(mem: map<int, int>, r: int, next: int, nodes: seq<int>)
    requires r != 0 && r in mem && mem[r] == next && Chain(mem, next, nodes)
    ensures Chain(mem, r, [r] + nodes)
  {
    assert ([r] + nodes)[1..] == nodes;
  }

  lemma EntryHeads(g: Graph, l: Lists, recs: set<int>, b: nat, e: int, selfPc: int, c: nat)
    requires GraphOk(g, l, recs) && b < BUCKETS && FreshRecord(e, recs) && c < BUCKETS
    ensures var h := WithEntry(g, b, e, selfPc);
            Chain(h.mem, h.heads[c], EntryAdded(l, b, e).buckets[c])
  {
    EntryTouches(g, b, e, selfPc, recs);
    Fresh(e, recs);
    hide Chain, Spaced, FreshRecord, Untouched;
    var h := WithEntry(g, b, e, selfPc);
    ListSurvives(g.mem, h.mem, recs, 0, g.heads[c], l.buckets[c]);
    if c == b {
      Prepend(h.mem, e, g.heads[b], l.buckets[b]);
    }
  }

  lemma EntryArcs(g: Graph, l: Lists, recs: set<int>, b: nat, e: int, selfPc: int, f: int)
    requires GraphOk(g, l, recs) && b < BUCKETS && FreshRecord(e, recs)
    requires f in EntryAdded(l, b, e).arcs
    ensures var h := WithEntry(g, b, e, selfPc);
            f + 8 in h.mem && Chain(h.mem, h.mem[f + 8], EntryAdded(l, b, e).arcs[f])
  {
    EntryTouches(g, b, e, selfPc, recs);
    Fresh(e, recs);
    var h := WithEntry(g, b, e, selfPc);
    if f == e {
      Empty(h.mem);
    } else {
      Positive(recs, f);
      assert SameWord(g.mem, h.mem, f + 8);
      hide Chain, Spaced, FreshRecord, Untouched;
      ListSurvives(g.mem, h.mem, recs, 0, g.mem[f + 8], l.arcs[f]);
    }
  }

  lemma EntryKeeps(g: Graph, l: Lists, recs: set<int>, b: nat, e: int, selfPc: int)
    requires GraphOk(g, l, recs) && b < BUCKETS && FreshRecord(e, recs)
    ensures GraphOk(WithEntry(g, b, e, selfPc), EntryAdded(l, b, e), recs + {e})
  {
    Fresh(e, recs);
    hide Chain, Spaced, FreshRecord;
    forall c | 0 <= c < BUCKETS
      ensures Chain(WithEntry(g, b, e, selfPc).mem, WithEntry(g, b, e, selfPc).heads[c], EntryAdded(l, b, e).buckets[c])
    {
      EntryHeads(g, l, recs, b, e, selfPc, c);
    }
    forall f | f in EntryAdded(l, b, e).arcs
      ensures var h := WithEntry(g, b, e, selfPc);
              f + 8 in h.mem && Chain(h.mem, h.mem[f + 8], EntryAdded(l, b, e).arcs[f])
    {
      EntryArcs(g, l, recs, b, e, selfPc, f);
    }
  }

  lemma Fresh(r: int, recs: set<int>)
    requires FreshRecord(r, recs)
    ensures r > 0 && r !in recs && Spaced(recs + {r})
  {
  }

  lemma Positive(recs: set<int>, r: int)
    requires Spaced(recs) && r in recs
    ensures r > 0
  {
  }

  lemma Empty(mem: map<int, int>)
    ensures Chain(mem, 0, [])
  {
  }

  lemma ArcHeads(g: Graph, l: Lists, recs: set<int>, e: int, a: int, fromPc: int, c: nat)
    requires GraphOk(g, l, recs) && e in l.arcs && FreshRecord(a, recs) && c < BUCKETS
    ensures Chain(WithArc(g, e, a, fromPc).mem, g.heads[c], l.buckets[c])
  {
    ArcTouches(g, e, a, fromPc, recs);
    hide Chain, Spaced, FreshRecord, Untouched;
    ListSurvives(g.mem, WithArc(g, e, a, fromPc).mem, recs, e, g.heads[c], l.buckets[c]);
  }

  lemma ArcArcs(g: Graph, l: Lists, recs: set<int>, e: int, a: int, fromPc: int, f: int)
    requires GraphOk(g, l, recs) && e in l.arcs && FreshRecord(a, recs) && f in l.arcs
    ensures var h := WithArc(g, e, a, fromPc);
            f + 8 in h.mem && Chain(h.mem, h.mem[f + 8], ArcAdded(l, e, a).arcs[f])
  {
    var h := WithArc(g, e, a, fromPc);
    ArcTouches(g, e, a, fromPc, recs);
    Fresh(a, recs);
    Apart3(recs, e, a);
    assert f != e ==> SameWord(g.mem, h.mem, f + 8);
    hide Chain, Spaced, FreshRecord, Untouched;
    ListSurvives(g.mem, h.mem, recs, e, g.mem[f + 8], l.arcs[f]);
    if f == e {
      Prepend(h.mem, a, g.mem[e + 8], l.arcs[e]);
    }
  }

  lemma ArcKeeps(g: Graph, l: Lists, recs: set<int>, e: int, a: int, fromPc: int)
    requires GraphOk(g, l, recs) && e in l.arcs && FreshRecord(a, recs)
    ensures GraphOk(WithArc(g, e, a, fromPc), ArcAdded(l, e, a), recs + {a})
  {
    Fresh(a, recs);
    hide Chain, Spaced, FreshRecord;
    forall c | 0 <= c < BUCKETS
      ensures Chain(WithArc(g, e, a, fromPc).mem, g.heads[c], l.buckets[c])
    {
      ArcHeads(g, l, recs, e, a, fromPc, c);
    }
    forall f | f in l.arcs
      ensures var h := WithArc(g, e, a, fromPc);
              f + 8 in h.mem && Chain(h.mem, h.mem[f + 8], ArcAdded(l, e, a).arcs[f])
    {
      ArcArcs(g, l, recs, e, a, fromPc, f);
    }
  }

  lemma Apart3(recs: set<int>, e: int, a: int)
    requires Spaced(recs + {a}) && e in recs && a !in recs
    ensures e + 8 != a && e + 8 != a + 4 && e + 8 != a + 8
  {
  }

  // ---------------------------------------------------------------- the profiler

  class Profiler {
    var arena: Arena
    var mem: map<int, int>
    var heads: seq<int>

    const base: int
    ghost var regions: seq<Region>
    ghost var lists: Lists
    ghost var recs: set<int>

    /** The allocator and all memory handed out. */
    ghost function Heap(): State
      reads this
    {
      State(base, arena, regions)
    }

    ghost predicate Valid()
      reads this
    {
      && base > 0
      && ArenaOk(Heap())
      && GraphOk(Graph(mem, heads), lists, recs)
      && (forall r | r in recs :: Region(r, RECORD) in regions)
    }

    constructor (base: int, limit: int)
      requires base > 0
      ensures Valid() && regions == [] && recs == {}
      ensures lists == Lists(seq(BUCKETS, _ => []), map[])
    {
      this.base := base;
      arena := Start(base, limit).arena;
      mem := map[];
      heads := seq(BUCKETS, _ => 0);
      regions := [];
      lists := Lists(seq(BUCKETS, _ => []), map[]);
      recs := {};
    }

    /** ALT_SBRK: the aligned bump of the heap's end, or failure at the limit. */
    method Sbrk(incr: int) returns (ret: Option<int>)
      modifies this`arena
      ensures (arena, ret) == HeapArena.Sbrk(old(arena), incr)
    {
      arena := arena.(end := AlignUp(arena.end));
      if arena.end + incr > arena.limit {
        return None;
      }
      ret := Some(arena.end);
      arena := arena.(end := arena.end + incr);
    }

    /** The same, called by anyone but the profiler.  Memory given back must be unused. */
    method UserSbrk(incr: int) returns (ret: Option<int>)
      requires Valid()
      modifies this`arena, this`regions
      ensures Heap() == Serve(old(Heap()), User(incr)) && ret == HeapArena.Sbrk(old(arena), incr).1
      ensures Valid() <==> Served(old(Heap()), User(incr))
    {
      hide GraphOk;
      UserKeepsIff(Heap(), incr);
      ret := Sbrk(incr);
      if ret.Some? && incr >= 0 {
        regions := regions + [Region(ret.value, incr)];
      }
    }

    /** mcount_allocate for one record, from the slab or from a new one.  If sbrk refuses, the
        record is at its error value. */
    method McountAllocate() returns (data: int)
      requires Valid()
      modifies this`arena, this`regions
      ensures (arena, data) == Allocate(old(arena), RECORD)
      ensures Heap() == Serve(old(Heap()), HeapArena.Request.Profiler(RECORD))
      ensures if Served(old(Heap()), HeapArena.Request.Profiler(RECORD)) then ArenaOk(Heap()) && FreshRecord(data, recs)
              else data == -1
    {
      hide GraphOk;
      ProfilerKeepsIff(Heap(), RECORD);
      ghost var was := Heap();
      if RECORD > arena.slabSize {
        var slab := Sbrk(SLAB_INCREMENT);
        arena := arena.(slab := if slab.Some? then slab.value else -1, slabSize := SLAB_INCREMENT);
      }
      data := arena.slab;
      arena := arena.(slab := arena.slab + RECORD, slabSize := arena.slabSize - RECORD);
      regions := regions + [Region(data, RECORD)];
      assert Heap() == Serve(was, HeapArena.Request.Profiler(RECORD));
      if ArenaOk(Heap()) && Served(was, HeapArena.Request.Profiler(RECORD)) {
        Spacing(data);
      }
    }

    lemma Spacing(data: int)
      requires base > 0 && Spaced(recs) && |regions| > 0 && regions[|regions| - 1] == Region(data, RECORD)
      requires ArenaOk(Heap())
      requires forall r | r in recs :: Region(r, RECORD) in regions[..|regions| - 1]
      ensures FreshRecord(data, recs)
    {
      forall r | r in recs
        ensures r + RECORD <= data || data + RECORD <= r
      {
        var i :| 0 <= i < |regions| - 1 && regions[i] == Region(r, RECORD);
        assert Apart(regions[i], regions[|regions| - 1]);
      }
      assert Inside(regions[|regions| - 1], base, arena);
    }

    /** Add a function entry to bucket b. */
    method AddEntry(b: nat, selfPc: int) returns (e: int)
      requires Valid() && b < BUCKETS && Served(Heap(), HeapArena.Request.Profiler(RECORD))
      modifies this
      ensures Valid()
      ensures (arena, e) == Allocate(old(arena), RECORD)
      ensures e !in old(recs) && recs == old(recs) + {e}
      ensures e + 4 in mem && mem[e + 4] == selfPc
      ensures lists == EntryAdded(old(lists), b, e)
      ensures Graph(mem, heads) == WithEntry(old(Graph(mem, heads)), b, e, selfPc)
      ensures Untouched(old(mem), mem, old(recs), 0)
    {
      hide ArenaOk, Allocate, Spaced, Chain;
      e := McountAllocate();
      EntryKeeps(Graph(mem, heads), lists, recs, b, e, selfPc);
      EntryTouches(Graph(mem, heads), b, e, selfPc, recs);
      mem := mem[e + 4 := selfPc][e + 8 := 0];
      mem, heads := mem[e := heads[b]], heads[b := e];
      lists := EntryAdded(lists, b, e);
      recs := recs + {e};
    }

    /** Add an arc to the list of entry e. */
    method AddArc(e: int, fromPc: int) returns (a: int)
      requires Valid() && e in lists.arcs && Served(Heap(), HeapArena.Request.Profiler(RECORD))
      modifies this
      ensures Valid()
      ensures a !in old(recs) && recs == old(recs) + {a}
      ensures lists == ArcAdded(old(lists), e, a)
      ensures e + 8 in old(mem) && Graph(mem, heads) == WithArc(old(Graph(mem, heads)), e, a, fromPc)
      ensures a + 4 in mem && mem[a + 4] == fromPc && a + 8 in mem && mem[a + 8] == 1
      ensures Untouched(old(mem), mem, old(recs), e)
    {
      hide ArenaOk, Allocate, Chain;
      a := McountAllocate();
      ArcKeeps(Graph(mem, heads), lists, recs, e, a, fromPc);
      ArcTouches(Graph(mem, heads), e, a, fromPc, recs);
      Apart3(recs, e, a);
      mem := mem[a + 4 := fromPc][a + 8 := 1];
      assert e + 8 in mem;
      mem := mem[a := mem[e + 8]];
      mem := mem[e + 8 := a];
      lists := ArcAdded(lists, e, a);
      recs := recs + {a};
    }

    /** __mcount_record; fnEntry is 0 when the function has no entry yet.  Exactly one arc is
        added, in front of its entry's list, and no other list or record changes. */
    method McountRecord(selfPc: int, fromPc: int, fnEntry: int, b: nat) returns (e: int, a: int)
      requires Valid() && b < BUCKETS && (fnEntry != 0 ==> fnEntry in lists.arcs)
      requires || arena.slabSize >= (if fnEntry == 0 then 2 * RECORD else RECORD)
               || AlignUp(arena.end) + SLAB_INCREMENT <= arena.limit
      modifies this
      ensures Valid()
      ensures a !in old(recs) && a + 4 in mem && mem[a + 4] == fromPc && a + 8 in mem && mem[a + 8] == 1
      ensures if fnEntry != 0 then e == fnEntry else e !in old(recs) && e + 4 in mem && mem[e + 4] == selfPc
      ensures lists.arcs == old(lists).arcs[e := [a] + (if fnEntry != 0 then old(lists).arcs[e] else [])]
      ensures lists.buckets == if fnEntry != 0 then old(lists).buckets
                               else old(lists).buckets[b := [e] + old(lists).buckets[b]]
      ensures Untouched(old(mem), mem, old(recs), e)
    {
      hide ArenaOk, Untouched, Represents;
      e := fnEntry;
      ghost var mem0, recs0 := mem, recs;
      if fnEntry == 0 {
        e := AddEntry(b, selfPc);
      }
      ghost var mem1, recs1 := mem, recs;
      a := AddArc(e, fromPc);
      if fnEntry == 0 {
        UntouchedTwice(mem0, mem1, mem, recs0, recs1, e);
      }
    }

    lemma UntouchedTwice(m0: map<int, int>, m1: map<int, int>, m2: map<int, int>,
                         recs0: set<int>, recs1: set<int>, e: int)
      requires Untouched(m0, m1, recs0, 0) && Untouched(m1, m2, recs1, e) && recs0 <= recs1 && 0 !in recs0
      ensures Untouched(m0, m2, recs0, e)
    {
      forall r | r in recs0
        ensures SameWord(m0, m2, r) && SameWord(m0, m2, r + 4) && (r != e ==> SameWord(m0, m2, r + 8))
      {
        assert r in recs1;
        assert SameWord(m0, m1, r) && SameWord(m1, m2, r);
        assert SameWord(m0, m1, r + 4) && SameWord(m1, m2, r + 4);
        assert SameWord(m0, m1, r + 8) && (r != e ==> SameWord(m1, m2, r + 8));
      }
    }
  }
}
