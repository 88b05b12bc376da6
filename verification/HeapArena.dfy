/** The bump allocator behind sbrk and the slab that the profiler carves out of it. */
module HeapArena {
  import opened Common

  const SLAB_INCREMENT: int := 1020

  /** heap_end, mcount_slab_ptr and mcount_slab_size; limit is set by the linker. */
  datatype Arena = Arena(end: int, slab: int, slabSize: int, limit: int)

  datatype Region = Region(addr: int, size: nat)

  /** (x + 3) & ~3 */
  function AlignUp(x: int): (r: int)
    ensures x <= r <= x + 3 && r % 4 == 0
  {
    (x + 3) / 4 * 4
  }

  /** ALT_SBRK: the aligned old end, or nothing if the limit would be passed. */
  function Sbrk(a: Arena, incr: int): (Arena, Option<int>) {
    var base := AlignUp(a.end);
    if base + incr > a.limit then (a.(end := base), None)
    else (a.(end := base + incr), Some(base))
  }

  /** Does the request need a new slab?  The comparison is unsigned: a negative remainder looks huge. */
  predicate NeedsSlab(a: Arena, size: nat) {
    size > (if a.slabSize >= 0 then a.slabSize else a.slabSize + 0x1_0000_0000)
  }

  /** mcount_allocate; a failed sbrk leaves the pointer value (char *)-1. */
  function Allocate(a: Arena, size: nat): (Arena, int) {
    var (b, r) := if NeedsSlab(a, size) then Sbrk(a, SLAB_INCREMENT) else (a, Some(a.slab));
    var slab := if r.Some? then r.value else -1;
    var left := if NeedsSlab(a, size) then SLAB_INCREMENT else a.slabSize;
    (b.(slab := slab + size, slabSize := left - size), slab)
  }

  // ---------------------------------------------------------------- runs

  /** A negative increment gives memory back. */
  datatype Request = User(incr: int) | Profiler(size: nat)

  /** The start of the heap, the allocator and everything handed out so far. */
  datatype State = State(base: int, arena: Arena, regions: seq<Region>)

  function Serve(s: State, r: Request): State {
    match r
    case User(incr) =>
      var (a, p) := Sbrk(s.arena, incr);
      s.(arena := a, regions := if p.Some? && incr >= 0 then s.regions + [Region(p.value, incr)] else s.regions)
    case Profiler(size) =>
      var (a, p) := Allocate(s.arena, size);
      s.(arena := a, regions := s.regions + [Region(p, size)])
  }

  function Run(s: State, rs: seq<Request>): State
    decreases |rs|
  {
    if rs == [] then s else Run(Serve(s, rs[0]), rs[1..])
  }

  function Start(base: int, limit: int): State {
    State(base, Arena(base, 0, 0, limit), [])
  }

  predicate Apart(r: Region, q: Region) {
    r.size == 0 || q.size == 0 || r.addr + r.size <= q.addr || q.addr + q.size <= r.addr
  }

  /** The unused rest of the current slab. */
  function Rest(a: Arena): Region
    requires a.slabSize >= 0
  {
    Region(a.slab, a.slabSize)
  }

  predicate Inside(r: Region, base: int, a: Arena) {
    r.size > 0 ==> base <= r.addr && r.addr + r.size <= a.end && r.addr + r.size <= a.limit
  }

  ghost predicate AllInside(rs: seq<Region>, base: int, a: Arena) {
    forall i | 0 <= i < |rs| :: Inside(rs[i], base, a)
  }

  ghost predicate AllApart(rs: seq<Region>, q: Region) {
    forall i | 0 <= i < |rs| :: Apart(rs[i], q)
  }

  ghost predicate PairwiseApart(rs: seq<Region>) {
    forall i, j | 0 <= i < j < |rs| :: Apart(rs[i], rs[j])
  }

  /** What the callers rely on. */
  ghost predicate Sound(s: State) {
    AllInside(s.regions, s.base, s.arena) && PairwiseApart(s.regions)
  }

  ghost predicate ArenaOk(s: State) {
    && s.base <= s.arena.end
    && 0 <= s.arena.slabSize <= SLAB_INCREMENT
    && Inside(Rest(s.arena), s.base, s.arena)
    && AllApart(s.regions, Rest(s.arena))
    && Sound(s)
  }

  // ---------------------------------------------------------------- when it goes well

  /** Nothing that is in use reaches beyond the given end. */
  ghost predicate UnusedFrom(s: State, end: int) {
    && s.base <= end
    && (s.arena.slabSize > 0 ==> s.arena.slab + s.arena.slabSize <= end)
    && forall i | 0 <= i < |s.regions| :: s.regions[i].size > 0 ==> s.regions[i].addr + s.regions[i].size <= end
  }

  /** A profiler request fits a slab, and if it takes a new one sbrk has the room; memory that
      is given back is not in use.  Nothing else is asked of the callers. */
  ghost predicate Served(s: State, r: Request) {
    match r
    case User(incr) =>
      incr >= 0 || Sbrk(s.arena, incr).1.None? || UnusedFrom(s, AlignUp(s.arena.end) + incr)
    case Profiler(size) =>
      && size <= SLAB_INCREMENT
      && (NeedsSlab(s.arena, size) ==> AlignUp(s.arena.end) + SLAB_INCREMENT <= s.arena.limit)
  }

  ghost predicate AllServed(s: State, rs: seq<Request>)
    decreases |rs|
  {
    rs != [] ==> Served(s, rs[0]) && AllServed(Serve(s, rs[0]), rs[1..])
  }

  /** One call hands out a region inside the heap, apart from all others and from what is left
      of the slab, exactly when it is served. */
  lemma ServeKeepsIff(s: State, r: Request)
    requires ArenaOk(s)
    ensures Served(s, r) ==> ArenaOk(Serve(s, r))
    ensures s.base >= 0 && ArenaOk(Serve(s, r)) ==> Served(s, r)
  {
    if r.User? {
      UserKeepsIff(s, r.incr);
    } else {
      ProfilerKeepsIff(s, r.size);
    }
    hide ArenaOk, Serve, Served;
  }

  lemma UserKeepsIff(s: State, incr: int)
    requires ArenaOk(s)
    ensures ArenaOk(Serve(s, User(incr))) <==> Served(s, User(incr))
  {
    var t := Serve(s, User(incr));
    if incr < 0 && Sbrk(s.arena, incr).1.Some? {
      assert t.regions == s.regions;
      if !UnusedFrom(s, t.arena.end) && s.base <= t.arena.end && Inside(Rest(t.arena), s.base, t.arena) {
        var i :| 0 <= i < |s.regions| && s.regions[i].size > 0 && s.regions[i].addr + s.regions[i].size > t.arena.end;
        assert !Inside(t.regions[i], t.base, t.arena);
      }
    }
  }

  lemma ProfilerKeepsIff(s: State, size: nat)
    requires ArenaOk(s)
    ensures Served(s, Profiler(size)) ==> ArenaOk(Serve(s, Profiler(size)))
    ensures s.base >= 0 && ArenaOk(Serve(s, Profiler(size))) ==> Served(s, Profiler(size))
  {
    if s.base >= 0 && size > 0 {
      ProfilerServedIff(s, size);
    }
  }

  /** A profiler request gets memory inside the heap exactly when it fits a slab and sbrk, if it
      is called, has the room: the code goes on with the error value otherwise. */
  lemma ProfilerServedIff(s: State, size: nat)
    requires ArenaOk(s) && s.base >= 0 && size > 0
    ensures var t := Serve(s, Profiler(size));
            && |t.regions| == |s.regions| + 1
            && (Inside(t.regions[|s.regions|], s.base, t.arena) <==> Served(s, Profiler(size)))
  {
  }

  /** On a nearly full heap two call graph records end up at addresses -1 and 11. */
  lemma RefusedSlabIsUsed()
    ensures var s := Run(Start(0x1000, 0x1400), [User(8), Profiler(12), Profiler(12)]);
            s.regions == [Region(0x1000, 8), Region(-1, 12), Region(11, 12)]
  {
    var s0 := Start(0x1000, 0x1400);
    var s1 := Serve(s0, User(8));
    assert s1 == State(0x1000, Arena(0x1008, 0, 0, 0x1400), [Region(0x1000, 8)]);
    var s2 := Serve(s1, Profiler(12));
    assert s2.arena == Arena(0x1008, 11, 1008, 0x1400);
    assert Run(s2, [Profiler(12)]) == Serve(s2, Profiler(12));
    assert [User(8), Profiler(12), Profiler(12)][1..] == [Profiler(12), Profiler(12)];
    assert [Profiler(12), Profiler(12)][1..] == [Profiler(12)];
  }

  /** Over any mix of served calls all regions handed out are pairwise disjoint and inside the heap. */
  lemma {:induction false} RunKeeps(s: State, rs: seq<Request>)
    requires ArenaOk(s) && AllServed(s, rs)
    ensures ArenaOk(Run(s, rs))
    decreases |rs|
  {
    hide Serve, Served, Sound;
    if rs != [] {
      ServeKeepsIff(s, rs[0]);
      RunKeeps(Serve(s, rs[0]), rs[1..]);
    }
  }

  /** Requests as the code makes them: no memory is given back, and no record exceeds a slab. */
  predicate Ordinary(r: Request) {
    match r
    case User(incr) => incr >= 0
    case Profiler(size) => size <= SLAB_INCREMENT
  }

  lemma {:induction false} RegionsStay(s: State, rs: seq<Request>)
    ensures s.regions <= Run(s, rs).regions && Run(s, rs).base == s.base && Run(s, rs).arena.limit == s.arena.limit
    decreases |rs|
  {
    if rs != [] {
      RegionsStay(Serve(s, rs[0]), rs[1..]);
    }
  }

  /** A refused slab is never made good later. */
  lemma {:induction false} UnservedStays(s: State, rs: seq<Request>)
    requires ArenaOk(s) && s.base >= 0 && forall i | 0 <= i < |rs| :: Ordinary(rs[i])
    requires !AllServed(s, rs)
    ensures !Sound(Run(s, rs))
    decreases |rs|
  {
    var t := Serve(s, rs[0]);
    if Served(s, rs[0]) {
      ServeKeepsIff(s, rs[0]);
      UnservedStays(t, rs[1..]);
    } else {
      var k := |s.regions|;
      assert t.regions[k] == Region(-1, rs[0].size) && rs[0].size > 0;
      RegionsStay(t, rs[1..]);
      var u := Run(s, rs);
      assert u == Run(t, rs[1..]) && u.regions[k] == t.regions[k] && u.base == s.base;
      assert !Inside(u.regions[k], u.base, u.arena);
    }
  }

  /** From the start of the heap, over any mix of sbrk calls and profiler requests: all regions
      are inside the heap and pairwise disjoint exactly when no new slab was refused. */
  lemma RegionsDisjointIff(base: nat, limit: int, rs: seq<Request>)
    requires forall i | 0 <= i < |rs| :: Ordinary(rs[i])
    ensures ArenaOk(Start(base, limit))
    ensures Sound(Run(Start(base, limit), rs)) <==> AllServed(Start(base, limit), rs)
  {
    var s := Start(base, limit);
    if AllServed(s, rs) {
      RunKeeps(s, rs);
    } else {
      UnservedStays(s, rs);
    }
  }

  // ---------------------------------------------------------------- accounting

  function Total(regions: seq<Region>): nat {
    if regions == [] then 0 else Total(regions[..|regions| - 1]) + regions[|regions| - 1].size
  }

  lemma TotalMore(regions: seq<Region>, r: Region)
    ensures Total(regions + [r]) == Total(regions) + r.size
  {
    assert (regions + [r])[..|regions|] == regions;
  }

  /** Every byte between the start and the end of the heap has been handed out or is left in the
      slab. */
  predicate Dense(s: State) {
    && s.arena.end == s.base + Total(s.regions) + s.arena.slabSize
    && s.arena.end % 4 == 0
    && s.arena.slabSize >= 0 && s.arena.slabSize % 12 == 0
  }

  /** Word-multiple requests of users, and the profiler's records. */
  predicate Regular(r: Request) {
    match r
    case User(incr) => incr >= 0 && incr % 4 == 0
    case Profiler(size) => size == 12
  }

  lemma ServeWastesNothing(s: State, r: Request)
    requires Dense(s) && Regular(r) && Served(s, r)
    ensures Dense(Serve(s, r))
  {
    match r
    case User(incr) => UserWastesNothing(s, incr);
    case Profiler(size) => ProfilerWastesNothing(s);
  }

  lemma AlignedStays(x: int)
    requires x % 4 == 0
    ensures AlignUp(x) == x
  {
  }

  lemma UserWastesNothing(s: State, incr: nat)
    requires Dense(s) && incr % 4 == 0
    ensures Dense(Serve(s, User(incr)))
  {
    AlignedStays(s.arena.end);
    TotalMore(s.regions, Region(s.arena.end, incr));
    hide Total, AlignUp;
  }

  lemma ProfilerWastesNothing(s: State)
    requires Dense(s) && Served(s, Profiler(12))
    ensures Dense(Serve(s, Profiler(12)))
  {
    AlignedStays(s.arena.end);
    TotalMore(s.regions, Region(Allocate(s.arena, 12).1, 12));
    hide Total, AlignUp;
    assert s.arena.slabSize < 12 ==> s.arena.slabSize == 0;
  }

  /** A slab holds a whole number of records, so no byte of the heap is ever wasted. */
  lemma {:induction false} NothingWasted(s: State, rs: seq<Request>)
    requires Dense(s) && AllServed(s, rs) && forall i | 0 <= i < |rs| :: Regular(rs[i])
    ensures Dense(Run(s, rs))
    decreases |rs|
  {
    hide Dense, Serve, Served, Regular;
    if rs != [] {
      ServeWastesNothing(s, rs[0]);
      NothingWasted(Serve(s, rs[0]), rs[1..]);
    }
  }

  /** Hence a user is refused exactly when what is in use and what is asked for exceed the heap. */
  lemma RefusedOnlyWhenFull(base: int, limit: int, rs: seq<Request>, incr: nat)
    requires base % 4 == 0 && AllServed(Start(base, limit), rs) && forall i | 0 <= i < |rs| :: Regular(rs[i])
    ensures var s := Run(Start(base, limit), rs);
            Sbrk(s.arena, incr).1.None? <==> base + Total(s.regions) + s.arena.slabSize + incr > limit
  {
    var s0 := Start(base, limit);
    assert Dense(s0) && s0.base == base && s0.arena.limit == limit;
    hide Run, AllServed, Start, Sbrk, Dense;
    NothingWasted(s0, rs);
    RegionsStay(s0, rs);
    DenseRefusesIff(Run(s0, rs), incr);
  }

  lemma DenseRefusesIff(s: State, incr: nat)
    requires Dense(s)
    ensures Sbrk(s.arena, incr).1.None? <==> s.base + Total(s.regions) + s.arena.slabSize + incr > s.arena.limit
  {
    hide Total;
    assert AlignUp(s.arena.end) == s.arena.end;
  }

  // ---------------------------------------------------------------- alignment

  predicate WordSized(r: Request) {
    match r
    case User(_) => true
    case Profiler(size) => size % 4 == 0
  }

  ghost predicate Aligned(s: State) {
    && s.arena.slab % 4 == 0
    && (forall i | 0 <= i < |s.regions| :: s.regions[i].addr % 4 == 0)
  }

  /** With word-multiple profiler requests every region is word aligned, whatever users ask for. */
  lemma {:induction false} RegionsAligned(s: State, rs: seq<Request>)
    requires Aligned(s) && ArenaOk(s) && AllServed(s, rs) && forall i | 0 <= i < |rs| :: WordSized(rs[i])
    ensures Aligned(Run(s, rs))
    decreases |rs|
  {
    hide ArenaOk, Sound;
    if rs != [] {
      ServeKeepsIff(s, rs[0]);
      RegionsAligned(Serve(s, rs[0]), rs[1..]);
    }
  }
}
