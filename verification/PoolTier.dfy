/** Requests and releases through all three tiers: page cache, central cache and thread cache as objects,
    with Tiers.Pool as what they hold. */
module PoolTier {
  import opened CacheMemory
  import opened CacheTier
  import opened Wrappers
  import F = FreeLists
  import P = PageCache
  import R = CacheRuns
  import S = Spans
  import T = Tiers

  /** The objects hold what the pool says. */
  ghost predicate Holds(cache: P.Cache, thread: ThreadCache, p: T.Pool)
    requires thread.Valid()
    reads cache`state, thread.mem, thread.freelist, thread.sizes, thread.central.heads
  {
    && cache.state == p.pages && thread.mem.next == p.words && |p.classes| == F.FREE_LIST_SIZE
    && forall i :: 0 <= i < F.FREE_LIST_SIZE ==> p.classes[i].side == thread.At(i)
  }

  /** The sides of all classes after one of them has changed to s. */
  ghost predicate SidesAfter(p: T.Pool, p': T.Pool, index: nat, s: Side)
    requires |p.classes| == F.FREE_LIST_SIZE
  {
    && p'.words == s.words && |p'.classes| == F.FREE_LIST_SIZE
    && forall i :: 0 <= i < F.FREE_LIST_SIZE ==>
         p'.classes[i].side == if i == index then s else p.classes[i].side.(words := s.words)
  }

  lemma AllocateIs(p: T.Pool, books: seq<R.Book>, index: nat, sys: Option<nat>)
    requires |p.classes| == F.FREE_LIST_SIZE && T.Sound(p, books)
    requires T.Legal(p, T.Op.Allocate(index, sys)) && T.Clean(p, T.Op.Allocate(index, sys))
    ensures var side, span, p' := p.classes[index].side, T.SpanFor(p, index, sys), T.Step(p, T.Op.Allocate(index, sys));
            && CountEnds(side, index, span) &&
            var (s, ptr) := TakenMem(side, index, span);
            && SidesAfter(p, p', index, s) && p'.pages == T.Ask(p, index, sys).0
            && (ptr != 0 ==> ptr !in p.classes[index].live && p'.classes[index].live == p.classes[index].live + {ptr})
  {
    hide S.Alloc, R.Counted, F.Carved, F.BlockCount, FetchedMem, T.Sound;
    CleanEnds(p.classes[index], index, T.SpanFor(p, index, sys));
    AskNothing(p, books, index, sys);
  }

  /** The page cache changes only if it grants a span. */
  lemma AskNothing(p: T.Pool, books: seq<R.Book>, index: nat, sys: Option<nat>)
    requires T.Sound(p, books) && T.Legal(p, T.Op.Allocate(index, sys))
    ensures T.SpanFor(p, index, sys) == 0 ==> T.Ask(p, index, sys).0 == p.pages
  {
    hide S.Alloc, S.Inv, R.Sound;
    T.PagesPositive(index);
    if T.Ask(p, index, sys).1.Granted? {
      S.AllocGrant(p.pages, T.PagesFor(index), sys);
      assert S.Known(T.Ask(p, index, sys).0, S.Block(T.Ask(p, index, sys).1.addr, T.PagesFor(index)));
    } else if R.Asks(p.classes[index].side) {
      T.AllocNothing(p.pages, T.PagesFor(index), sys);
    }
  }

  /** A request that is served well ends, and its block is no caller's. */
  lemma CleanEnds(u: R.Use, index: nat, span: nat)
    requires R.Clean(u, index, R.Take(span))
    ensures CountEnds(u.side, index, span)
    ensures var ptr := TakenMem(u.side, index, span).1; ptr != 0 ==> ptr !in u.live
  {
    hide FetchedMem;
    if u.side.head == 0 {
      var (m, c, start) := FetchedMem(u.side.words, u.side.central, index, span);
      ChainNull(m, start, ListFrom(m, start));
      if start != 0 {
        assert ListFrom(m, start)[0] in F.Elems(ListFrom(m, start));
      }
    }
  }

  lemma AskIs(p: T.Pool, index: nat, sys: Option<nat>)
    requires T.Legal(p, T.Op.Allocate(index, sys))
    ensures sys.Some? ==> S.FreshFromSystem(p.pages, sys.value, T.PagesFor(index))
    ensures T.Ask(p, index, sys) == if R.Asks(p.classes[index].side) then S.Alloc(p.pages, T.PagesFor(index), sys) else (p.pages, S.NoMemory)
    ensures T.SpanFor(p, index, sys) == if T.Ask(p, index, sys).1.Granted? then T.Ask(p, index, sys).1.addr else 0
  {
  }

  /** A request of up to 256 KB. With the pool in order and the class not out of blocks, the walk over
      what is fetched ends, the page cache does not fault, the objects hold the next pool, and the block
      is one that no caller had. */
  method Allocate(cache: P.Cache, thread: ThreadCache, size: nat, sys: Option<nat>, ghost p: T.Pool, ghost books: seq<R.Book>)
    returns (ptr: nat)
    requires thread.Valid() && cache.Valid() && Holds(cache, thread, p) && size <= F.MAX_BYTES
    requires T.Sound(p, books) && S.NoEmpty(p.pages)
    requires T.Legal(p, T.Op.Allocate(Served(size), sys)) && !T.OutOfBlocks(p, T.Op.Allocate(Served(size), sys))
    modifies cache, cache.spans, thread.mem, thread.freelist, thread.sizes, thread.central.heads
    ensures cache.Valid() && fresh(cache.spans - old(cache.spans))
    ensures var op := T.Op.Allocate(Served(size), sys);
            && T.Clean(p, op) && Holds(cache, thread, T.Step(p, op)) && T.Sound(T.Step(p, op), T.Refiled(p, books, op))
    ensures ptr != 0 ==> ptr !in p.classes[Served(size)].live
                         && T.Step(p, T.Op.Allocate(Served(size), sys)).classes[Served(size)].live == p.classes[Served(size)].live + {ptr}
  {
    hide T.Sound, T.Legal, T.Clean, T.Step, T.Ask, T.SpanFor, T.Refiled, T.OutOfBlocks, TakenMem, FetchedMem, CountEnds, S.Alloc, S.Inv, S.NoEmpty, Served;
    ghost var op := T.Op.Allocate(Served(size), sys);
    var index := Served(size);
    T.StepSound(p, books, op);
    AllocateIs(p, books, index, sys);
    AskIs(p, index, sys);
    var span := 0;
    if thread.freelist[index] == 0 && thread.central.heads[index] == 0 {
      T.PagesPositive(index);
      var r := cache.AllocateSpan(T.PagesFor(index), sys);
      if r.Granted? {
        span := r.addr;
      }
    }
    assert thread.At(index) == p.classes[index].side;
    ptr := thread.Allocate(size, span, 0);
  }

  lemma ReleaseIs(p: T.Pool, books: seq<R.Book>, index: nat, ptr: nat, size: nat)
    requires |p.classes| == F.FREE_LIST_SIZE && T.Sound(p, books) && T.Legal(p, T.Op.Release(index, ptr, size))
    ensures var p' := T.Step(p, T.Op.Release(index, ptr, size));
            && SidesAfter(p, p', index, FreedMem(p.classes[index].side, ptr, size)) && p'.pages == p.pages
            && p'.classes[index].live == p.classes[index].live - {ptr} && ptr != 0
  {
    hide R.Sound, R.Counted, FreedMem, F.GetIndex;
    assert T.ClassSound(p, books, index);
    R.SuppliedAlso(p.classes[index], books[index], ptr);
  }

  /** A release of a block of up to 256 KB. */
  method Release(cache: P.Cache, thread: ThreadCache, ptr: nat, size: nat, ghost p: T.Pool, ghost books: seq<R.Book>)
    requires thread.Valid() && Holds(cache, thread, p) && size <= F.MAX_BYTES && F.GetIndex(size) < F.FREE_LIST_SIZE
    requires T.Sound(p, books) && S.NoEmpty(p.pages) && T.Legal(p, T.Op.Release(F.GetIndex(size), ptr, size))
    modifies thread.mem, thread.freelist, thread.sizes, thread.central.heads
    ensures var op := T.Op.Release(F.GetIndex(size), ptr, size);
            Holds(cache, thread, T.Step(p, op)) && T.Sound(T.Step(p, op), T.Refiled(p, books, op))
    ensures ptr !in T.Step(p, T.Op.Release(F.GetIndex(size), ptr, size)).classes[F.GetIndex(size)].live
  {
    hide T.Sound, T.Legal, T.Clean, T.Step, T.Refiled, FreedMem, S.Inv, S.NoEmpty, F.GetIndex;
    ghost var index := F.GetIndex(size);
    T.StepSound(p, books, T.Op.Release(index, ptr, size));
    ReleaseIs(p, books, index, ptr, size);
    assert thread.At(index) == p.classes[index].side;
    thread.Deallocate(ptr, size);
  }
}
