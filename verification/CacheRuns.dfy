/** Whole runs of one thread on one size class: callers take and give back blocks, and the rest of the
    program writes the memory that it has. */
module CacheRuns {
  import opened CacheMemory
  import opened CacheTier
  import opened FreeLists
  import opened PageUnit

  /** The class in memory, the blocks that callers hold, and all blocks that the page cache has supplied. */
  datatype Use = Use(side: Side, live: set<nat>, supplied: set<nat>)

  /** Take carries what the page cache answers, if it is asked. */
  datatype Op = Take(span: nat) | Give(ptr: nat, size: nat) | Others(words: Words)

  /** The page cache is asked for a span. */
  predicate Asks(s: Side)
  {
    s.head == 0 && s.central == 0
  }

  /** A span is new to the class, and zeroed if it is to be a single block; all that is supplied fits an
      address space of 64 bits. A release is of a block held and under a size of the class. Nobody else
      writes a free block. */
  ghost predicate Legal(u: Use, index: nat, op: Op)
  {
    match op
    case Take(span) =>
      Asks(u.side) && span != 0 ==>
        && Elems(Carved(span, index)) !! u.supplied && Fits(|u.supplied| + BlockCount(index), index)
        && (BlockCount(index) == 1 ==> Word(u.side.words, span) == 0)
    case Give(ptr, size) => ptr in u.live && size <= MAX_BYTES && GetIndex(size) == index
    case Others(words) => forall x :: x in u.supplied && x !in u.live ==> Word(words, x) == Word(u.side.words, x)
  }

  /** A request that serves its caller: it reads no block that a caller holds, hands out none, and ends. */
  ghost predicate Clean(u: Use, index: nat, op: Op)
  {
    op.Take? ==>
      if u.side.head != 0 then u.side.head !in u.live
      else
        var (m, c, start) := FetchedMem(u.side.words, u.side.central, index, op.span);
        Ends(m, start) && Elems(ListFrom(m, start)) !! u.live
  }

  ghost function Step(u: Use, index: nat, op: Op): Use
    requires Clean(u, index, op)
  {
    match op
    case Take(span) =>
      var (s, ptr) := TakenMem(u.side, index, span);
      Use(s, if ptr == 0 then u.live else u.live + {ptr},
          if Asks(u.side) then u.supplied + Elems(Carved(span, index)) else u.supplied)
    case Give(ptr, size) => u.(side := FreedMem(u.side, ptr, size), live := u.live - {ptr})
    case Others(words) => u.(side := u.side.(words := words))
  }

  // ----- the lists behind it

  /** The thread's list, and the part of the central list that has not been handed out: behind it the
      links lead to `end`, the first block of a list that was handed out and is still linked, or to 0. */
  datatype Book = Book(thread: seq<nat>, central: seq<nat>, end: nat)
  {
    function Lists(counter: nat): FreeLists.Lists { FreeLists.Lists(thread, counter, central) }

    ghost function All(): multiset<nat> { multiset(thread) + multiset(central) }
  }

  /** Memory holds the lists, and no block is twice in a list or with a caller. */
  ghost predicate Sound(u: Use, b: Book)
  {
    && Holds(u.side, b.Lists(u.side.counter), b.end) && u.side.counter < TWO64 && 0 !in u.supplied
    && b.All() + multiset(u.live) <= multiset(u.supplied)
    && (b.end != 0 ==> b.end in u.supplied)
  }

  /** No block is lost either, and the counter is true. */
  ghost predicate Kept(u: Use, b: Book, index: nat)
  {
    && b.All() + multiset(u.live) == multiset(u.supplied) && u.side.counter == |b.thread|
    && Fits(|u.supplied|, index)
  }

  /** The lists after an operation. */
  ghost function Filed(b: Book, counter: nat, index: nat, op: Op): Book
  {
    match op
    case Take(span) =>
      if b.thread != [] then Book(b.thread[1..], b.central, b.end)
      else if b.central != [] then Book(b.central[1..], [], b.central[0])
      else if span != 0 then Book([], Carved(span, index)[1..], 0)
      else b
    case Give(ptr, size) =>
      var f := Freed(b.Lists(counter), ptr, size);
      Book(f.thread, f.central, b.end)
    case Others(words) => b
  }

  /** The thread is out of blocks, and the central list has been handed out before. */
  predicate Short(b: Book)
  {
    b.thread == [] && b.end != 0
  }

  // ----- the lists, counted

  /** The lengths of the lists, the thread's counter, and whether the central list has been handed out. */
  datatype Tally = Tally(thread: nat, counter: nat, central: nat, handed: bool)

  const NO_BLOCKS := Tally(0, 0, 0, false)

  function Count(b: Book, counter: nat): Tally
  {
    Tally(|b.thread|, counter, |b.central|, b.end != 0)
  }

  function Counted(t: Tally, index: nat, op: Op): Tally
  {
    match op
    case Take(span) =>
      var c := (t.counter - 1) % TWO64;
      if t.thread > 0 then Tally(t.thread - 1, c, t.central, t.handed)
      else if t.central > 0 then Tally(t.central - 1, (c + t.central) % TWO64, 0, true)
      else if span != 0 then Tally(0, (c + 1) % TWO64, BlockCount(index) - 1, t.handed)
      else Tally(0, c, 0, t.handed)
    case Give(ptr, size) =>
      var c, n := (t.counter + 1) % TWO64, t.thread + 1;
      if c <= 256 || n < Keep(c) then Tally(n, c, t.central, t.handed)
      else
        var more := if n == Keep(c) then 0 else Walked(n - Keep(c), Announced(c - Keep(c), size), GetIndex(size));
        Tally(Keep(c), Keep(c), t.central + more, t.handed)
    case Others(words) => t
  }

  /** A request comes when the thread has no block and the central list has been handed out. */
  predicate OutOfBlocks(t: Tally, op: Op)
  {
    op.Take? && t.thread == 0 && t.handed
  }

  // ----- requests

  lemma OwnerLists(u: Use, b: Book)
    requires b.All() + multiset(u.live) <= multiset(u.supplied)
    ensures OneOwner([b.thread, b.central])
    ensures forall x :: x in b.thread || x in b.central ==> x in u.supplied && x !in u.live
  {
    forall x | x in b.thread || x in b.central ensures x in u.supplied && x !in u.live && !(x in b.thread && x in b.central) {
      assert (b.All() + multiset(u.live))[x] <= multiset(u.supplied)[x] <= 1;
    }
  }

  lemma FirstAndRest(l: seq<nat>)
    requires l != []
    ensures multiset(l) == multiset{l[0]} + multiset(l[1..])
  {
    assert l == [l[0]] + l[1..];
  }

  /** New blocks come in and one block goes to a caller. */
  lemma Granted(all: multiset<nat>, live: set<nat>, supplied: set<nat>, all': multiset<nat>, ptr: nat, gained: set<nat>)
    requires all + multiset(live) <= multiset(supplied) && gained !! supplied
    requires all' + multiset{ptr} == all + multiset(gained)
    ensures ptr !in live && all' + multiset(live + {ptr}) <= multiset(supplied + gained)
    ensures all + multiset(live) == multiset(supplied) ==> all' + multiset(live + {ptr}) == multiset(supplied + gained)
  {
    assert multiset(supplied + gained) == multiset(supplied) + multiset(gained);
    assert (all' + multiset{ptr})[ptr] >= 1;
    assert (all + multiset(live))[ptr] <= multiset(supplied)[ptr];
    assert multiset(live + {ptr}) == multiset(live) + multiset{ptr};
    assert all' + multiset(live + {ptr}) == all' + multiset{ptr} + multiset(live) == all + multiset(live) + multiset(gained);
  }

  lemma KeptBound(u: Use, b: Book, index: nat)
    requires Kept(u, b, index)
    ensures |b.thread| + |b.central| + |u.live| == |u.supplied| < TWO64
    ensures u.side.counter == |b.thread| && Fits(|u.supplied|, index)
  {
    assert |b.All() + multiset(u.live)| == |multiset(u.supplied)|;
    BlockPositive(index);
    hide BlockSize;
    if |u.supplied| > 0 {
      Grows(BlockSize(index), |u.supplied|);
    }
  }

  /** The heads tell which lists are empty. */
  lemma HeldThread(u: Use, b: Book)
    requires Sound(u, b)
    ensures u.side.head == 0 <==> b.thread == []
    ensures b.thread != [] ==> u.side.head == b.thread[0]
    ensures b.end == 0 ==> (u.side.central == 0 <==> b.central == [])
    ensures b.end == 0 && b.central != [] ==> u.side.central == b.central[0]
    ensures b.end != 0 ==> u.side.central != 0 && (b.central == [] ==> u.side.central == b.end)
  {
    ChainNull(u.side.words, u.side.head, b.thread);
    if b.central != [] {
      ChainStep(u.side.words, u.side.central, b.central, b.end);
    }
  }

  lemma HeldCentral(u: Use, b: Book)
    requires Sound(u, b) && b.end == 0
    ensures Ends(u.side.words, u.side.central) && ListFrom(u.side.words, u.side.central) == b.central
  {
    ListIs(u.side.words, u.side.central, b.central);
  }

  lemma {:induction false} DistinctElems(l: seq<nat>)
    requires Distinct(l)
    ensures multiset(l) == multiset(Elems(l)) && |Elems(l)| == |l|
  {
    if l != [] {
      var n := |l| - 1;
      var t := l[..n];
      DistinctElems(t);
      assert l == t + [l[n]];
      assert l[n] !in Elems(t);
      assert Elems(l) == Elems(t) + {l[n]};
    }
  }

  lemma OneElem(x: nat)
    ensures Elems([x]) == {x}
  {
  }

  /** The blocks of a span: as many as there should be, and none of them 0. */
  lemma SpanBlocks(span: nat, index: nat)
    requires span != 0
    ensures var l := Carved(span, index);
            && l != [] && l[0] == span && multiset(l) == multiset{span} + multiset(l[1..])
            && multiset(l) == multiset(Elems(l)) && |Elems(l)| == |l| == BlockCount(index) && 0 !in Elems(l)
  {
    hide BlockCount, BlockAt;
    FirstBlock(span, index);
    CarvedDistinct(span, index);
    DistinctElems(Carved(span, index));
    FirstAndRest(Carved(span, index));
  }

  /** New blocks come in and one block goes to a caller: the lists stay in order. */
  lemma GrantSound(u: Use, b: Book, index: nat, s': Side, b': Book, ptr: nat, gained: set<nat>)
    requires Sound(u, b) && Holds(s', b'.Lists(s'.counter), b'.end) && s'.counter < TWO64
    requires gained !! u.supplied && 0 !in gained && b'.All() + multiset{ptr} == b.All() + multiset(gained)
    requires b'.end != 0 ==> b'.end in u.supplied
    ensures Sound(Use(s', u.live + {ptr}, u.supplied + gained), b')
    ensures Kept(u, b, index) && s'.counter == |b'.thread| && Fits(|u.supplied + gained|, index) ==>
              Kept(Use(s', u.live + {ptr}, u.supplied + gained), b', index)
  {
    hide Holds, Fits;
    Granted(b.All(), u.live, u.supplied, b'.All(), ptr, gained);
  }

  lemma TakeStep(u: Use, index: nat, span: nat, gained: set<nat>)
    requires Clean(u, index, Take(span)) && TakenMem(u.side, index, span).1 != 0
    requires gained == if Asks(u.side) then Elems(Carved(span, index)) else {}
    ensures var (s', ptr) := TakenMem(u.side, index, span);
            Step(u, index, Take(span)) == Use(s', u.live + {ptr}, u.supplied + gained)
  {
    assert u.supplied + {} == u.supplied;
  }

  /** The page cache has memory whenever it is asked, and nothing is released under size 0. */
  predicate Steady(op: Op)
  {
    match op
    case Take(span) => span != 0
    case Give(ptr, size) => size != 0
    case Others(words) => true
  }

  /** This time, at least. */
  predicate Fed(u: Use, op: Op)
  {
    match op
    case Take(span) => Asks(u.side) ==> span != 0
    case Give(ptr, size) => size != 0
    case Others(words) => true
  }

  /** What is to be shown of a request. */
  ghost predicate TakenWell(u: Use, b: Book, index: nat, span: nat)
  {
    var op := Take(span);
    && Clean(u, index, op)
    && Sound(Step(u, index, op), Filed(b, u.side.counter, index, op))
    && Count(Filed(b, u.side.counter, index, op), Step(u, index, op).side.counter) == Counted(Count(b, u.side.counter), index, op)
    && (Kept(u, b, index) && Fed(u, op) ==> Kept(Step(u, index, op), Filed(b, u.side.counter, index, op), index))
  }

  lemma OwnFacts(u: Use, b: Book, index: nat, span: nat)
    requires Sound(u, b) && b.thread != []
    ensures Clean(u, index, Take(span)) && CountEnds(u.side, index, span) && !Asks(u.side)
    ensures var (s', ptr) := TakenMem(u.side, index, span);
            && ptr == b.thread[0] != 0 && s'.counter == (u.side.counter - 1) % TWO64
            && Holds(s', Book(b.thread[1..], b.central, b.end).Lists(s'.counter), b.end)
  {
    hide FetchedMem, Holds;
    HeldThread(u, b);
    OwnerLists(u, b);
    TakenOwn(u.side, b.Lists(u.side.counter), index, span, b.end);
  }

  lemma TakeOwn(u: Use, b: Book, index: nat, span: nat)
    requires Sound(u, b) && b.thread != []
    ensures TakenWell(u, b, index, span)
  {
    hide Fits, TakenMem, CountEnds, Holds, Step, Sound, Kept, BlockCount, Clean;
    OwnFacts(u, b, index, span);
    TakeStep(u, index, span, {});
    FirstAndRest(b.thread);
    SoundEnd(u, b);
    GrantSound(u, b, index, TakenMem(u.side, index, span).0, Filed(b, u.side.counter, index, Take(span)), b.thread[0], {});
    if Kept(u, b, index) {
      KeptBound(u, b, index);
    }
  }

  lemma SoundEnd(u: Use, b: Book)
    requires Sound(u, b)
    ensures b.end != 0 ==> b.end in u.supplied
    ensures u.supplied + {} == u.supplied
    ensures forall x :: x in b.central ==> x in u.supplied
  {
    OwnerLists(u, b);
  }

  lemma HandedOutFacts(u: Use, b: Book, index: nat, span: nat)
    requires Sound(u, b) && b.thread == [] && b.end == 0 && b.central != []
    ensures Clean(u, index, Take(span)) && CountEnds(u.side, index, span) && !Asks(u.side)
    ensures var (s', ptr) := TakenMem(u.side, index, span);
            && ptr == b.central[0] != 0 && s'.counter == ((u.side.counter - 1) % TWO64 + |b.central|) % TWO64
            && Holds(s', Book(b.central[1..], [], b.central[0]).Lists(s'.counter), b.central[0])
  {
    hide Holds;
    HeldThread(u, b);
    HeldCentral(u, b);
    OwnerLists(u, b);
    TakenCentral(u.side, b.Lists(u.side.counter), index, span);
    HoldsCounter(TakenMem(u.side, index, span).0,
                 Allocated(b.Lists(u.side.counter), []).0.(central := []), b.central[0]);
  }

  lemma TakeHandedOut(u: Use, b: Book, index: nat, span: nat)
    requires Sound(u, b) && b.thread == [] && b.end == 0 && b.central != []
    ensures TakenWell(u, b, index, span)
  {
    hide Fits, TakenMem, CountEnds, Holds, Step, Sound, Kept, BlockCount, Clean;
    HandedOutFacts(u, b, index, span);
    TakeStep(u, index, span, {});
    FirstAndRest(b.central);
    SoundEnd(u, b);
    GrantSound(u, b, index, TakenMem(u.side, index, span).0, Filed(b, u.side.counter, index, Take(span)), b.central[0], {});
    if Kept(u, b, index) {
      KeptBound(u, b, index);
    }
  }

  lemma CarvedFacts(u: Use, b: Book, index: nat, span: nat)
    requires Sound(u, b) && b.thread == [] && b.end == 0 && b.central == [] && span != 0 && Legal(u, index, Take(span))
    ensures Clean(u, index, Take(span)) && CountEnds(u.side, index, span) && Asks(u.side)
    ensures var (s', ptr) := TakenMem(u.side, index, span);
            && ptr == span && s'.counter == ((u.side.counter - 1) % TWO64 + 1) % TWO64
            && Carved(span, index) != [] && Holds(s', Book([], Carved(span, index)[1..], 0).Lists(s'.counter), 0)
  {
    hide Fits, Carved, FetchedMem, BlockCount, Holds, Distinct, Chain;
    HeldThread(u, b);
    SpanBlocks(span, index);
    TakenSpan(u.side, b.Lists(u.side.counter), index, span);
    HoldsCounter(TakenMem(u.side, index, span).0, Allocated(b.Lists(u.side.counter), Carved(span, index)).0, 0);
    CarvedMem(u.side.words, index, span);
    ListIs(FetchedMem(u.side.words, 0, index, span).0, span, [span]);
    SpanNotLive(u, b, index, span);
  }

  lemma SpanNotLive(u: Use, b: Book, index: nat, span: nat)
    requires Sound(u, b) && span != 0 && Elems(Carved(span, index)) !! u.supplied
    ensures Elems([span]) !! u.live
  {
    hide Carved, Holds;
    SpanBlocks(span, index);
    assert span in Elems(Carved(span, index));
    assert (b.All() + multiset(u.live))[span] <= multiset(u.supplied)[span];
  }

  lemma TakeCarved(u: Use, b: Book, index: nat, span: nat)
    requires Sound(u, b) && b.thread == [] && b.end == 0 && b.central == [] && span != 0 && Legal(u, index, Take(span))
    ensures TakenWell(u, b, index, span)
  {
    hide Fits, TakenMem, CountEnds, Holds, Step, Sound, Kept, BlockCount, Clean, Carved, Elems;
    CarvedFacts(u, b, index, span);
    var l := Carved(span, index);
    TakeStep(u, index, span, Elems(l));
    SpanBlocks(span, index);
    GrantSound(u, b, index, TakenMem(u.side, index, span).0, Filed(b, u.side.counter, index, Take(span)), span, Elems(l));
    if Kept(u, b, index) {
      KeptBound(u, b, index);
      assert |u.supplied + Elems(l)| == |u.supplied| + BlockCount(index);
    }
  }

  lemma TakeNothing(u: Use, b: Book, index: nat)
    requires Sound(u, b) && b.thread == [] && b.end == 0 && b.central == []
    ensures TakenWell(u, b, index, 0)
  {
    HeldThread(u, b);
    TakenNone(u.side, b.Lists(u.side.counter), index);
    ListIs(u.side.words, 0, []);
  }

  // ----- releases, and what the rest of the program does

  /** A release may lose blocks, but makes none up. */
  lemma FreeAtMost(s: FreeLists.Lists, ptr: nat, size: nat)
    ensures Blocks(Freed(s, ptr, size)) <= Blocks(s) + multiset{ptr}
    ensures s.counter < TWO64 ==> Freed(s, ptr, size).counter < TWO64
  {
    hide Freed, GetIndex, Walked, Keep, Announced;
    FreedIs(s, ptr, size);
    FreedCounter(s, ptr, size);
    var c, l := (s.counter + 1) % TWO64, [ptr] + s.thread;
    assert multiset(l) == multiset{ptr} + multiset(s.thread);
    if c > 256 && |l| > Keep(c) {
      PartOf(l, Keep(c), Walked(|l| - Keep(c), Announced(c - Keep(c), size), GetIndex(size)), s.central);
    }
  }

  lemma PartOf(l: seq<nat>, keep: nat, w: nat, central: seq<nat>)
    requires keep + w <= |l|
    ensures multiset(l[..keep]) + multiset(l[keep..][..w] + central) <= multiset(l) + multiset(central)
  {
    var rest := l[keep..];
    TakeDrop(l, keep);
    TakeDrop(rest, w);
    assert multiset(rest[..w] + central) == multiset(rest[..w]) + multiset(central);
  }

  lemma FreedCounter(s: FreeLists.Lists, ptr: nat, size: nat)
    ensures Freed(s, ptr, size).counter < TWO64
    ensures (s.counter + 1) % TWO64 > 256 ==> Keep((s.counter + 1) % TWO64) < (s.counter + 1) % TWO64
  {
  }

  lemma FreedCount(s: FreeLists.Lists, ptr: nat, size: nat)
    ensures var c, n, f := (s.counter + 1) % TWO64, |s.thread| + 1, Freed(s, ptr, size);
            if c <= 256 || n < Keep(c) then |f.thread| == n && f.counter == c && |f.central| == |s.central|
            else |f.thread| == f.counter == Keep(c)
                 && |f.central| == |s.central| + (if n == Keep(c) then 0
                                                  else Walked(n - Keep(c), Announced(c - Keep(c), size), GetIndex(size)))
  {
    hide Announced, GetIndex, Walked;
  }

  lemma GiveSound(u: Use, b: Book, index: nat, ptr: nat, size: nat)
    requires Sound(u, b) && Legal(u, index, Give(ptr, size))
    ensures Sound(Step(u, index, Give(ptr, size)), Filed(b, u.side.counter, index, Give(ptr, size)))
    ensures FreedMem(u.side, ptr, size).counter == Freed(b.Lists(u.side.counter), ptr, size).counter
    ensures Count(Filed(b, u.side.counter, index, Give(ptr, size)), Step(u, index, Give(ptr, size)).side.counter)
         == Counted(Count(b, u.side.counter), index, Give(ptr, size))
  {
    hide Holds, Freed, FreedMem, GetIndex, Keep, Walked, Announced;
    OwnerLists(u, b);
    SuppliedAlso(u, b, ptr);
    var lists := b.Lists(u.side.counter);
    FreedHolds(u.side, lists, ptr, size, b.end);
    HoldsCounter(FreedMem(u.side, ptr, size), Freed(lists, ptr, size), b.end);
    FreeAtMost(lists, ptr, size);
    FreedCount(lists, ptr, size);
    assert multiset(u.live) == multiset(u.live - {ptr}) + multiset{ptr};
  }

  /** A true counter and a size other than 0 lose nothing. */
  lemma FreedKeeps(s: FreeLists.Lists, blocks: nat, ptr: nat, size: nat)
    requires s.counter == |s.thread| < blocks < TWO64 && 1 <= size <= MAX_BYTES && Fits(blocks, GetIndex(size))
    ensures Blocks(Freed(s, ptr, size)) == Blocks(s) + multiset{ptr}
    ensures Freed(s, ptr, size).counter == |Freed(s, ptr, size).thread|
  {
    hide Freed, GetIndex, Fits, Blocks;
    var c := s.counter + 1;
    assert (s.counter + 1) % TWO64 == c;
    FreedCounter(s, ptr, size);
    if c > 256 {
      FitsLess(c - Keep(c), blocks, GetIndex(size));
    }
    FreeKeepsIff(s, ptr, size);
    CounterTrueIff(s, ptr, size);
  }

  lemma GiveKept(u: Use, b: Book, index: nat, ptr: nat, size: nat)
    requires Sound(u, b) && Legal(u, index, Give(ptr, size)) && Kept(u, b, index) && size != 0
    ensures Kept(Step(u, index, Give(ptr, size)), Filed(b, u.side.counter, index, Give(ptr, size)), index)
  {
    hide Holds, Freed, FreedMem, GetIndex, Fits, Keep, Walked, Announced, Sound;
    GiveSound(u, b, index, ptr, size);
    KeptBound(u, b, index);
    assert u.live == (u.live - {ptr}) + {ptr};
    FreedKeeps(b.Lists(u.side.counter), |u.supplied|, ptr, size);
    assert multiset(u.live) == multiset(u.live - {ptr}) + multiset{ptr};
  }

  lemma OthersSound(u: Use, b: Book, index: nat, words: Words)
    requires Sound(u, b) && Legal(u, index, Others(words))
    ensures Sound(Step(u, index, Others(words)), Filed(b, u.side.counter, index, Others(words)))
    ensures Kept(u, b, index) ==> Kept(Step(u, index, Others(words)), Filed(b, u.side.counter, index, Others(words)), index)
  {
    hide Fits;
    OwnerLists(u, b);
    ChainFrame(u.side.words, words, u.side.head, b.thread, 0);
    ChainFrame(u.side.words, words, u.side.central, b.central, b.end);
  }

  // ----- any operation

  /** A thread that is not short serves every request, and every operation keeps the lists in order. */
  lemma StepSound(u: Use, b: Book, index: nat, op: Op)
    requires Sound(u, b) && Legal(u, index, op) && (op.Take? ==> !Short(b))
    ensures Clean(u, index, op) && Sound(Step(u, index, op), Filed(b, u.side.counter, index, op))
    ensures Count(Filed(b, u.side.counter, index, op), Step(u, index, op).side.counter) == Counted(Count(b, u.side.counter), index, op)
  {
    hide Sound, Legal, FetchedMem, Freed, FreedMem, Carved, Holds, Walked, Announced, BlockCount;
    match op
    case Take(span) =>
      if b.thread != [] {
        TakeOwn(u, b, index, span);
      } else if b.central != [] {
        TakeHandedOut(u, b, index, span);
      } else if span != 0 {
        TakeCarved(u, b, index, span);
      } else {
        TakeNothing(u, b, index);
      }
    case Give(ptr, size) => GiveSound(u, b, index, ptr, size);
    case Others(words) => OthersSound(u, b, index, words);
  }

  lemma StepKept(u: Use, b: Book, index: nat, op: Op)
    requires Sound(u, b) && Kept(u, b, index) && Legal(u, index, op) && Fed(u, op) && (op.Take? ==> !Short(b))
    ensures Clean(u, index, op) && Kept(Step(u, index, op), Filed(b, u.side.counter, index, op), index)
  {
    hide Sound, Kept, Legal, Step, Filed, FetchedMem;
    match op
    case Take(span) =>
      if b.thread != [] {
        TakeOwn(u, b, index, span);
      } else if b.central != [] {
        TakeHandedOut(u, b, index, span);
      } else {
        HeldThread(u, b);
        TakeCarved(u, b, index, span);
      }
    case Give(ptr, size) => GiveKept(u, b, index, ptr, size);
    case Others(words) => OthersSound(u, b, index, words);
  }

  /** Requests and releases write only blocks of the class. */
  lemma StepWrites(u: Use, b: Book, index: nat, op: Op)
    requires Sound(u, b) && Legal(u, index, op) && (op.Take? ==> !Short(b)) && !op.Others?
    ensures Clean(u, index, op) && u.supplied <= Step(u, index, op).supplied
    ensures SameBut(u.side.words, Step(u, index, op).side.words, Step(u, index, op).supplied)
  {
    hide Holds, FetchedMem, FreedMem, BlockCount, Carved;
    StepSound(u, b, index, op);
    OwnerLists(u, b);
    match op
    case Take(span) =>
      HeldThread(u, b);
      if b.thread != [] {
        TakenOwn(u.side, b.Lists(u.side.counter), index, span, b.end);
      } else if b.central != [] {
        TakenCentral(u.side, b.Lists(u.side.counter), index, span);
      } else if span != 0 {
        TakenSpan(u.side, b.Lists(u.side.counter), index, span);
      } else {
        TakenNone(u.side, b.Lists(u.side.counter), index);
      }
    case Give(ptr, size) =>
      SuppliedAlso(u, b, ptr);
      FreedHolds(u.side, b.Lists(u.side.counter), ptr, size, b.end);
  }

  /** What an operation may add to the blocks of the class. */
  function Brings(index: nat, op: Op): set<nat>
  {
    if op.Take? then Elems(Carved(op.span, index)) else {}
  }

  lemma StepSupplies(u: Use, index: nat, op: Op)
    requires Clean(u, index, op)
    ensures u.supplied <= Step(u, index, op).supplied <= u.supplied + Brings(index, op)
  {
    hide Carved;
  }

  lemma SuppliedAlso(u: Use, b: Book, ptr: nat)
    requires Sound(u, b) && ptr in u.live
    ensures ptr in u.supplied && ptr != 0 && Elems([ptr] + b.thread) <= u.supplied
  {
    OwnerLists(u, b);
    assert (b.All() + multiset(u.live))[ptr] <= multiset(u.supplied)[ptr];
  }

  /** A short thread that has lost no block is served badly, whatever the callers have written: the walk
      comes back to the block that was handed out first, which is with a caller or in the list already. */
  lemma ShortUnclean(u: Use, b: Book, index: nat, span: nat)
    requires Sound(u, b) && Kept(u, b, index) && Short(b)
    ensures !Clean(u, index, Take(span))
    ensures b.central == [] ==> u.side.head == 0 && u.side.central == b.end && b.end in u.live
  {
    HeldThread(u, b);
    assert b.end in b.central || b.end in u.live by {
      assert (b.All() + multiset(u.live))[b.end] == multiset(u.supplied)[b.end] == 1;
    }
    var m, c := u.side.words, u.side.central;
    if Ends(m, c) {
      var w := ListFrom(m, c);
      ChainBegins(m, c, b.central, b.end, w);
      ChainDistinct(m, c, w);
      assert w[|b.central|] in Elems(w);
      NotTwice(w, |b.central|);
    }
  }

  lemma NotTwice(w: seq<nat>, n: nat)
    requires Distinct(w) && n < |w|
    ensures w[n] !in w[..n]
  {
  }

  /** A thread that has lost no block is served well exactly when it is not short. */
  lemma CleanIffNotShort(u: Use, b: Book, index: nat, span: nat)
    requires Sound(u, b) && Kept(u, b, index) && Legal(u, index, Take(span))
    ensures Clean(u, index, Take(span)) <==> !Short(b)
  {
    hide Sound, Kept, Legal, Clean;
    if Short(b) {
      ShortUnclean(u, b, index, span);
    } else {
      StepSound(u, b, index, Take(span));
    }
  }

  // ----- whole runs

  /** A class that nobody has used. */
  function Unused(words: Words): Use
  {
    Use(Side(words, 0, 0, 0), {}, {})
  }

  /** Callers and page cache do as they should, as long as every request has been served. */
  ghost predicate LegalRun(u: Use, index: nat, ops: seq<Op>)
    decreases |ops|
  {
    ops == [] || (Legal(u, index, ops[0]) && (Clean(u, index, ops[0]) ==> LegalRun(Step(u, index, ops[0]), index, ops[1..])))
  }

  /** Every request is served well. */
  ghost predicate AllClean(u: Use, index: nat, ops: seq<Op>)
    decreases |ops|
  {
    ops == [] || (Clean(u, index, ops[0]) && AllClean(Step(u, index, ops[0]), index, ops[1..]))
  }

  ghost function Run(u: Use, index: nat, ops: seq<Op>): Use
    requires AllClean(u, index, ops)
    decreases |ops|
  {
    if ops == [] then u else Run(Step(u, index, ops[0]), index, ops[1..])
  }

  /** By count alone, no request comes after the last block that the code can still reach. */
  predicate NeverOut(t: Tally, index: nat, ops: seq<Op>)
    decreases |ops|
  {
    ops == [] || (!OutOfBlocks(t, ops[0]) && NeverOut(Counted(t, index, ops[0]), index, ops[1..]))
  }

  predicate AllSteady(ops: seq<Op>)
  {
    forall i :: 0 <= i < |ops| ==> Steady(ops[i])
  }

  lemma UnusedSound(words: Words, index: nat)
    ensures Sound(Unused(words), Book([], [], 0)) && Kept(Unused(words), Book([], [], 0), index)
    ensures Count(Book([], [], 0), Unused(words).side.counter) == NO_BLOCKS
  {
  }

  lemma {:induction false} NeverOutFrom(u: Use, b: Book, index: nat, ops: seq<Op>) returns (b': Book)
    requires Sound(u, b) && LegalRun(u, index, ops) && NeverOut(Count(b, u.side.counter), index, ops)
    ensures AllClean(u, index, ops) && Sound(Run(u, index, ops), b')
    ensures Kept(u, b, index) && AllSteady(ops) ==> Kept(Run(u, index, ops), b', index)
    decreases |ops|
  {
    hide Sound, Kept, Legal, Clean, Step, Filed, Counted;
    b' := b;
    if ops != [] {
      StepSound(u, b, index, ops[0]);
      if Kept(u, b, index) && AllSteady(ops) {
        assert Steady(ops[0]);
        StepKept(u, b, index, ops[0]);
      }
      b' := NeverOutFrom(Step(u, index, ops[0]), Filed(b, u.side.counter, index, ops[0]), index, ops[1..]);
    }
  }

  lemma {:induction false} CleanNeverOut(u: Use, b: Book, index: nat, ops: seq<Op>)
    requires Sound(u, b) && Kept(u, b, index) && LegalRun(u, index, ops) && AllSteady(ops) && AllClean(u, index, ops)
    ensures NeverOut(Count(b, u.side.counter), index, ops)
    decreases |ops|
  {
    hide Sound, Kept, Legal, Clean, Step, Filed, Counted;
    if ops != [] {
      if ops[0].Take? {
        CleanIffNotShort(u, b, index, ops[0].span);
      }
      assert Steady(ops[0]);
      StepSound(u, b, index, ops[0]);
      StepKept(u, b, index, ops[0]);
      CleanNeverOut(Step(u, index, ops[0]), Filed(b, u.side.counter, index, ops[0]), index, ops[1..]);
    }
  }

  /** Over every run, whatever callers do with their blocks: a run that by count never takes more than it
      can reach is served well throughout, and no block is in two places. */
  lemma RunSound(words: Words, index: nat, ops: seq<Op>)
    requires LegalRun(Unused(words), index, ops) && NeverOut(NO_BLOCKS, index, ops)
    ensures AllClean(Unused(words), index, ops) && exists b :: Sound(Run(Unused(words), index, ops), b)
  {
    UnusedSound(words, index);
    var b := NeverOutFrom(Unused(words), Book([], [], 0), index, ops);
  }

  /** A run in which the page cache always has memory and nothing is released under size 0 is served well
      throughout if and only if, by count alone, it never takes more than the code can reach. */
  lemma CleanIff(words: Words, index: nat, ops: seq<Op>)
    requires LegalRun(Unused(words), index, ops) && AllSteady(ops)
    ensures AllClean(Unused(words), index, ops) <==> NeverOut(NO_BLOCKS, index, ops)
  {
    UnusedSound(words, index);
    if AllClean(Unused(words), index, ops) {
      CleanNeverOut(Unused(words), Book([], [], 0), index, ops);
    } else if NeverOut(NO_BLOCKS, index, ops) {
      var b := NeverOutFrom(Unused(words), Book([], [], 0), index, ops);
    }
  }

  /** Until then every block supplied is in one place, with a caller, in the thread's list or in the
      central one, and the counter is true. */
  lemma RunConserves(words: Words, index: nat, ops: seq<Op>)
    requires LegalRun(Unused(words), index, ops) && AllSteady(ops) && AllClean(Unused(words), index, ops)
    ensures var u := Run(Unused(words), index, ops);
            exists b :: Sound(u, b) && Kept(u, b, index)
  {
    UnusedSound(words, index);
    CleanIff(words, index, ops);
    var b := NeverOutFrom(Unused(words), Book([], [], 0), index, ops);
  }

  // ----- classes of 2 to 256 blocks to a span

  /** Callers never hold more than n blocks at a time. */
  predicate Within(live: int, n: nat, ops: seq<Op>)
    decreases |ops|
  {
    ops == [] ||
    match ops[0]
    case Take(span) => live < n && Within(live + 1, n, ops[1..])
    case Give(ptr, size) => Within(live - 1, n, ops[1..])
    case Others(words) => Within(live, n, ops[1..])
  }

  /** A request whose answer is a block that a caller holds. */
  ghost predicate HandsOutLive(u: Use, op: Op)
  {
    op.Take? && u.side.head == 0 && u.side.central in u.live
  }

  /** No block is handed out while a caller holds it, up to the first request that is not served well. */
  ghost predicate NoneTwice(u: Use, index: nat, ops: seq<Op>)
    decreases |ops|
  {
    ops == [] || (!HandsOutLive(u, ops[0]) && (Clean(u, index, ops[0]) ==> NoneTwice(Step(u, index, ops[0]), index, ops[1..])))
  }

  /** One span at most, of which one block is handed out, and then all the others at once. */
  ghost predicate OneSpan(u: Use, b: Book, index: nat)
  {
    if b.end == 0 then u.supplied == {} || (|u.supplied| == BlockCount(index) && |b.central| == BlockCount(index) - 1)
    else |u.supplied| == BlockCount(index) && b.central == []
  }

  lemma OneSpanShort(u: Use, b: Book, index: nat)
    requires Kept(u, b, index) && OneSpan(u, b, index) && 2 <= BlockCount(index)
    ensures |u.live| <= BlockCount(index) && (Short(b) <==> |u.live| == BlockCount(index))
  {
    hide BlockCount, Fits;
    KeptBound(u, b, index);
  }

  lemma OneSpanTake(u: Use, b: Book, index: nat, span: nat)
    requires Sound(u, b) && Kept(u, b, index) && OneSpan(u, b, index) && 2 <= BlockCount(index)
    requires Legal(u, index, Take(span)) && Fed(u, Take(span)) && !Short(b)
    ensures Clean(u, index, Take(span))
    ensures var u', b' := Step(u, index, Take(span)), Filed(b, u.side.counter, index, Take(span));
            OneSpan(u', b', index) && |u'.live| == |u.live| + 1
  {
    hide Sound, Kept, Clean, Holds, BlockCount, TakenMem, Carved, Fits, FetchedMem;
    KeptBound(u, b, index);
    StepSound(u, b, index, Take(span));
    StepKept(u, b, index, Take(span));
    KeptBound(Step(u, index, Take(span)), Filed(b, u.side.counter, index, Take(span)), index);
    HeldThread(u, b);
    if span != 0 {
      SpanBlocks(span, index);
    }
  }

  lemma OneSpanGive(u: Use, b: Book, index: nat, ptr: nat, size: nat)
    requires Sound(u, b) && Kept(u, b, index) && OneSpan(u, b, index) && 2 <= BlockCount(index) <= 256
    requires Legal(u, index, Give(ptr, size)) && size != 0
    ensures var u', b' := Step(u, index, Give(ptr, size)), Filed(b, u.side.counter, index, Give(ptr, size));
            OneSpan(u', b', index) && |u'.live| == |u.live| - 1
  {
    hide Sound, Kept, Holds, BlockCount, FreedMem, Fits, Returned;
    KeptBound(u, b, index);
    assert u.live == (u.live - {ptr}) + {ptr};
  }

  lemma {:induction false} WithinFrom(u: Use, b: Book, index: nat, ops: seq<Op>)
    requires Sound(u, b) && Kept(u, b, index) && OneSpan(u, b, index) && 2 <= BlockCount(index) <= 256
    requires LegalRun(u, index, ops) && AllSteady(ops)
    ensures AllClean(u, index, ops) <==> Within(|u.live|, BlockCount(index), ops)
    ensures NoneTwice(u, index, ops) <==> Within(|u.live|, BlockCount(index), ops)
    decreases |ops|
  {
    hide Sound, Kept, Holds, BlockCount, Step, Filed, Clean, OneSpan, Legal;
    if ops != [] {
      assert Steady(ops[0]);
      var u', b' := if Clean(u, index, ops[0]) then Step(u, index, ops[0]) else u, Filed(b, u.side.counter, index, ops[0]);
      match ops[0] {
        case Take(span) =>
          OneSpanShort(u, b, index);
          ServedOnce(u, b, index, span);
          if !Short(b) {
            OneSpanTake(u, b, index, span);
            StepSound(u, b, index, ops[0]);
            StepKept(u, b, index, ops[0]);
            WithinFrom(u', b', index, ops[1..]);
          }
        case Give(ptr, size) =>
          StepSound(u, b, index, ops[0]);
          StepKept(u, b, index, ops[0]);
          OneSpanGive(u, b, index, ptr, size);
          WithinFrom(u', b', index, ops[1..]);
        case Others(words) =>
          StepSound(u, b, index, ops[0]);
          StepKept(u, b, index, ops[0]);
          OthersOneSpan(u, b, index, words);
          WithinFrom(u', b', index, ops[1..]);
      }
    }
  }

  lemma OthersOneSpan(u: Use, b: Book, index: nat, words: Words)
    requires OneSpan(u, b, index)
    ensures OneSpan(Step(u, index, Others(words)), Filed(b, u.side.counter, index, Others(words)), index) && Step(u, index, Others(words)).live == u.live
  {
  }

  lemma ServedOnce(u: Use, b: Book, index: nat, span: nat)
    requires Sound(u, b) && Kept(u, b, index) && OneSpan(u, b, index) && Legal(u, index, Take(span))
    ensures Clean(u, index, Take(span)) <==> !Short(b)
    ensures HandsOutLive(u, Take(span)) <==> Short(b)
  {
    hide Kept, Holds, BlockCount, Clean;
    CleanIffNotShort(u, b, index, span);
    HeldThread(u, b);
    OwnerLists(u, b);
    if Short(b) {
      ShortUnclean(u, b, index, span);
    } else if b.thread == [] {
      NullNotLive(u, b);
    }
  }

  lemma NullNotLive(u: Use, b: Book)
    requires Sound(u, b)
    ensures 0 !in u.live
  {
    assert (b.All() + multiset(u.live))[0] <= multiset(u.supplied)[0];
  }

  /** For a class of 2 to 256 blocks to a span: every request is served well if and only if callers never
      hold more blocks than one span has, and exactly the same runs hand out no block twice. */
  lemma WithinIff(words: Words, index: nat, ops: seq<Op>)
    requires LegalRun(Unused(words), index, ops) && AllSteady(ops) && 2 <= BlockCount(index) <= 256
    ensures AllClean(Unused(words), index, ops) <==> Within(0, BlockCount(index), ops)
    ensures NoneTwice(Unused(words), index, ops) <==> Within(0, BlockCount(index), ops)
  {
    hide BlockCount;
    UnusedSound(words, index);
    WithinFrom(Unused(words), Book([], [], 0), index, ops);
  }

  /** These are the classes of blocks from 128 to 16384 bytes. */
  lemma TwoTo256(index: nat)
    ensures 2 <= BlockCount(index) <= 256 <==> 128 <= BlockSize(index) <= SPAN_PAGES * PAGE_SIZE / 2
  {
    hide BlockSize;
    BlockPositive(index);
    var b, n := BlockSize(index), BlockCount(index);
    var bytes := PagesCut(b) * PAGE_SIZE;
    AtLeast(bytes, b, 2);
    AtLeast(bytes, b, 257);
  }

  lemma AtLeast(a: nat, b: nat, k: nat)
    requires b > 0
    ensures a / b >= k <==> k * b <= a
  {
    var n, r := a / b, a % b;
    assert a == n * b + r;
    if n >= k {
      Multiples(k, n, b);
    } else {
      Multiples(n + 1, k, b);
      assert (n + 1) * b == n * b + b;
    }
  }

  lemma Multiples(i: nat, j: nat, b: nat)
    requires i <= j
    ensures i * b <= j * b
  {
    assert j * b == i * b + (j - i) * b;
  }

  // ----- one thread gets a block twice

  const HALF_SPAN := SPAN_PAGES * PAGE_SIZE / 2

  lemma ThirdTake(m: Words, span: nat)
    requires span != 0
    ensures var i := Served(HALF_SPAN);
            && CountEnds(Side(m, 0, 0, 0), i, span) &&
            var (s1, p1) := TakenMem(Side(m, 0, 0, 0), i, span);
            && CountEnds(s1, i, 0) &&
            var (s2, p2) := TakenMem(s1, i, 0);
            && CountEnds(s2, i, 0) && p1 == span && p2 == TakenMem(s2, i, 0).1 == span + HALF_SPAN
  {
    var i, s0 := Served(HALF_SPAN), Side(m, 0, 0, 0);
    assert BlockCount(i) == 2 && BlockAt(span, i, 0) == span && BlockAt(span, i, 1) == span + HALF_SPAN;
    assert Carved(span, i) == [span, span + HALF_SPAN];
    hide Served, BlockCount, BlockAt, Carved;
    var l0, l1 := Lists([], 0, []), Lists([], 0, [span + HALF_SPAN]);
    TakenSpan(s0, l0, i, span);
    var s1 := TakenMem(s0, i, span).0;
    assert Allocated(l0, Carved(span, i)).0 == l1;
    TakenCentral(s1, l1, i, 0);
    var s2 := TakenMem(s1, i, 0).0;
    ListIs(s2.words, s2.central, [span + HALF_SPAN]);
  }

  /** A single-block span that is not zeroed: what somebody wrote into it is the next block handed out. */
  lemma DirtySpan(m: Words, index: nat, span: nat, garbage: nat)
    requires span != 0 && BlockCount(index) == 1 && Word(m, span) == garbage != 0 && Word(m, garbage) == 0
    ensures CountEnds(Side(m, 0, 0, 0), index, span) &&
            var (s1, p1) := TakenMem(Side(m, 0, 0, 0), index, span);
            CountEnds(s1, index, 0) && p1 == span && s1.head == s1.central == TakenMem(s1, index, 0).1 == garbage
  {
    hide BlockCount;
    assert Chain(m, span, [span, garbage]);
  }

  /** Three requests of 16384 bytes in a row, by one thread on new caches: the third gets the block that
      the second holds. */
  method ThreeRequests(span: nat) returns (p1: nat, p2: nat, p3: nat)
    requires span != 0
    ensures p1 == span && p2 == span + 16384 == p3
  {
    hide TakenMem, CountEnds, Served;
    ThirdTake(map[], span);
    assert Served(HALF_SPAN) < FREE_LIST_SIZE;
    var mem := new Memory(map[]);
    var central := new CentralCache(mem);
    var thread := new ThreadCache(central);
    assert thread.At(Served(HALF_SPAN)) == Side(map[], 0, 0, 0);
    p1 := thread.Allocate(HALF_SPAN, span, 0);
    p2 := thread.Allocate(HALF_SPAN, 0, 0);
    p3 := thread.Allocate(HALF_SPAN, 0, 0);
  }
}
