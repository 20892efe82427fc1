/** The three tiers together: the page cache grants spans, to the central cache and to others; the central
    cache cuts its own into blocks of one size class each; and blocks go back and forth between callers,
    thread and central cache, in a memory that callers write too. */
module Tiers {
  import opened PageUnit
  import opened Wrappers
  import F = FreeLists
  import M = CacheMemory
  import R = CacheRuns
  import S = Spans

  /** `cuts` says which granted spans each class has cut up; the tallies only count. */
  datatype Pool = Pool(pages: S.State, words: M.Words, classes: seq<R.Use>, cuts: seq<set<S.Block>>, tallies: seq<R.Tally>)

  datatype Op = Allocate(index: nat, sys: Option<nat>) | Release(index: nat, ptr: nat, size: nat) | Write(words: M.Words)
              | GetPages(n: nat, sys: Option<nat>) | PutPages(addr: nat, n: nat)

  function PagesFor(index: nat): nat
  {
    F.PagesAsked(F.BlockSize(index))
  }

  /** The answer of the page cache, if it is asked. */
  ghost function Ask(p: Pool, index: nat, sys: Option<nat>): (S.State, S.Result)
    requires index < |p.classes|
  {
    if R.Asks(p.classes[index].side) then S.Alloc(p.pages, PagesFor(index), sys) else (p.pages, S.NoMemory)
  }

  ghost function SpanFor(p: Pool, index: nat, sys: Option<nat>): nat
    requires index < |p.classes|
  {
    var r := Ask(p, index, sys).1;
    if r.Granted? then r.addr else 0
  }

  /** mmap answers with new memory; a span that becomes a single block is zeroed, and everything fits an
      address space of 64 bits. Callers release what they hold under a size of its class, other clients of
      the page cache release spans of their own, and nobody writes a free block. */
  ghost predicate Legal(p: Pool, op: Op)
  {
    |p.cuts| == |p.tallies| == |p.classes| &&
    match op
    case Allocate(index, sys) =>
      && index < |p.classes| && (sys.Some? ==> S.FreshFromSystem(p.pages, sys.value, PagesFor(index)))
      && (SpanFor(p, index, sys) != 0 ==>
            && F.Fits(|p.classes[index].supplied| + F.BlockCount(index), index)
            && (F.BlockCount(index) == 1 ==> M.Word(p.words, SpanFor(p, index, sys)) == 0))
    case Release(index, ptr, size) =>
      index < |p.classes| && ptr in p.classes[index].live && size <= F.MAX_BYTES && F.GetIndex(size) == index
    case Write(words) =>
      forall i, x :: 0 <= i < |p.classes| && x in p.classes[i].supplied && x !in p.classes[i].live ==>
                       M.Word(words, x) == M.Word(p.words, x)
    case GetPages(n, sys) => n >= 1 && (sys.Some? ==> S.FreshFromSystem(p.pages, sys.value, n))
    case PutPages(addr, n) =>
      S.Releasable(p.pages, addr, n) && forall i :: 0 <= i < |p.cuts| ==> S.Block(addr, n) !in p.cuts[i]
  }

  /** A request that serves its caller; the page cache does not run into a null list head. */
  ghost predicate Clean(p: Pool, op: Op)
  {
    match op
    case Allocate(index, sys) =>
      index < |p.classes| ==>
        !Ask(p, index, sys).1.Fault? && R.Clean(p.classes[index], index, R.Take(SpanFor(p, index, sys)))
    case GetPages(n, sys) => !S.Alloc(p.pages, n, sys).1.Fault?
    case _ => true
  }

  function Rewritten(u: R.Use, words: M.Words): R.Use
  {
    u.(side := u.side.(words := words))
  }

  /** One class does something; the others see the memory change. */
  ghost function WithClass(p: Pool, index: nat, op: R.Op): Pool
    requires index < |p.classes| == |p.tallies| && R.Clean(p.classes[index], index, op)
  {
    var u := R.Step(p.classes[index], index, op);
    p.(words := u.side.words,
       classes := seq(|p.classes|, i requires 0 <= i < |p.classes| => if i == index then u else Rewritten(p.classes[i], u.side.words)),
       tallies := p.tallies[index := R.Counted(p.tallies[index], index, op)])
  }

  ghost function Step(p: Pool, op: Op): Pool
    requires Legal(p, op) && Clean(p, op)
  {
    match op
    case Allocate(index, sys) =>
      var span := SpanFor(p, index, sys);
      var q := WithClass(p, index, R.Take(span));
      if span == 0 then q
      else q.(pages := Ask(p, index, sys).0, cuts := p.cuts[index := p.cuts[index] + {S.Block(span, PagesFor(index))}])
    case Release(index, ptr, size) => WithClass(p, index, R.Give(ptr, size))
    case Write(words) =>
      p.(words := words, classes := seq(|p.classes|, i requires 0 <= i < |p.classes| => Rewritten(p.classes[i], words)))
    case GetPages(n, sys) => p.(pages := S.Alloc(p.pages, n, sys).0)
    case PutPages(addr, n) => p.(pages := S.Free(p.pages, addr, n))
  }

  // ----- the invariant

  /** x is a block of the class in that span. */
  ghost predicate InSpan(x: nat, index: nat, b: S.Block)
  {
    b.pages == PagesFor(index) && exists k :: 0 <= k < F.BlockCount(index) && x == F.BlockAt(b.addr, index, k)
  }

  ghost predicate Placed(supplied: set<nat>, index: nat, cuts: set<S.Block>)
  {
    forall x :: x in supplied ==> exists b :: b in cuts && InSpan(x, index, b)
  }

  ghost predicate PagesSound(s: S.State)
  {
    S.Inv(s) && forall b :: S.Known(s, b) ==> b.addr > 0
  }

  /** Spans that have been cut up are live, and each belongs to one class. */
  ghost predicate CutsSound(s: S.State, cuts: seq<set<S.Block>>)
  {
    && (forall i, b :: 0 <= i < |cuts| && b in cuts[i] ==> b in s.live)
    && (forall i, j, b :: 0 <= i < j < |cuts| && b in cuts[i] ==> b !in cuts[j])
  }

  ghost predicate ClassSound(p: Pool, books: seq<R.Book>, i: nat)
    requires i < |books| == |p.classes| == |p.tallies| == |p.cuts|
  {
    var u := p.classes[i];
    && R.Sound(u, books[i]) && u.side.words == p.words && p.tallies[i] == R.Count(books[i], u.side.counter)
    && Placed(u.supplied, i, p.cuts[i])
  }

  /** The page cache is in order, every class is, and every block lies in a live span that only its class
      has cut up. */
  ghost predicate Sound(p: Pool, books: seq<R.Book>)
  {
    && |books| == |p.classes| == |p.tallies| == |p.cuts|
    && PagesSound(p.pages) && CutsSound(p.pages, p.cuts)
    && forall i :: 0 <= i < |p.classes| ==> ClassSound(p, books, i)
  }

  /** No class has lost a block, and all counters are true. */
  ghost predicate Kept(p: Pool, books: seq<R.Book>)
  {
    |books| == |p.classes| && forall i :: 0 <= i < |p.classes| ==> R.Kept(p.classes[i], books[i], i)
  }

  // ----- blocks apart

  lemma InsideSpan(x: nat, index: nat, b: S.Block)
    requires InSpan(x, index, b)
    ensures b.addr <= x && x + F.BlockSize(index) <= b.End()
  {
    var k :| 0 <= k < F.BlockCount(index) && x == F.BlockAt(b.addr, index, k);
    F.CutFits(index);
    Below(k, F.BlockCount(index), F.BlockSize(index));
  }

  lemma Below(k: nat, n: nat, b: nat)
    requires k < n
    ensures k * b + b <= n * b
  {
    assert n * b == k * b + b + (n - k - 1) * b;
  }

  ghost predicate ApartBytes(x: nat, i: nat, y: nat, j: nat)
  {
    x + F.BlockSize(i) <= y || y + F.BlockSize(j) <= x
  }

  lemma InSpanApart(s: S.State, cuts: seq<set<S.Block>>, i: nat, x: nat, b: S.Block, j: nat, y: nat, c: S.Block)
    requires PagesSound(s) && CutsSound(s, cuts) && i < |cuts| && j < |cuts| && b in cuts[i] && c in cuts[j]
    requires InSpan(x, i, b) && InSpan(y, j, c) && (x != y || i != j)
    ensures ApartBytes(x, i, y, j)
  {
    InsideSpan(x, i, b);
    InsideSpan(y, j, c);
    if b == c {
      assert i == j;
      var k :| 0 <= k < F.BlockCount(i) && x == F.BlockAt(b.addr, i, k);
      var l :| 0 <= l < F.BlockCount(i) && y == F.BlockAt(b.addr, i, l);
      if k < l {
        F.BlocksApart(b.addr, i, k, l);
      } else {
        F.BlocksApart(b.addr, i, l, k);
      }
    } else {
      assert S.Known(s, b) && S.Known(s, c) && S.Apart(b, c);
    }
  }

  /** No two blocks of any size classes overlap: not those that callers hold, and none in a list either. */
  lemma SuppliedApart(p: Pool, books: seq<R.Book>, i: nat, x: nat, j: nat, y: nat)
    requires Sound(p, books) && i < |p.classes| && j < |p.classes| && (x != y || i != j)
    requires x in p.classes[i].supplied && y in p.classes[j].supplied
    ensures ApartBytes(x, i, y, j)
  {
    assert ClassSound(p, books, i) && ClassSound(p, books, j);
    var b :| b in p.cuts[i] && InSpan(x, i, b);
    var c :| c in p.cuts[j] && InSpan(y, j, c);
    InSpanApart(p.pages, p.cuts, i, x, b, j, y, c);
  }

  /** The classes have no block in common. */
  lemma OneClass(p: Pool, books: seq<R.Book>, i: nat, j: nat, x: nat)
    requires Sound(p, books) && i < |p.classes| && j < |p.classes| && i != j && x in p.classes[i].supplied
    ensures x !in p.classes[j].supplied
  {
    if x in p.classes[j].supplied {
      SuppliedApart(p, books, i, x, j, x);
      F.BlockPositive(i);
      F.BlockPositive(j);
    }
  }

  // ----- a new span

  /** The blocks of a span that has just been granted are in no list and with no caller, of any class. */
  lemma GrantUnused(p: Pool, books: seq<R.Book>, index: nat, sys: Option<nat>, i: nat, x: nat)
    requires Sound(p, books) && index < |p.classes| && i < |p.classes|
    requires sys.Some? ==> S.FreshFromSystem(p.pages, sys.value, PagesFor(index))
    requires x in F.Carved(SpanFor(p, index, sys), index)
    ensures x !in p.classes[i].supplied
  {
    var (s, r) := Ask(p, index, sys);
    var got := S.Block(r.addr, PagesFor(index));
    PagesPositive(index);
    S.AllocGrant(p.pages, got.pages, sys);
    CarvedInSpan(got, index, x);
    assert ClassSound(p, books, i);
    forall b | b in p.cuts[i] ensures !InSpan(x, i, b) {
      assert S.Known(s, b) && S.Known(s, got) && b != got;
      OneSpan(x, i, b, index, got);
    }
  }

  lemma OneSpan(x: nat, i: nat, b: S.Block, j: nat, c: S.Block)
    requires S.Apart(b, c) && InSpan(x, j, c)
    ensures !InSpan(x, i, b)
  {
    if InSpan(x, i, b) {
      InsideSpan(x, i, b);
      InsideSpan(x, j, c);
    }
  }

  lemma PagesPositive(index: nat)
    ensures PagesFor(index) >= 1
  {
  }

  lemma CarvedInSpan(b: S.Block, index: nat, x: nat)
    requires b.pages == PagesFor(index) && x in F.Carved(b.addr, index)
    ensures InSpan(x, index, b)
  {
    var k :| 0 <= k < |F.Carved(b.addr, index)| && F.Carved(b.addr, index)[k] == x;
  }

  // ----- every step keeps the pool in order

  lemma PlacedMore(supplied: set<nat>, index: nat, cuts: set<S.Block>, supplied': set<nat>, cuts': set<S.Block>, new': set<nat>)
    requires Placed(supplied, index, cuts) && cuts <= cuts' && supplied' <= supplied + new' && Placed(new', index, cuts')
    ensures Placed(supplied', index, cuts')
  {
    forall x | x in supplied' ensures exists b :: b in cuts' && InSpan(x, index, b) {
      if x in supplied {
        var b :| b in cuts && InSpan(x, index, b);
      }
    }
  }

  /** The class itself. */
  lemma OwnClass(p: Pool, books: seq<R.Book>, index: nat, op: R.Op, cuts': set<S.Block>)
    requires Sound(p, books) && index < |p.classes| && !op.Others? && R.Legal(p.classes[index], index, op)
    requires op.Take? ==> !R.Short(books[index])
    requires p.cuts[index] <= cuts' && Placed(R.Brings(index, op), index, cuts')
    ensures var u := p.classes[index];
            && R.Clean(u, index, op) &&
            var u', b' := R.Step(u, index, op), R.Filed(books[index], u.side.counter, index, op);
            && R.Sound(u', b') && R.Counted(p.tallies[index], index, op) == R.Count(b', u'.side.counter)
            && Placed(u'.supplied, index, cuts')
            && (R.Kept(u, books[index], index) && R.Fed(u, op) ==> R.Kept(u', b', index))
  {
    hide R.Sound, R.Kept, R.Legal, R.Clean, R.Step, R.Filed, R.Counted, R.Brings, Placed;
    assert ClassSound(p, books, index);
    var u, b := p.classes[index], books[index];
    R.StepSound(u, b, index, op);
    R.StepSupplies(u, index, op);
    PlacedMore(u.supplied, index, p.cuts[index], R.Step(u, index, op).supplied, cuts', R.Brings(index, op));
    if R.Kept(u, b, index) && R.Fed(u, op) {
      R.StepKept(u, b, index, op);
    }
  }

  /** Another class: its free blocks are not written. */
  lemma OtherClass(p: Pool, books: seq<R.Book>, index: nat, op: R.Op, j: nat)
    requires Sound(p, books) && index < |p.classes| && j < |p.classes| && j != index
    requires !op.Others? && R.Legal(p.classes[index], index, op) && (op.Take? ==> !R.Short(books[index]))
    requires R.Brings(index, op) !! p.classes[j].supplied
    ensures var u, v := p.classes[index], p.classes[j];
            && R.Clean(u, index, op) &&
            var v' := Rewritten(v, R.Step(u, index, op).side.words);
            && R.Sound(v', books[j]) && (R.Kept(v, books[j], j) ==> R.Kept(v', books[j], j))
  {
    hide R.Sound, R.Kept, R.Legal, R.Clean, R.Step, R.Filed, R.Counted, R.Brings, Placed;
    assert ClassSound(p, books, index) && ClassSound(p, books, j);
    var u, v := p.classes[index], p.classes[j];
    R.StepWrites(u, books[index], index, op);
    R.StepSupplies(u, index, op);
    var words := R.Step(u, index, op).side.words;
    forall x | x in v.supplied ensures M.Word(words, x) == M.Word(p.words, x) {
      OneClass(p, books, j, index, x);
    }
    WordsKept(v, books[j], j, words);
  }

  lemma WordsKept(u: R.Use, b: R.Book, i: nat, words: M.Words)
    requires R.Sound(u, b) && forall x :: x in u.supplied && x !in u.live ==> M.Word(words, x) == M.Word(u.side.words, x)
    ensures R.Sound(Rewritten(u, words), b) && (R.Kept(u, b, i) ==> R.Kept(Rewritten(u, words), b, i))
  {
    hide R.Sound, R.Kept;
    R.OthersSound(u, b, i, R.Others(words).words);
  }

  /** One class does something, and the page cache and the cuts may change with it. */
  lemma ClassStep(p: Pool, books: seq<R.Book>, index: nat, op: R.Op, s: S.State, cuts: seq<set<S.Block>>)
    requires Sound(p, books) && index < |p.classes| && !op.Others? && R.Legal(p.classes[index], index, op)
    requires op.Take? ==> !R.Short(books[index])
    requires |cuts| == |p.cuts| && PagesSound(s) && CutsSound(s, cuts)
    requires p.cuts[index] <= cuts[index] && forall j :: 0 <= j < |cuts| && j != index ==> cuts[j] == p.cuts[j]
    requires Placed(R.Brings(index, op), index, cuts[index])
    requires forall j :: 0 <= j < |p.classes| && j != index ==> R.Brings(index, op) !! p.classes[j].supplied
    ensures R.Clean(p.classes[index], index, op)
    ensures var u := p.classes[index];
            var books' := books[index := R.Filed(books[index], u.side.counter, index, op)];
            var p' := WithClass(p, index, op).(pages := s, cuts := cuts);
            Sound(p', books') && (Kept(p, books) && R.Fed(u, op) ==> Kept(p', books'))
  {
    hide R.Sound, R.Kept, R.Legal, R.Clean, R.Step, R.Filed, R.Counted, R.Brings, Placed, PagesSound, CutsSound, R.Fed, R.Short;
    OwnClass(p, books, index, op, cuts[index]);
    var u := p.classes[index];
    var books' := books[index := R.Filed(books[index], u.side.counter, index, op)];
    var p' := WithClass(p, index, op).(pages := s, cuts := cuts);
    forall j | 0 <= j < |p.classes|
      ensures ClassSound(p', books', j)
      ensures Kept(p, books) && R.Fed(u, op) ==> R.Kept(p'.classes[j], books'[j], j)
    {
      assert ClassSound(p, books, j);
      if j != index {
        OtherClass(p, books, index, op, j);
      }
    }
  }

  /** The new span, as the page cache and the cuts see it. */
  lemma SpanCut(p: Pool, books: seq<R.Book>, index: nat, sys: Option<nat>)
    requires Sound(p, books) && Legal(p, Allocate(index, sys)) && SpanFor(p, index, sys) != 0
    ensures var got := S.Block(SpanFor(p, index, sys), PagesFor(index));
            PagesSound(Ask(p, index, sys).0) && CutsSound(Ask(p, index, sys).0, p.cuts[index := p.cuts[index] + {got}])
  {
    hide S.Inv, S.Alloc, R.Sound, Placed;
    PagesPositive(index);
    S.AllocGrant(p.pages, PagesFor(index), sys);
    var got := S.Block(SpanFor(p, index, sys), PagesFor(index));
    assert got !in p.pages.live;
  }

  lemma SpanBrings(p: Pool, books: seq<R.Book>, index: nat, sys: Option<nat>)
    requires Sound(p, books) && Legal(p, Allocate(index, sys)) && SpanFor(p, index, sys) != 0
    ensures var span := SpanFor(p, index, sys);
            Placed(R.Brings(index, R.Take(span)), index, p.cuts[index] + {S.Block(span, PagesFor(index))})
    ensures forall j :: 0 <= j < |p.classes| ==> R.Brings(index, R.Take(SpanFor(p, index, sys))) !! p.classes[j].supplied
    ensures R.Legal(p.classes[index], index, R.Take(SpanFor(p, index, sys)))
  {
    hide S.Inv, S.Alloc, R.Sound, F.Carved, F.Fits, F.BlockCount;
    assert ClassSound(p, books, index);
    var span := SpanFor(p, index, sys);
    var got := S.Block(span, PagesFor(index));
    assert forall x :: x in R.Brings(index, R.Take(span)) <==> x in F.Carved(span, index);
    forall x | x in F.Carved(span, index)
      ensures InSpan(x, index, got) && forall j :: 0 <= j < |p.classes| ==> x !in p.classes[j].supplied
    {
      CarvedInSpan(got, index, x);
      forall j | 0 <= j < |p.classes| ensures x !in p.classes[j].supplied {
        GrantUnused(p, books, index, sys, j, x);
      }
    }
  }

  lemma NothingBrought(index: nat, cuts: set<S.Block>)
    ensures R.Brings(index, R.Take(0)) == {} && Placed({}, index, cuts)
    ensures forall ptr, size :: R.Brings(index, R.Give(ptr, size)) == {}
  {
  }

  /** What the class makes of the operation, and the lists after it. */
  ghost function Refiled(p: Pool, books: seq<R.Book>, op: Op): seq<R.Book>
    requires Legal(p, op) && |books| == |p.classes|
  {
    match op
    case Allocate(index, sys) =>
      books[index := R.Filed(books[index], p.classes[index].side.counter, index, R.Take(SpanFor(p, index, sys)))]
    case Release(index, ptr, size) =>
      books[index := R.Filed(books[index], p.classes[index].side.counter, index, R.Give(ptr, size))]
    case _ => books
  }

  /** By count alone: the thread has no block of the class, and the central list has been handed out. */
  predicate OutOfBlocks(p: Pool, op: Op)
  {
    op.Allocate? && op.index < |p.tallies| && R.OutOfBlocks(p.tallies[op.index], R.Take(0))
  }

  /** A release of pages that leaves no empty list. */
  ghost predicate Careful(p: Pool, op: Op)
  {
    op.PutPages? ==> !S.LeavesEmpty(p.pages, op.addr, op.n)
  }

  /** The page cache has memory whenever the central cache asks, and nothing is released under size 0. */
  ghost predicate Steady(p: Pool, op: Op)
  {
    match op
    case Allocate(index, sys) =>
      index < |p.classes| && R.Asks(p.classes[index].side) ==> SpanFor(p, index, sys) != 0
    case Release(index, ptr, size) => size != 0
    case _ => true
  }

  lemma AllocateSound(p: Pool, books: seq<R.Book>, index: nat, sys: Option<nat>)
    requires Sound(p, books) && S.NoEmpty(p.pages) && Legal(p, Allocate(index, sys)) && !R.Short(books[index])
    ensures var op := Allocate(index, sys);
            && Clean(p, op) && Sound(Step(p, op), Refiled(p, books, op)) && S.NoEmpty(Step(p, op).pages)
            && (Kept(p, books) && Steady(p, op) ==> Kept(Step(p, op), Refiled(p, books, op)))
  {
    hide S.Inv, S.Alloc, S.NoEmpty, R.Sound, R.Kept, R.Clean, R.Step, R.Filed, R.Counted, R.Brings, Placed, F.BlockCount, F.Fits, F.Carved, PagesSound, CutsSound, Kept;
    S.AllocNoEmpty(p.pages, PagesFor(index), sys);
    var span := SpanFor(p, index, sys);
    var u := p.classes[index];
    assert ClassSound(p, books, index);
    if span == 0 {
      NothingBrought(index, p.cuts[index]);
      ClassStep(p, books, index, R.Take(0), p.pages, p.cuts);
    } else {
      SpanCut(p, books, index, sys);
      SpanBrings(p, books, index, sys);
      var got := S.Block(span, PagesFor(index));
      ClassStep(p, books, index, R.Take(span), Ask(p, index, sys).0, p.cuts[index := p.cuts[index] + {got}]);
    }
  }

  lemma ReleaseSound(p: Pool, books: seq<R.Book>, index: nat, ptr: nat, size: nat)
    requires Sound(p, books) && Legal(p, Release(index, ptr, size))
    ensures var op := Release(index, ptr, size);
            && Sound(Step(p, op), Refiled(p, books, op))
            && (Kept(p, books) && Steady(p, op) ==> Kept(Step(p, op), Refiled(p, books, op)))
  {
    hide R.Sound, R.Kept, R.Step, R.Filed, R.Counted, R.Brings, Placed, PagesSound, CutsSound, Kept;
    NothingBrought(index, p.cuts[index]);
    ClassStep(p, books, index, R.Give(ptr, size), p.pages, p.cuts);
  }

  lemma WriteSound(p: Pool, books: seq<R.Book>, words: M.Words)
    requires Sound(p, books) && Legal(p, Write(words))
    ensures Sound(Step(p, Write(words)), books) && (Kept(p, books) ==> Kept(Step(p, Write(words)), books))
  {
    hide R.Sound, R.Kept, Placed, PagesSound, CutsSound;
    var p' := Step(p, Write(words));
    forall i | 0 <= i < |p.classes|
      ensures ClassSound(p', books, i) && (R.Kept(p.classes[i], books[i], i) ==> R.Kept(p'.classes[i], books[i], i))
    {
      assert ClassSound(p, books, i);
      WordsKept(p.classes[i], books[i], i, words);
    }
  }

  /** Other clients of the page cache leave the spans alone that the classes have cut up. */
  lemma PagesChange(p: Pool, books: seq<R.Book>, s: S.State)
    requires Sound(p, books) && PagesSound(s) && forall i, b :: 0 <= i < |p.cuts| && b in p.cuts[i] ==> b in s.live
    ensures Sound(p.(pages := s), books) && (Kept(p, books) ==> Kept(p.(pages := s), books))
  {
    hide R.Sound, R.Kept, Placed, PagesSound;
    var p' := p.(pages := s);
    forall i | 0 <= i < |p.classes| ensures ClassSound(p', books, i) {
      assert ClassSound(p, books, i);
    }
  }

  lemma GetPagesSound(p: Pool, books: seq<R.Book>, n: nat, sys: Option<nat>)
    requires Sound(p, books) && S.NoEmpty(p.pages) && Legal(p, GetPages(n, sys))
    ensures var op := GetPages(n, sys);
            && Clean(p, op) && Sound(Step(p, op), books) && S.NoEmpty(Step(p, op).pages)
            && (Kept(p, books) ==> Kept(Step(p, op), books))
  {
    hide S.Inv, S.Alloc, S.NoEmpty, ClassSound, Kept;
    S.AllocNoEmpty(p.pages, n, sys);
    var (s, r) := S.Alloc(p.pages, n, sys);
    if r.Granted? {
      S.AllocGrant(p.pages, n, sys);
    } else {
      AllocNothing(p.pages, n, sys);
    }
    PagesChange(p, books, s);
  }

  lemma AllocNothing(s: S.State, n: nat, sys: Option<nat>)
    requires !S.Alloc(s, n, sys).1.Granted?
    ensures S.Alloc(s, n, sys).0 == s
  {
  }

  lemma PutPagesSound(p: Pool, books: seq<R.Book>, addr: nat, n: nat)
    requires Sound(p, books) && S.NoEmpty(p.pages) && Legal(p, PutPages(addr, n)) && Careful(p, PutPages(addr, n))
    ensures var op := PutPages(addr, n);
            && Sound(Step(p, op), books) && S.NoEmpty(Step(p, op).pages) && (Kept(p, books) ==> Kept(Step(p, op), books))
  {
    hide S.Inv, S.Free, S.NoEmpty, S.LeavesEmpty, ClassSound, Kept, S.Releasable;
    S.LeavesEmptyIff(p.pages, addr, n);
    S.FreeKeeps(p.pages, addr, n);
    FreePositive(p.pages, addr, n);
    PagesChange(p, books, S.Free(p.pages, addr, n));
  }

  /** A release makes no block at address 0. */
  lemma FreePositive(s: S.State, addr: nat, n: nat)
    requires PagesSound(s) && S.Releasable(s, addr, n)
    ensures PagesSound(S.Free(s, addr, n))
  {
    hide S.Inv, S.Free, S.Known, S.Mergeable;
    S.FreeKeeps(s, addr, n);
    if addr in s.recorded {
      RecordedPositive(s, addr);
      if S.Mergeable(s, addr, n) {
        S.FreeMergedKeeps(s, addr, n);
      } else {
        S.FreeAloneKeeps(s, addr, n);
      }
    }
  }

  lemma RecordedPositive(s: S.State, addr: nat)
    requires PagesSound(s) && addr in s.recorded
    ensures addr > 0
  {
    assert S.Known(s, s.recorded[addr]);
  }

  lemma StepSound(p: Pool, books: seq<R.Book>, op: Op)
    requires Sound(p, books) && S.NoEmpty(p.pages) && Legal(p, op) && Careful(p, op) && !OutOfBlocks(p, op)
    ensures Clean(p, op) && Sound(Step(p, op), Refiled(p, books, op)) && S.NoEmpty(Step(p, op).pages)
    ensures Kept(p, books) && Steady(p, op) ==> Kept(Step(p, op), Refiled(p, books, op))
  {
    hide S.Inv, S.NoEmpty, S.Alloc, S.Free, R.Sound, R.Kept, R.Clean, R.Filed, R.Step, R.Counted, Kept, Careful, Steady;
    match op
    case Allocate(index, sys) =>
      NotShort(p, books, index);
      AllocateSound(p, books, index, sys);
    case Release(index, ptr, size) => ReleaseSound(p, books, index, ptr, size);
    case Write(words) => WriteSound(p, books, words);
    case GetPages(n, sys) => GetPagesSound(p, books, n, sys);
    case PutPages(addr, n) => PutPagesSound(p, books, addr, n);
  }

  lemma NotShort(p: Pool, books: seq<R.Book>, index: nat)
    requires Sound(p, books) && index < |p.classes|
    ensures R.OutOfBlocks(p.tallies[index], R.Take(0)) <==> R.Short(books[index])
  {
    assert ClassSound(p, books, index);
  }

  // ----- whole runs of the three tiers

  /** Everybody does as they should, as long as every request has been served. */
  ghost predicate LegalRun(p: Pool, ops: seq<Op>)
    decreases |ops|
  {
    ops == [] || (Legal(p, ops[0]) && (Clean(p, ops[0]) ==> LegalRun(Step(p, ops[0]), ops[1..])))
  }

  ghost predicate AllClean(p: Pool, ops: seq<Op>)
    requires LegalRun(p, ops)
    decreases |ops|
  {
    ops == [] || (Clean(p, ops[0]) && AllClean(Step(p, ops[0]), ops[1..]))
  }

  ghost function Run(p: Pool, ops: seq<Op>): Pool
    requires LegalRun(p, ops) && AllClean(p, ops)
    decreases |ops|
  {
    if ops == [] then p else Run(Step(p, ops[0]), ops[1..])
  }

  /** No class is asked for more than the code can reach, by count alone. */
  ghost predicate NeverOut(p: Pool, ops: seq<Op>)
    requires LegalRun(p, ops)
    decreases |ops|
  {
    ops == [] || (!OutOfBlocks(p, ops[0]) && (Clean(p, ops[0]) ==> NeverOut(Step(p, ops[0]), ops[1..])))
  }

  /** No release of pages leaves an empty list. */
  ghost predicate AllCareful(p: Pool, ops: seq<Op>)
    requires LegalRun(p, ops)
    decreases |ops|
  {
    ops == [] || (Careful(p, ops[0]) && (Clean(p, ops[0]) ==> AllCareful(Step(p, ops[0]), ops[1..])))
  }

  ghost predicate AllSteady(p: Pool, ops: seq<Op>)
    requires LegalRun(p, ops)
    decreases |ops|
  {
    ops == [] || (Steady(p, ops[0]) && (Clean(p, ops[0]) ==> AllSteady(Step(p, ops[0]), ops[1..])))
  }

  /** Nothing cut up yet, on top of any page cache in order. */
  ghost predicate Initial(p: Pool)
  {
    && PagesSound(p.pages) && S.NoEmpty(p.pages)
    && p.classes == seq(F.FREE_LIST_SIZE, _ => R.Unused(p.words))
    && p.cuts == seq(F.FREE_LIST_SIZE, _ => {}) && p.tallies == seq(F.FREE_LIST_SIZE, _ => R.NO_BLOCKS)
  }

  lemma InitialSound(p: Pool) returns (books: seq<R.Book>)
    requires Initial(p)
    ensures Sound(p, books) && Kept(p, books)
  {
    hide R.Sound, R.Kept;
    books := seq(F.FREE_LIST_SIZE, _ => R.Book([], [], 0));
    forall i | 0 <= i < |p.classes| ensures ClassSound(p, books, i) && R.Kept(p.classes[i], books[i], i) {
      R.UnusedSound(p.words, i);
    }
  }

  lemma {:induction false} RunFrom(p: Pool, books: seq<R.Book>, ops: seq<Op>) returns (books': seq<R.Book>)
    requires Sound(p, books) && S.NoEmpty(p.pages) && LegalRun(p, ops) && AllCareful(p, ops) && NeverOut(p, ops)
    ensures AllClean(p, ops) && Sound(Run(p, ops), books')
    ensures Kept(p, books) && AllSteady(p, ops) ==> Kept(Run(p, ops), books')
    decreases |ops|
  {
    hide Sound, Kept, Step, Legal, Clean, Refiled, Careful, OutOfBlocks, Steady, S.NoEmpty;
    books' := books;
    if ops != [] {
      SoundLength(p, books);
      StepSound(p, books, ops[0]);
      books' := RunFrom(Step(p, ops[0]), Refiled(p, books, ops[0]), ops[1..]);
    }
  }

  lemma SoundLength(p: Pool, books: seq<R.Book>)
    requires Sound(p, books)
    ensures |books| == |p.classes|
  {
  }

  /** Where nothing is lost, a request that serves its caller does not come out of blocks. */
  lemma CleanNotOut(p: Pool, books: seq<R.Book>, op: Op)
    requires Sound(p, books) && Kept(p, books) && Legal(p, op) && Clean(p, op) && Steady(p, op)
    ensures !OutOfBlocks(p, op)
  {
    hide R.Sound, R.Kept, R.Clean, S.Alloc, S.Inv;
    if op.Allocate? && OutOfBlocks(p, op) {
      NotShort(p, books, op.index);
      assert ClassSound(p, books, op.index);
      R.ShortUnclean(p.classes[op.index], books[op.index], op.index, SpanFor(p, op.index, op.sys));
    }
  }

  lemma {:induction false} CleanRunNeverOut(p: Pool, books: seq<R.Book>, ops: seq<Op>)
    requires Sound(p, books) && Kept(p, books) && S.NoEmpty(p.pages)
    requires LegalRun(p, ops) && AllCareful(p, ops) && AllSteady(p, ops) && AllClean(p, ops)
    ensures NeverOut(p, ops)
    decreases |ops|
  {
    hide Sound, Kept, Step, Legal, Clean, Refiled, Careful, OutOfBlocks, Steady, S.NoEmpty;
    if ops != [] {
      SoundLength(p, books);
      CleanNotOut(p, books, ops[0]);
      StepSound(p, books, ops[0]);
      CleanRunNeverOut(Step(p, ops[0]), Refiled(p, books, ops[0]), ops[1..]);
    }
  }

  /** Over every run of the three tiers, in which requests of all sizes mix, some fail, callers write their
      blocks and other clients get and put back pages: if by count no class is asked for more than the code
      can reach, then every request is served well and no two blocks that callers hold overlap in a byte. */
  lemma RunApart(p: Pool, ops: seq<Op>)
    requires Initial(p) && LegalRun(p, ops) && AllCareful(p, ops) && NeverOut(p, ops)
    ensures AllClean(p, ops)
    ensures LiveApart(Run(p, ops))
  {
    hide LegalRun, AllClean, Run, AllCareful, NeverOut, Sound, ApartBytes;
    var books := InitialSound(p);
    InitialPages(p);
    books := RunFrom(p, books, ops);
    var q := Run(p, ops);
    SoundLength(q, books);
    forall i, x, j, y | 0 <= i < |q.classes| && 0 <= j < |q.classes| && x in q.classes[i].live && y in q.classes[j].live
      ensures (x == y && i == j) || ApartBytes(x, i, y, j)
    {
      LiveSupplied(q, books, i, x);
      LiveSupplied(q, books, j, y);
      if x != y || i != j {
        SuppliedApart(q, books, i, x, j, y);
      }
    }
  }

  /** No two blocks that callers hold, of any sizes, overlap in a byte. */
  ghost predicate LiveApart(p: Pool)
  {
    forall i, x, j, y :: 0 <= i < |p.classes| && 0 <= j < |p.classes| && x in p.classes[i].live && y in p.classes[j].live ==>
      (x == y && i == j) || ApartBytes(x, i, y, j)
  }

  lemma InitialPages(p: Pool)
    requires Initial(p)
    ensures S.NoEmpty(p.pages)
  {
  }

  lemma LiveSupplied(p: Pool, books: seq<R.Book>, i: nat, x: nat)
    requires Sound(p, books) && i < |p.classes| && x in p.classes[i].live
    ensures x in p.classes[i].supplied
  {
    hide R.Sound;
    assert ClassSound(p, books, i);
    R.SuppliedAlso(p.classes[i], books[i], x);
  }

  /** Where the page cache always has memory and nothing is released under size 0, that count is the exact
      condition for every request to be served well. */
  lemma RunCleanIff(p: Pool, ops: seq<Op>)
    requires Initial(p) && LegalRun(p, ops) && AllCareful(p, ops) && AllSteady(p, ops)
    ensures AllClean(p, ops) <==> NeverOut(p, ops)
  {
    hide LegalRun, AllClean, Run, AllCareful, NeverOut, Sound, Kept, AllSteady;
    var books := InitialSound(p);
    InitialPages(p);
    if NeverOut(p, ops) {
      var books' := RunFrom(p, books, ops);
    }
    if AllClean(p, ops) {
      CleanRunNeverOut(p, books, ops);
    }
  }

  // ----- classes of 2 to 256 blocks to a span

  predicate Middling(op: Op)
  {
    (op.Allocate? || op.Release?) ==> 2 <= F.BlockCount(op.index) <= 256
  }

  /** Before every request of a class, callers hold fewer of its blocks than one span has. */
  ghost predicate Within(p: Pool, ops: seq<Op>)
    requires LegalRun(p, ops)
    decreases |ops|
  {
    ops == [] || ((ops[0].Allocate? ==> |p.classes[ops[0].index].live| < F.BlockCount(ops[0].index))
                  && (Clean(p, ops[0]) ==> Within(Step(p, ops[0]), ops[1..])))
  }

  ghost predicate OneSpans(p: Pool, books: seq<R.Book>)
  {
    |books| == |p.classes| && forall i :: 0 <= i < |p.classes| ==> R.OneSpan(p.classes[i], books[i], i)
  }

  lemma OneSpansAllocate(p: Pool, books: seq<R.Book>, index: nat, sys: Option<nat>)
    requires Sound(p, books) && Kept(p, books) && OneSpans(p, books)
    requires Legal(p, Allocate(index, sys)) && Clean(p, Allocate(index, sys)) && Steady(p, Allocate(index, sys))
    requires 2 <= F.BlockCount(index) && !R.Short(books[index])
    ensures OneSpans(Step(p, Allocate(index, sys)), Refiled(p, books, Allocate(index, sys)))
  {
    hide R.Sound, R.Kept, R.Clean, R.Step, R.Filed, R.Counted, R.OneSpan, R.Legal, S.Alloc, S.Inv, F.BlockCount;
    var span := SpanFor(p, index, sys);
    assert ClassSound(p, books, index);
    ClassLegal(p, books, index, sys);
    R.OneSpanTake(p.classes[index], books[index], index, span);
    forall i | 0 <= i < |p.classes| && i != index ensures R.OneSpan(Step(p, Allocate(index, sys)).classes[i], books[i], i) {
      SameSpan(p.classes[i], books[i], i, Step(p, Allocate(index, sys)).words);
    }
  }

  /** To the class a request is as it should be. */
  lemma ClassLegal(p: Pool, books: seq<R.Book>, index: nat, sys: Option<nat>)
    requires Sound(p, books) && Legal(p, Allocate(index, sys))
    ensures R.Legal(p.classes[index], index, R.Take(SpanFor(p, index, sys)))
  {
    hide R.Sound, S.Alloc, S.Inv;
    if SpanFor(p, index, sys) != 0 {
      SpanBrings(p, books, index, sys);
    }
  }

  lemma SameSpan(u: R.Use, b: R.Book, i: nat, words: M.Words)
    requires R.OneSpan(u, b, i)
    ensures R.OneSpan(Rewritten(u, words), b, i)
  {
  }

  lemma OneSpansRelease(p: Pool, books: seq<R.Book>, index: nat, ptr: nat, size: nat)
    requires Sound(p, books) && Kept(p, books) && OneSpans(p, books)
    requires Legal(p, Release(index, ptr, size)) && size != 0 && 2 <= F.BlockCount(index) <= 256
    ensures OneSpans(Step(p, Release(index, ptr, size)), Refiled(p, books, Release(index, ptr, size)))
  {
    hide R.Sound, R.Kept, R.Step, R.Filed, R.Counted, R.OneSpan, F.BlockCount, F.GetIndex;
    assert ClassSound(p, books, index);
    R.OneSpanGive(p.classes[index], books[index], index, ptr, size);
    forall i | 0 <= i < |p.classes| && i != index ensures R.OneSpan(Step(p, Release(index, ptr, size)).classes[i], books[i], i) {
      SameSpan(p.classes[i], books[i], i, Step(p, Release(index, ptr, size)).words);
    }
  }

  lemma OneSpansStep(p: Pool, books: seq<R.Book>, op: Op)
    requires Sound(p, books) && Kept(p, books) && OneSpans(p, books) && Middling(op)
    requires Legal(p, op) && Clean(p, op) && Steady(p, op) && !OutOfBlocks(p, op)
    ensures OneSpans(Step(p, op), Refiled(p, books, op))
  {
    hide Sound, Kept, R.OneSpan, R.Clean, R.Step, R.Filed, R.Counted, F.BlockCount, S.Alloc, S.Free;
    match op
    case Allocate(index, sys) =>
      NotShort(p, books, index);
      OneSpansAllocate(p, books, index, sys);
    case Release(index, ptr, size) => OneSpansRelease(p, books, index, ptr, size);
    case Write(words) =>
      forall i | 0 <= i < |p.classes| ensures R.OneSpan(Rewritten(p.classes[i], words), books[i], i) {
        SameSpan(p.classes[i], books[i], i, words);
      }
    case _ =>
  }

  lemma OutIffFull(p: Pool, books: seq<R.Book>, op: Op)
    requires Sound(p, books) && Kept(p, books) && OneSpans(p, books) && Legal(p, op) && Middling(op) && op.Allocate?
    ensures OutOfBlocks(p, op) <==> |p.classes[op.index].live| >= F.BlockCount(op.index)
  {
    hide R.Sound, R.Kept, R.OneSpan, F.BlockCount, Sound;
    NotShort(p, books, op.index);
    R.OneSpanShort(p.classes[op.index], books[op.index], op.index);
  }

  lemma {:induction false} NeverOutWithin(p: Pool, books: seq<R.Book>, ops: seq<Op>)
    requires Sound(p, books) && Kept(p, books) && S.NoEmpty(p.pages) && OneSpans(p, books)
    requires LegalRun(p, ops) && AllCareful(p, ops) && AllSteady(p, ops) && forall i :: 0 <= i < |ops| ==> Middling(ops[i])
    ensures NeverOut(p, ops) <==> Within(p, ops)
    decreases |ops|
  {
    hide Sound, Kept, OneSpans, Step, Legal, Clean, Refiled, Careful, OutOfBlocks, Steady, S.NoEmpty, F.BlockCount;
    if ops != [] {
      SoundLength(p, books);
      assert Middling(ops[0]);
      if ops[0].Allocate? {
        OutIffFull(p, books, ops[0]);
      } else {
        OnlyRequests(p, ops[0]);
      }
      if !OutOfBlocks(p, ops[0]) {
        StepSound(p, books, ops[0]);
        OneSpansStep(p, books, ops[0]);
        NeverOutWithin(Step(p, ops[0]), Refiled(p, books, ops[0]), ops[1..]);
      }
    }
  }

  lemma OnlyRequests(p: Pool, op: Op)
    ensures OutOfBlocks(p, op) ==> op.Allocate?
  {
  }

  lemma InitialSpans(p: Pool, books: seq<R.Book>)
    requires Initial(p) && Sound(p, books) && Kept(p, books)
    ensures OneSpans(p, books)
  {
    hide R.Sound, R.Kept;
    forall i | 0 <= i < |p.classes| ensures R.OneSpan(p.classes[i], books[i], i) {
      assert ClassSound(p, books, i) && R.Kept(p.classes[i], books[i], i);
      R.KeptBound(p.classes[i], books[i], i);
    }
  }

  /** Over every run of the three tiers with blocks of 128 to 16384 bytes: every request is served well if
      and only if callers never hold more blocks of a class than one span has, and then no two blocks that
      they hold overlap. */
  lemma RunWithinIff(p: Pool, ops: seq<Op>)
    requires Initial(p) && LegalRun(p, ops) && AllCareful(p, ops) && AllSteady(p, ops)
    requires forall i :: 0 <= i < |ops| ==> Middling(ops[i])
    ensures AllClean(p, ops) <==> Within(p, ops)
    ensures AllClean(p, ops) ==> LiveApart(Run(p, ops))
  {
    hide LegalRun, AllClean, Run, AllCareful, NeverOut, Sound, Kept, AllSteady, Within, LiveApart, Initial, OneSpans, S.NoEmpty, Middling;
    var books := InitialSound(p);
    InitialPages(p);
    InitialSpans(p, books);
    NeverOutWithin(p, books, ops);
    RunCleanIff(p, ops);
    if AllClean(p, ops) {
      RunApart(p, ops);
    }
  }
}
