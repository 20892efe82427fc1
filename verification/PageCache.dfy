/** The page cache on linked spans: what allocateSpan and deallocateSpan do to the list heads, the
    links and the address map is what Spans.Alloc and Spans.Free say. */
module PageCache {
  import opened PageUnit
  import opened Spans
  import opened Wrappers

  class Span {
    var next: Span?
    var pageAddr: nat
    var numPages: nat

    constructor (addr: nat, pages: nat)
      ensures next == null && pageAddr == addr && numPages == pages
    {
      next, pageAddr, numPages := null, addr, pages;
    }

    ghost function AsBlock(): Block
      reads this`pageAddr, this`numPages
    {
      Block(pageAddr, numPages)
    }
  }

  ghost function After(l: seq<Span>, i: int): Span?
    requires -1 <= i < |l|
  {
    if i + 1 < |l| then l[i + 1] else null
  }

  /** The i-th span in l is the i-th block and links to the next span. */
  ghost predicate Linked(l: seq<Span>, bs: seq<Block>, i: nat)
    requires i < |l| == |bs|
    reads l
  {
    l[i].next == After(l, i) && l[i].AsBlock() == bs[i]
  }

  /** From head the links run through l and end; the spans in l are the blocks bs. */
  ghost predicate Threads(head: Span?, l: seq<Span>, bs: seq<Block>)
    reads l
  {
    && |l| == |bs| && head == After(l, -1)
    && forall i :: 0 <= i < |l| ==> Linked(l, bs, i)
  }

  lemma ThreadsNone()
    ensures Threads(null, [], [])
  {
  }

  lemma ThreadsTail(head: Span?, l: seq<Span>, bs: seq<Block>)
    requires Threads(head, l, bs) && l != []
    ensures Threads(l[0].next, l[1..], bs[1..]) && head == l[0] && l[0].AsBlock() == bs[0]
  {
    assert Linked(l, bs, 0);
    forall i | 0 <= i < |l[1..]| ensures Linked(l[1..], bs[1..], i) {
      assert Linked(l, bs, i + 1);
    }
  }

  lemma ThreadsCons(sp: Span, l: seq<Span>, bs: seq<Block>)
    requires Threads(sp.next, l, bs)
    ensures Threads(sp, [sp] + l, [sp.AsBlock()] + bs)
  {
    var l', bs' := [sp] + l, [sp.AsBlock()] + bs;
    assert Linked(l', bs', 0);
    forall i | 0 <= i < |l'| ensures Linked(l', bs', i) {
      if i > 0 {
        assert Linked(l, bs, i - 1);
      }
    }
  }

  /** Bypassing the j-th span takes it, and only it, out of the list. */
  method Bypass(prev: Span, span: Span, ghost head: Span?, ghost l: seq<Span>, ghost bs: seq<Block>, ghost j: nat)
    requires 0 < j < |l| && Threads(head, l, bs) && prev == l[j - 1] && span == l[j]
    requires forall i, k :: 0 <= i < k < |l| ==> l[i] != l[k]
    modifies prev`next
    ensures |bs| == |l| && Threads(head, l[..j] + l[j + 1..], bs[..j] + bs[j + 1..])
  {
    assert Linked(l, bs, j);
    prev.next := span.next;
    ghost var l', bs' := l[..j] + l[j + 1..], bs[..j] + bs[j + 1..];
    forall i | 0 <= i < |l'| ensures Linked(l', bs', i) {
      ghost var k := if i < j then i else i + 1;
      assert old(Linked(l, bs, k)) && l'[i] == l[k];
    }
  }

  lemma {:induction false} WithoutAt(bs: seq<Block>, b: Block, j: nat)
    requires j < |bs| && bs[j] == b && b !in bs[..j]
    ensures Without(bs, b) == bs[..j] + bs[j + 1..]
  {
    if j > 0 {
      assert bs[0] == bs[..j][0] && bs[1..][..j - 1] == bs[..j][1..];
      WithoutAt(bs[1..], b, j - 1);
      assert [bs[0]] + (bs[1..][..j - 1] + bs[1..][j..]) == bs[..j] + bs[j + 1..];
    }
  }

  /** The walk that takes a span out of its list, at the head or behind a predecessor. */
  method UnlinkIn(head: Span?, span: Span, ghost l: seq<Span>, ghost bs: seq<Block>)
    returns (head': Span?, found: bool, ghost l': seq<Span>)
    requires Threads(head, l, bs) && forall i, k :: 0 <= i < k < |l| ==> l[i] != l[k]
    requires forall x :: x in l && x.AsBlock() == span.AsBlock() ==> x == span
    modifies (set x | x in l)`next
    ensures found == (span in l) && forall x :: x in l' ==> x in l
    ensures Threads(head', l', if found then Without(bs, span.AsBlock()) else bs)
  {
    ghost var j := 0;
    head', found, l' := head, false, l;
    if head == span {
      ThreadsTail(head, l, bs);
      WithoutAt(bs, span.AsBlock(), 0);
      head', found, l' := span.next, true, l[1..];
    } else if head != null {
      var prev := head;
      while prev.next != null
        invariant 0 <= j < |l| && prev == l[j] && span !in l[..j + 1] && !found
        decreases |l| - j
      {
        assert Linked(l, bs, j);
        if prev.next == span {
          found := true;
          break;
        }
        prev := prev.next;
        j := j + 1;
      }
      assert Linked(l, bs, j);
      if found {
        j := j + 1;
        assert span.AsBlock() !in bs[..j] by {
          forall i | 0 <= i < j ensures bs[i] != span.AsBlock() {
            assert Linked(l, bs, i) && l[i] in l[..j];
          }
        }
        assert Linked(l, bs, j);
        WithoutAt(bs, span.AsBlock(), j);
        Bypass(prev, span, head, l, bs, j);
        l' := l[..j] + l[j + 1..];
      } else {
        assert l == l[..j + 1];
      }
    }
  }

  class Cache {
    var freeSpans: map<nat, Span?>
    var spanMap: map<nat, Span>
    ghost var lists: map<nat, seq<Span>>
    ghost var spans: set<Span>
    ghost var state: State

    /** The linked lists are those of free. */
    ghost predicate Heads(free: map<nat, seq<Block>>)
      reads this`freeSpans, this`lists, this`spans, spans
    {
      && freeSpans.Keys == lists.Keys == free.Keys
      && forall n :: n in lists ==> (forall sp :: sp in lists[n] ==> sp in spans)
                                    && Threads(freeSpans[n], lists[n], free[n])
    }

    /** A span stands for one block, and no two spans share an address. */
    ghost predicate Records(recorded: map<nat, Block>)
      reads this`spanMap, this`spans, spans`pageAddr, spans`numPages
    {
      && spanMap.Keys == recorded.Keys
      && (forall a :: a in spanMap ==> spanMap[a] in spans && spanMap[a].AsBlock() == recorded[a])
    }

    ghost predicate Separate()
      reads this`spans, spans`pageAddr, spans`numPages
    {
      forall p, q :: p in spans && q in spans && p.pageAddr == q.pageAddr ==> p == q
    }

    ghost function Blocks(): map<Span, Block>
      reads this`spans, spans`pageAddr, spans`numPages
    {
      map p | p in spans :: p.AsBlock()
    }

    static ghost predicate Stands(blocks: map<Span, Block>, s: State)
    {
      && (forall p, q :: p in blocks && q in blocks && blocks[p].addr == blocks[q].addr ==> p == q)
      && forall p :: p in blocks ==> Known(s, blocks[p])
    }

    /** Every span is a block of s, and no two are the same block. */
    ghost predicate Standing(s: State)
      reads this`spans, spans`pageAddr, spans`numPages
    {
      Separate() && forall p :: p in spans ==> Known(s, p.AsBlock())
    }

    ghost predicate Valid()
      reads this, spans
    {
      Inv(state) && Heads(state.free) && Records(state.recorded) && Standing(state)
    }

    constructor ()
      ensures Valid() && state == EMPTY && spans == {}
    {
      freeSpans, spanMap, lists, spans, state := map[], map[], map[], {}, EMPTY;
    }

    /** The list members are told apart by their blocks. */
    lemma Listed(free: map<nat, seq<Block>>, sp: Span, n: nat)
      requires Heads(free) && Separate() && sp in spans && n in lists
      ensures sp.AsBlock() in free[n] <==> sp in lists[n]
    {
      if sp.AsBlock() in free[n] {
        var i :| 0 <= i < |free[n]| && free[n][i] == sp.AsBlock();
        assert Linked(lists[n], free[n], i) && lists[n][i] in spans;
      }
      if sp in lists[n] {
        var i :| 0 <= i < |lists[n]| && lists[n][i] == sp;
        assert Linked(lists[n], free[n], i);
      }
    }

    /** A span is in the list for its size, once. */
    lemma ListedOnce(free: map<nat, seq<Block>>)
      requires ListsRight(free) && Heads(free)
      ensures forall n, sp :: n in lists && sp in lists[n] ==> sp.numPages == n && InFree(free, sp.AsBlock())
      ensures forall n, i, j :: n in lists && 0 <= j < i < |lists[n]| ==> lists[n][j] != lists[n][i]
    {
      forall n, sp | n in lists && sp in lists[n] ensures sp.numPages == n && InFree(free, sp.AsBlock()) {
        var i :| 0 <= i < |lists[n]| && lists[n][i] == sp;
        assert Linked(lists[n], free[n], i);
        assert free[n][i] in free[n];
      }
      forall n, i, j | n in lists && 0 <= j < i < |lists[n]| ensures lists[n][j] != lists[n][i] {
        assert Linked(lists[n], free[n], i) && Linked(lists[n], free[n], j);
      }
    }

    lemma HeadsNull(free: map<nat, seq<Block>>)
      requires Heads(free)
      ensures forall n :: n in freeSpans ==> (freeSpans[n] == null <==> free[n] == [])
    {
      forall n | n in freeSpans ensures freeSpans[n] == null <==> free[n] == [] {
        assert n in lists && Threads(freeSpans[n], lists[n], free[n]);
      }
    }

    /** Detach the head of list k; an emptied list loses its entry. */
    method PopHead(k: nat, ghost free: map<nat, seq<Block>>) returns (span: Span)
      requires Heads(free) && k in freeSpans && freeSpans[k] != null
      modifies this`freeSpans, this`lists
      ensures free[k] != [] && Heads(PopFree(free, k))
      ensures span in spans && span.AsBlock() == free[k][0]
    {
      span := freeSpans[k];
      ghost var l := lists[k];
      ThreadsTail(span, l, free[k]);
      if span.next != null {
        freeSpans := freeSpans[k := span.next];
        lists := lists[k := l[1..]];
      } else {
        freeSpans := freeSpans - {k};
        lists := lists - {k};
      }
    }

    /** Put a span at the head of the list for its size. */
    method PushHead(span: Span, ghost free: map<nat, seq<Block>>)
      requires Heads(free) && span in spans && forall n :: n in lists ==> span !in lists[n]
      modifies this`freeSpans, this`lists, span`next
      ensures Heads(PushFree(free, span.AsBlock()))
      ensures forall n, sp :: n in lists && sp in lists[n] ==> sp == span || (n in old(lists) && sp in old(lists[n]))
    {
      hide Threads;
      var n := span.numPages;
      ghost var l := if n in lists then lists[n] else [];
      ThreadsNone();
      span.next := if n in freeSpans then freeSpans[n] else null;
      assert forall k :: k in lists ==> Threads(freeSpans[k], lists[k], free[k]);
      ThreadsCons(span, l, ListOf(free, n));
      freeSpans := freeSpans[n := span];
      lists := lists[n := [span] + l];
    }

    /** operator[] of the map: a missing entry appears with a null head. */
    method Entry(m: nat, ghost free: map<nat, seq<Block>>)
      requires Heads(free)
      modifies this`freeSpans, this`lists
      ensures Heads(free[m := ListOf(free, m)]) && m in freeSpans
    {
      if m !in freeSpans {
        freeSpans := freeSpans[m := null];
        lists := lists[m := []];
      }
    }

    /** Unlink a span from the list for its size, if it is in it; looking makes the list's entry. */
    method Unlink(span: Span, ghost free: map<nat, seq<Block>>) returns (found: bool)
      requires Heads(free) && ListsRight(free) && Separate() && span in spans && span.numPages in freeSpans
      modifies this`freeSpans, this`lists, spans`next
      ensures found == (span.AsBlock() in free[span.numPages])
      ensures var l := free[span.numPages];
              Heads(free[span.numPages := if found then Without(l, span.AsBlock()) else l])
    {
      hide ListsRight, Threads, Without, InFree;
      var m := span.numPages;
      ghost var l := lists[m];
      ListedOnce(free);
      Listed(free, span, m);
      var head;
      ghost var l';
      head, found, l' := UnlinkIn(freeSpans[m], span, l, free[m]);
      assert forall n :: n in lists && n != m ==> lists[n] == old(lists[n]) && Threads(freeSpans[n], lists[n], free[n]);
      freeSpans := freeSpans[m := head];
      lists := lists[m := l'];
      ghost var free' := free[m := if found then Without(free[m], span.AsBlock()) else free[m]];
      forall n | n in lists
        ensures (forall sp :: sp in lists[n] ==> sp in spans) && Threads(freeSpans[n], lists[n], free'[n])
      {
        if n == m {
          assert Threads(freeSpans[m], lists[m], free'[m]);
        }
      }
    }

    /** A new span, in no list yet. */
    method NewSpan(addr: nat, pages: nat, ghost free: map<nat, seq<Block>>) returns (span: Span)
      requires Heads(free)
      modifies this`spans
      ensures fresh(span) && spans == old(spans) + {span} && span.AsBlock() == Block(addr, pages)
      ensures Heads(free) && forall n :: n in lists ==> span !in lists[n]
      ensures Blocks() == old(Blocks())[span := span.AsBlock()]
    {
      hide Threads;
      span := new Span(addr, pages);
      assert forall n :: n in lists ==> span !in lists[n];
      spans := spans + {span};
    }

    /** The part of allocateSpan that cuts a longer span: what is not needed goes back to the lists. */
    method Cut(span: Span, n: nat, ghost free: map<nat, seq<Block>>) returns (ghost rest: Span)
      requires Heads(free) && ListsRight(free) && span in spans && 0 < n < span.numPages
      requires !InFree(free, span.AsBlock())
      requires var d := Block(span.pageAddr + n * PAGE_SIZE, span.numPages - n); !InFree(free, d)
      modifies this`freeSpans, this`lists, this`spans, span`numPages
      ensures fresh(rest) && spans == old(spans) + {rest}
      ensures rest.AsBlock() == Block(span.pageAddr + n * PAGE_SIZE, old(span.numPages) - n)
      ensures span.numPages == n && Heads(PushFree(free, rest.AsBlock()))
    {
      ListedOnce(free);
      assert forall m :: m in lists ==> span !in lists[m];
      var newSpan := NewSpan(span.pageAddr + n * PAGE_SIZE, span.numPages - n, free);
      rest := newSpan;
      PushHead(newSpan, free);
      assert forall m :: m in lists ==> span !in lists[m];
      span.numPages := n;
    }

    /** All records but that of addr are those of the spans in m. */
    static ghost predicate RecordsBut(records: map<nat, Span>, recorded: map<nat, Block>, m: map<Span, Block>, addr: nat)
    {
      && records.Keys == recorded.Keys
      && forall a :: a in records && a != addr ==> records[a] in m && m[records[a]] == recorded[a]
    }

    static lemma RecordsAfterCut(records: map<nat, Span>, s: State, m: map<Span, Block>, span: Span, c: Block, rest: Span, d: Block)
      requires Inv(s) && span in m && rest !in m && c.addr == m[span].addr
      requires records.Keys == s.recorded.Keys && forall a :: a in records ==> records[a] in m && m[records[a]] == s.recorded[a]
      ensures RecordsBut(records, s.recorded, m[span := c][rest := d], c.addr)
    {
      forall a | a in records && a != c.addr ensures records[a] != span {
        assert s.recorded[a].addr == a;
      }
    }

    lemma RecordsIn(was: map<Span, Block>)
      requires Records(state.recorded) && was == Blocks()
      ensures spanMap.Keys == state.recorded.Keys
      ensures forall a :: a in spanMap ==> spanMap[a] in spans && spanMap[a] in was && was[spanMap[a]] == state.recorded[a]
    {
    }

    static lemma StandsAfterNew(was: map<Span, Block>, span: Span, s: State, s': State, b: Block)
      requires Stands(was, s) && span !in was && Retiled(s, s', {}, {b}) && forall x :: Known(s, x) ==> x.addr != b.addr
      ensures Stands(was[span := b], s')
    {
      hide Known;
    }

    static lemma RecordsAfterNew(records: map<nat, Span>, recorded: map<nat, Block>, was: map<Span, Block>, span: Span, b: Block)
      requires records.Keys == recorded.Keys && span !in was
      requires forall a :: a in records ==> records[a] in was && was[records[a]] == recorded[a]
      ensures RecordsBut(records, recorded, was[span := b], b.addr)
    {
    }

    /** A span goes on record under its address. */
    method Record(span: Span, ghost recorded: map<nat, Block>)
      requires span in spans && RecordsBut(spanMap, recorded, Blocks(), span.pageAddr)
      modifies this`spanMap
      ensures Records(recorded[span.pageAddr := span.AsBlock()])
    {
      spanMap := spanMap[span.pageAddr := span];
    }

    /** Serving a request with a span of exactly its size. */
    method TakeExact(n: nat) returns (r: Result)
      requires Valid() && n >= 1 && HasAtLeast(state.free, n) && n == LowerBound(state.free, n)
      requires n in freeSpans && freeSpans[n] != null
      modifies this, spans
      ensures Valid() && (state, r) == Alloc(old(state), n, None)
      ensures spans == old(spans)
    {
      hide Inv, Alloc, PopFree, Threads, Heads, Known, InFree, ListsRight, LowerBound, Tiling, Standing, Stands, Retiled, Records, RecordsBut, Separate;
      ghost var s, was := state, Blocks();
      StandingBlocks(s);
      RecordsIn(was);
      HeadsNull(s.free);
      AllocExactKeeps(s, n);
      AllocExact(s, n);
      var span := PopHead(n, s.free);
      StandsStill(was, s, Alloc(s, n, None).0);
      StandingBlocks(Alloc(s, n, None).0);
      RecordsStill(spanMap, s.recorded, was, span.pageAddr);
      Record(span, s.recorded);
      state := Alloc(s, n, None).0;
      r := Granted(span.pageAddr);
    }

    static lemma StandsStill(was: map<Span, Block>, s: State, s': State)
      requires Stands(was, s) && Retiled(s, s', {}, {})
      ensures Stands(was, s')
    {
      hide Known;
    }

    static lemma RecordsStill(records: map<nat, Span>, recorded: map<nat, Block>, was: map<Span, Block>, addr: nat)
      requires records.Keys == recorded.Keys
      requires forall a :: a in records ==> records[a] in was && was[records[a]] == recorded[a]
      ensures RecordsBut(records, recorded, was, addr)
    {
    }

    lemma StandingBlocks(s: State)
      ensures Standing(s) <==> Stands(Blocks(), s)
    {
      var m := Blocks();
      assert forall p :: p in spans ==> p in m && m[p] == p.AsBlock();
    }

    /** A span b was cut in two: c stays with it, d is a new span. */
    static lemma StandsAfterCut(was: map<Span, Block>, span: Span, rest: Span, s: State, s': State, c: Block, d: Block)
      requires span in was && rest !in was && Stands(was, s)
      requires Retiled(s, s', {was[span]}, {c, d}) && c.addr == was[span].addr
      requires forall x :: Known(s, x) ==> x.addr != d.addr
      ensures Stands(was[span := c][rest := d], s')
    {
      hide Known;
    }

    /** The head of list k keeps n pages; a new span takes the rest. */
    method CutHead(k: nat, n: nat) returns (span: Span, ghost rest: Span)
      requires Heads(state.free) && k in freeSpans && freeSpans[k] != null
      requires k in state.free && state.free[k] != [] && ListsRight(PopFree(state.free, k))
      requires 0 < n < k == state.free[k][0].pages
      requires var b := state.free[k][0];
               !InFree(PopFree(state.free, k), b) && !InFree(PopFree(state.free, k), Block(b.addr + n * PAGE_SIZE, k - n))
      modifies this`freeSpans, this`lists, this`spans, spans
      ensures var b := state.free[k][0];
              var c, d := Block(b.addr, n), Block(b.addr + n * PAGE_SIZE, k - n);
              && span in old(spans) && old(span.AsBlock()) == b && fresh(rest) && spans == old(spans) + {rest}
              && Heads(PushFree(PopFree(state.free, k), d)) && span.AsBlock() == c && rest.AsBlock() == d
              && Blocks() == old(Blocks())[span := c][rest := d]
    {
      hide ListsRight, PopFree, PushFree, Threads, Heads, Known, InFree;
      span := PopHead(k, state.free);
      rest := Cut(span, n, PopFree(state.free, k));
    }

    /** Serving a request with a longer span. */
    method TakeSplit(n: nat, k: nat) returns (r: Result)
      requires Valid() && n >= 1 && HasAtLeast(state.free, n) && n < k == LowerBound(state.free, n)
      requires k in freeSpans && freeSpans[k] != null && state.free[k] != []
      modifies this, spans
      ensures Valid() && (state, r) == Alloc(old(state), n, None)
      ensures fresh(spans - old(spans))
    {
      hide Inv, Alloc, PopFree, PushFree, Threads, Heads, Known, InFree, ListsRight, LowerBound, Tiling, Pages, Apart, Retiled, Standing, Stands, RecordsBut;
      ghost var s, was := state, Blocks();
      AllocSplitKeeps(s, n);
      AllocSplit(s, n);
      StandingBlocks(s);
      var span;
      ghost var rest;
      span, rest := CutHead(k, n);
      StandsAfterCut(was, span, rest, s, Alloc(s, n, None).0, span.AsBlock(), rest.AsBlock());
      StandingBlocks(Alloc(s, n, None).0);
      RecordsAfterCut(spanMap, s, was, span, span.AsBlock(), rest, rest.AsBlock());
      Record(span, s.recorded);
      state := Alloc(s, n, None).0;
      r := Granted(span.pageAddr);
    }

    /** Serving a request with pages from the system. */
    method TakeFresh(n: nat, a: nat) returns (r: Result)
      requires Valid() && n >= 1 && !HasAtLeast(state.free, n) && FreshFromSystem(state, a, n)
      modifies this, spans
      ensures Valid() && (state, r) == Alloc(old(state), n, Some(a))
      ensures fresh(spans - old(spans))
    {
      hide Inv, Alloc, PopFree, PushFree, Threads, Heads, Known, InFree, ListsRight, LowerBound, Pages, Apart, Tiling, Standing, Stands, Retiled, Records, RecordsBut, Separate;
      ghost var s, was := state, Blocks();
      AllocCases(s, n, Some(a));
      StandingBlocks(s);
      RecordsIn(was);
      var span := NewSpan(a, n, s.free);
      StandsAfterNew(was, span, s, Alloc(s, n, Some(a)).0, span.AsBlock());
      StandingBlocks(Alloc(s, n, Some(a)).0);
      RecordsAfterNew(spanMap, s.recorded, was, span, span.AsBlock());
      Record(span, s.recorded);
      state := Alloc(s, n, Some(a)).0;
      r := Granted(a);
    }

    /** allocateSpan, with sys as the answer of mmap. */
    method AllocateSpan(n: nat, sys: Option<nat>) returns (r: Result)
      requires Valid() && n >= 1 && (sys.Some? ==> FreshFromSystem(state, sys.value, n))
      modifies this, spans
      ensures Valid() && (state, r) == Alloc(old(state), n, sys)
      ensures fresh(spans - old(spans))
    {
      hide Inv, Alloc, PopFree, PushFree, Threads, Known, InFree, ListsRight, LowerBound, Retiled, Records, Separate, Pages, Apart;
      AllocCases(state, n, sys);
      HeadsNull(state.free);
      if exists k :: k in freeSpans && n <= k {
        ghost var least := LowerBound(state.free, n);
        assert least in freeSpans && n <= least && forall j :: j in freeSpans && n <= j ==> least <= j;
        var k: nat :| k in freeSpans && n <= k && forall j :: j in freeSpans && n <= j ==> k <= j;
        if freeSpans[k] == null {
          r := Fault;
        } else if k > n {
          r := TakeSplit(n, k);
        } else {
          r := TakeExact(n);
        }
      } else {
        match sys
        case None =>
          r := NoMemory;
        case Some(a) =>
          r := TakeFresh(n, a);
      }
    }

    static lemma StandsAfterMerge(was: map<Span, Block>, span: Span, nextSpan: Span, s: State, s': State, m: Block)
      requires span in was && nextSpan in was && span != nextSpan && Stands(was, s) && m.addr == was[span].addr
      requires Retiled(s, s', {was[span], was[nextSpan]}, {m})
      ensures Stands(was[span := m] - {nextSpan}, s')
    {
      hide Known;
    }

    static lemma RecordsAfterMerge(records: map<nat, Span>, s: State, was: map<Span, Block>, addr: nat, m: Block, next: nat)
      requires Inv(s) && addr in records && next in records && addr != next
      requires records.Keys == s.recorded.Keys && forall a :: a in records ==> records[a] in was && was[records[a]] == s.recorded[a]
      ensures RecordsBut(records - {next}, s.recorded - {next}, was[records[addr] := m] - {records[next]}, addr)
      ensures records[addr] != records[next]
    {
      assert forall a :: a in records ==> s.recorded[a].addr == a;
    }

    /** The part of deallocateSpan that lengthens a span by the one that follows it. */
    method Absorb(span: Span, nextSpan: Span, nextAddr: nat, ghost free: map<nat, seq<Block>>)
      requires Heads(free) && span in spans && nextSpan in spans && span != nextSpan
      requires forall n :: n in lists ==> span !in lists[n] && nextSpan !in lists[n]
      modifies span`numPages, this`spanMap, this`spans
      ensures Heads(free) && spanMap == old(spanMap) - {nextAddr} && spans == old(spans) - {nextSpan}
      ensures span.AsBlock() == Block(old(span.pageAddr), old(span.numPages) + nextSpan.numPages)
      ensures Blocks() == old(Blocks())[span := span.AsBlock()] - {nextSpan}
    {
      span.numPages := span.numPages + nextSpan.numPages;
      spanMap := spanMap - {nextAddr};
      spans := spans - {nextSpan};
    }

    /** What the spans and the records are after the merge. */
    static lemma MergedReady(records: map<nat, Span>, s: State, was: map<Span, Block>, addr: nat, n: nat)
      requires Inv(s) && addr in records && Releasable(s, addr, n) && Mergeable(s, addr, n) && Stands(was, s)
      requires records.Keys == s.recorded.Keys && forall a :: a in records ==> records[a] in was && was[records[a]] == s.recorded[a]
      ensures var next := addr + n * PAGE_SIZE;
              next in records && records[next] != records[addr] &&
              var m := Block(addr, n + s.recorded[next].pages);
              var now := was[records[addr] := m] - {records[next]};
              && was[records[addr]] == Block(addr, n) && RecordsBut(records - {next}, s.recorded - {next}, now, addr)
              && Stands(now, Free(s, addr, n)) && Inv(Free(s, addr, n))
    {
      hide Inv, Free, PushFree, Known, InFree, ListsRight, Tiling, Retiled, Stands, RecordsBut, Mergeable;
      FreeMergedKeeps(s, addr, n);
      FreeMergedReady(s, addr, n);
      var next := addr + n * PAGE_SIZE;
      var m := Block(addr, n + s.recorded[next].pages);
      RecordsAfterMerge(records, s, was, addr, m, next);
      StandsAfterMerge(was, records[addr], records[next], s, Free(s, addr, n), m);
    }

    /** Releasing a span when the following one was just taken out of its list. */
    method FreeMerging(addr: nat, n: nat)
      requires Inv(state) && Records(state.recorded) && Standing(state)
      requires addr in spanMap && Releasable(state, addr, n) && Mergeable(state, addr, n)
      requires var nb := state.recorded[addr + n * PAGE_SIZE];
               Heads(state.free[nb.pages := Without(ListOf(state.free, nb.pages), nb)])
      modifies this, spans
      ensures Valid() && state == Free(old(state), addr, n) && spans <= old(spans)
    {
      hide Inv, Free, PushFree, Threads, Heads, Known, InFree, ListsRight, Tiling, Pages, Apart, Retiled, Standing, Stands, RecordsBut, Mergeable, Releasable, ListOf, Without, Records, Separate;
      ghost var s, was := state, Blocks();
      StandingBlocks(s);
      RecordsIn(was);
      MergedReady(spanMap, s, was, addr, n);
      FreeMerged(s, addr, n);
      FreeMergedReady(s, addr, n);
      var span, nextAddr := spanMap[addr], addr + n * PAGE_SIZE;
      var nextSpan := spanMap[nextAddr];
      ghost var nb := nextSpan.AsBlock();
      ghost var free := s.free[nb.pages := Without(ListOf(s.free, nb.pages), nb)];
      ListedOnce(free);
      Absorb(span, nextSpan, nextAddr, free);
      StandingBlocks(Free(s, addr, n));
      RecordsWhole(s.recorded - {nextAddr}, addr);
      PushHead(span, free);
      state := Free(s, addr, n);
    }

    lemma RecordsWhole(recorded: map<nat, Block>, addr: nat)
      requires addr in spanMap && spanMap[addr] in spans && RecordsBut(spanMap, recorded, Blocks(), addr)
      ensures Records(recorded[addr := spanMap[addr].AsBlock()])
    {
    }

    /** Releasing a span that keeps its length. */
    method FreeAlone(addr: nat, n: nat)
      requires Inv(state) && Records(state.recorded) && Standing(state) && Heads(LookedUp(state, addr + n * PAGE_SIZE))
      requires addr in spanMap && Releasable(state, addr, n) && !Mergeable(state, addr, n)
      modifies this, spans
      ensures Valid() && state == Free(old(state), addr, n) && spans == old(spans)
    {
      hide Inv, Free, PushFree, Threads, Heads, Known, InFree, ListsRight, Tiling, Pages, Apart, Retiled, Stands, Mergeable, Releasable, LookedUp;
      ghost var s, free := state, LookedUp(state, addr + n * PAGE_SIZE);
      var span := spanMap[addr];
      FreeAloneKeeps(s, addr, n);
      FreeAloneReady(s, addr, n);
      Spans.FreeAlone(s, addr, n);
      ListedOnce(free);
      PushHead(span, free);
      state := Free(s, addr, n);
      forall p | p in spans ensures Known(state, p.AsBlock()) {
        KnownStill(s, state, p.AsBlock());
      }
    }

    static lemma KnownStill(s: State, s': State, b: Block)
      requires Retiled(s, s', {}, {}) && Known(s, b)
      ensures Known(s', b)
    {
    }

    /** deallocateSpan. */
    method DeallocateSpan(addr: nat, n: nat)
      requires Valid() && Releasable(state, addr, n)
      modifies this, spans
      ensures Valid() && state == Free(old(state), addr, n) && spans <= old(spans)
    {
      hide Inv, Threads, Heads, Known, ListsRight, Tiling, Pages, Apart, Stands, Releasable, Without, Standing, PushFree;
      if addr !in spanMap {
        return;
      }
      ghost var s := state;
      var nextAddr := addr + n * PAGE_SIZE;
      if nextAddr in spanMap {
        var nextSpan := spanMap[nextAddr];
        Entry(nextSpan.numPages, s.free);
        InvLists(s);
        LookedUpKnown(s, nextAddr);
        StandingSeparate();
        var found := Unlink(nextSpan, LookedUp(s, nextAddr));
        ghost var m, free := nextSpan.numPages, LookedUp(s, nextAddr);
        if found {
          ghost var l := Without(ListOf(s.free, m), s.recorded[nextAddr]);
          assert free[m := l] == s.free[m := l];
          FreeMerging(addr, n);
        } else {
          assert free[m := free[m]] == free;
          FreeAlone(addr, n);
        }
      } else {
        FreeAlone(addr, n);
      }
    }

    lemma StandingSeparate()
      requires Standing(state)
      ensures Separate()
    {
    }

    static lemma InvLists(s: State)
      requires Inv(s)
      ensures ListsRight(s.free)
    {
    }
  }
}