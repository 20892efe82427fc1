/** Free lists threaded through the free blocks themselves: what the caches do to the words of memory,
    whatever is in them, and what that means where the words form lists. */
module CacheMemory {
  import opened FreeLists

  /** The first words of memory; address 0 is the null pointer. */
  type Words = map<nat, nat>

  /** Memory that nobody has written holds 0, as mmap leaves it. */
  function Word(m: Words, x: nat): nat
  {
    if x in m then m[x] else 0
  }

  // ----- lists in memory

  function Link(l: seq<nat>, i: int, end: nat): nat
    requires -1 <= i < |l|
  {
    if i + 1 < |l| then l[i + 1] else end
  }

  predicate Hooked(m: Words, l: seq<nat>, i: nat, end: nat)
    requires i < |l|
  {
    l[i] != 0 && Word(m, l[i]) == Link(l, i, end)
  }

  /** From head the links run through l to end. */
  ghost predicate ChainTo(m: Words, head: nat, l: seq<nat>, end: nat)
  {
    head == Link(l, -1, end) && forall i :: 0 <= i < |l| ==> Hooked(m, l, i, end)
  }

  ghost predicate Chain(m: Words, head: nat, l: seq<nat>)
  {
    ChainTo(m, head, l, 0)
  }

  /** Following the links from head comes to an end. */
  ghost predicate Ends(m: Words, head: nat)
  {
    exists l :: Chain(m, head, l)
  }

  ghost function ListFrom(m: Words, head: nat): (l: seq<nat>)
    requires Ends(m, head)
    ensures Chain(m, head, l)
  {
    var l :| Chain(m, head, l);
    l
  }

  lemma ChainNull(m: Words, head: nat, l: seq<nat>)
    requires Chain(m, head, l)
    ensures head == 0 <==> l == []
    ensures l != [] ==> head == l[0]
  {
    assert l != [] ==> Hooked(m, l, 0, 0);
  }

  lemma ChainTail(m: Words, head: nat, l: seq<nat>, k: nat, end: nat)
    requires ChainTo(m, head, l, end) && k <= |l|
    ensures ChainTo(m, Link(l, k - 1, end), l[k..], end)
  {
    forall i | 0 <= i < |l[k..]| ensures Hooked(m, l[k..], i, end) {
      assert Hooked(m, l, k + i, end);
    }
  }

  lemma ChainStep(m: Words, head: nat, l: seq<nat>, end: nat)
    requires ChainTo(m, head, l, end) && l != []
    ensures head == l[0] != 0 && ChainTo(m, Word(m, head), l[1..], end)
  {
    assert Hooked(m, l, 0, end);
    ChainTail(m, head, l, 1, end);
  }

  /** The links leave no choice: a list that ends begins with whatever they run through. */
  lemma {:induction false} ChainBegins(m: Words, head: nat, l: seq<nat>, end: nat, w: seq<nat>)
    requires ChainTo(m, head, l, end) && Chain(m, head, w)
    ensures |l| <= |w| && w[..|l|] == l && (end != 0 ==> |l| < |w| && w[|l|] == end) && (end == 0 ==> w == l)
    decreases |l|
  {
    if l == [] {
      ChainNull(m, head, w);
    } else {
      ChainStep(m, head, l, end);
      ChainNull(m, head, w);
      ChainStep(m, head, w, 0);
      ChainBegins(m, Word(m, head), l[1..], end, w[1..]);
      assert l == [head] + l[1..] && w == [head] + w[1..];
    }
  }

  lemma ListIs(m: Words, head: nat, l: seq<nat>)
    requires Chain(m, head, l)
    ensures Ends(m, head) && ListFrom(m, head) == l
  {
    ChainBegins(m, head, l, 0, ListFrom(m, head));
  }

  /** A list that ends holds no block twice. */
  lemma ChainDistinct(m: Words, head: nat, l: seq<nat>)
    requires Chain(m, head, l)
    ensures Distinct(l)
  {
    forall i, j | 0 <= i < j < |l| ensures l[i] != l[j] {
      SameTail(m, head, l, i, j);
    }
  }

  lemma {:induction false} SameTail(m: Words, head: nat, l: seq<nat>, i: nat, j: nat)
    requires Chain(m, head, l) && i < j < |l|
    ensures l[i] != l[j]
    decreases |l| - j
  {
    assert Hooked(m, l, i, 0) && Hooked(m, l, j, 0);
    if j + 1 < |l| {
      SameTail(m, head, l, i + 1, j + 1);
    } else {
      assert Hooked(m, l, i + 1, 0);
    }
  }

  /** Memory is as it was outside of s. */
  ghost predicate SameBut(m: Words, m': Words, s: set<nat>)
  {
    forall x :: x !in s ==> Word(m', x) == Word(m, x)
  }

  lemma ChainFrame(m: Words, m': Words, head: nat, l: seq<nat>, end: nat)
    requires ChainTo(m, head, l, end) && forall x :: x in l ==> Word(m', x) == Word(m, x)
    ensures ChainTo(m', head, l, end)
  {
    forall i | 0 <= i < |l| ensures Hooked(m', l, i, end) {
      assert Hooked(m, l, i, end);
    }
  }

  lemma ChainPush(m: Words, x: nat, head: nat, l: seq<nat>)
    requires Chain(m, head, l) && x != 0 && x !in l
    ensures Chain(m[x := head], x, [x] + l)
  {
    var m', l' := m[x := head], [x] + l;
    forall i | 0 <= i < |l'| ensures Hooked(m', l', i, 0) {
      if i > 0 {
        assert Hooked(m, l, i - 1, 0) && l[i - 1] in l;
      }
    }
  }

  /** Ending a list behind its k-th block leaves the list before it and the list behind it. */
  lemma ChainCut(m: Words, head: nat, l: seq<nat>, k: nat)
    requires Chain(m, head, l) && 0 < k <= |l|
    ensures Chain(m[l[k - 1] := 0], head, l[..k]) && Chain(m[l[k - 1] := 0], Link(l, k - 1, 0), l[k..])
  {
    var m' := m[l[k - 1] := 0];
    ChainDistinct(m, head, l);
    forall i | 0 <= i < k ensures Hooked(m', l[..k], i, 0) {
      assert Hooked(m, l, i, 0);
    }
    forall i | 0 <= i < |l[k..]| ensures Hooked(m', l[k..], i, 0) {
      assert Hooked(m, l, k + i, 0);
    }
  }

  /** Linking the k-th block of one list to another list puts the blocks up to it in front of that. */
  lemma ChainJoin(m: Words, head: nat, l: seq<nat>, k: nat, head2: nat, l2: seq<nat>, end: nat)
    requires Chain(m, head, l) && 0 < k <= |l| && ChainTo(m, head2, l2, end) && l[k - 1] !in l2
    ensures ChainTo(m[l[k - 1] := head2], head, l[..k] + l2, end)
  {
    var m', t := m[l[k - 1] := head2], l[..k] + l2;
    ChainDistinct(m, head, l);
    forall i | 0 <= i < |t| ensures Hooked(m', t, i, end) {
      if i < k {
        assert Hooked(m, l, i, 0);
      } else {
        assert Hooked(m, l2, i - k, end) && l2[i - k] in l2;
      }
    }
  }

  // ----- the walks of the code

  /** The walk to the last block that stays: k links on, or 0 if the list ends before. */
  function Hop(m: Words, p: nat, k: nat): nat
    decreases k
  {
    if k == 0 || p == 0 then p else Hop(m, Word(m, p), k - 1)
  }

  /** The walk to the last block that goes back: over count blocks, or to the end of the list. */
  function LastOf(m: Words, p: nat, count: nat): nat
    decreases count
  {
    if count <= 1 || Word(m, p) == 0 then p else LastOf(m, Word(m, p), count - 1)
  }

  lemma {:induction false} HopIs(m: Words, head: nat, l: seq<nat>, k: nat)
    requires Chain(m, head, l)
    ensures Hop(m, head, k) == if k < |l| then l[k] else 0
    decreases k
  {
    ChainNull(m, head, l);
    if k > 0 && l != [] {
      ChainStep(m, head, l, 0);
      HopIs(m, Word(m, head), l[1..], k - 1);
    }
  }

  lemma {:induction false} LastIs(m: Words, head: nat, l: seq<nat>, count: nat)
    requires Chain(m, head, l) && l != []
    ensures LastOf(m, head, count) == l[if count > |l| then |l| - 1 else if count == 0 then 0 else count - 1]
    decreases count
  {
    ChainStep(m, head, l, 0);
    ChainNull(m, Word(m, head), l[1..]);
    if count > 1 && |l| > 1 {
      LastIs(m, Word(m, head), l[1..], count - 1);
    }
  }

  /** Memory after the first k blocks of l have got their links. */
  function Threaded(m: Words, l: seq<nat>, k: nat): Words
    requires k <= |l|
  {
    if k == 0 then m else Threaded(m, l, k - 1)[l[k - 1] := Link(l, k - 1, 0)]
  }

  lemma {:induction false} ThreadedHooks(m: Words, l: seq<nat>, k: nat)
    requires k <= |l| && Distinct(l) && forall i :: 0 <= i < |l| ==> l[i] != 0
    ensures SameBut(m, Threaded(m, l, k), Elems(l)) && forall i :: 0 <= i < k ==> Hooked(Threaded(m, l, k), l, i, 0)
  {
    if k > 0 {
      ThreadedHooks(m, l, k - 1);
      assert l[k - 1] in Elems(l);
      forall i | 0 <= i < k ensures Hooked(Threaded(m, l, k), l, i, 0) {
        if i < k - 1 {
          assert Hooked(Threaded(m, l, k - 1), l, i, 0) && l[i] != l[k - 1];
        }
      }
    }
  }

  // ----- one size class of a thread: memory, the thread's list head and counter, the central list head

  datatype Side = Side(words: Words, head: nat, counter: nat, central: nat)

  /** returnToCentralCache with returnRange. */
  function ReturnedMem(s: Side, size: nat): Side
  {
    var keep := Keep(s.counter);
    var split := Hop(s.words, s.head, keep - 1);
    if s.counter <= 1 || split == 0 then s
    else
      var next, m := Word(s.words, split), s.words[split := 0];
      if next == 0 then Side(m, s.head, keep, s.central)
      else
        var end := LastOf(m, next, Announced(s.counter - keep, size) / BlockSize(GetIndex(size)));
        Side(m[end := s.central], s.head, keep, next)
  }

  /** deallocate, below the limit for large blocks. */
  function FreedMem(s: Side, ptr: nat, size: nat): Side
  {
    var counter := (s.counter + 1) % TWO64;
    var s' := Side(s.words[ptr := s.head], ptr, counter, s.central);
    if counter > 256 then ReturnedMem(s', size) else s'
  }

  /** fetchRange: memory, central head and the list handed out; span is what the page cache answers,
      if it is asked. A central list that is not empty is handed out and stays where it is. */
  function FetchedMem(m: Words, central: nat, index: nat, span: nat): (Words, nat, nat)
  {
    if central != 0 then (m, central, central)
    else if span == 0 then (m, 0, 0)
    else if BlockCount(index) > 1 then
      var l := Carved(span, index);
      (Threaded(m, l, |l|)[span := 0], Link(l, 0, 0), span)
    else (m, Word(m, span), span)
  }

  /** The walk that counts what the thread has fetched comes to an end. */
  ghost predicate CountEnds(s: Side, index: nat, span: nat)
  {
    var (m, c, start) := FetchedMem(s.words, s.central, index, span);
    s.head == 0 ==> Ends(m, start)
  }

  /** allocate with fetchFromCentralCache, below the limit for large blocks; the second result is the
      block, or 0. */
  ghost function TakenMem(s: Side, index: nat, span: nat): (Side, nat)
    requires CountEnds(s, index, span)
  {
    var counter := (s.counter - 1) % TWO64;
    if s.head != 0 then (Side(s.words, Word(s.words, s.head), counter, s.central), s.head)
    else
      var (m, c, start) := FetchedMem(s.words, s.central, index, span);
      if start == 0 then (Side(m, 0, counter, c), 0)
      else (Side(m, Word(m, start), (counter + |ListFrom(m, start)|) % TWO64, c), start)
  }

  // ----- what that means where the words form lists

  /** Words and heads hold the two lists; behind the central list the links may lead on to a block that
      is not in it. */
  ghost predicate Holds(s: Side, lists: Lists, end: nat)
  {
    && Chain(s.words, s.head, lists.thread) && ChainTo(s.words, s.central, lists.central, end)
    && s.counter == lists.counter && OneOwner([lists.thread, lists.central])
  }

  lemma HoldsApart(s: Side, lists: Lists, end: nat)
    requires Holds(s, lists, end)
    ensures forall x :: x in lists.thread ==> x !in lists.central
  {
    var o := [lists.thread, lists.central];
    assert o[0] == lists.thread && o[1] == lists.central;
  }

  lemma PushHolds(s: Side, lists: Lists, end: nat, ptr: nat)
    requires Holds(s, lists, end) && ptr != 0 && ptr !in lists.thread && ptr !in lists.central
    ensures Holds(Side(s.words[ptr := s.head], ptr, (s.counter + 1) % TWO64, s.central),
                  Lists([ptr] + lists.thread, (lists.counter + 1) % TWO64, lists.central), end)
  {
    HoldsApart(s, lists, end);
    ChainPush(s.words, ptr, s.head, lists.thread);
    ChainFrame(s.words, s.words[ptr := s.head], s.central, lists.central, end);
  }

  /** The cases of a return in memory. */
  lemma ReturnedMemIs(s: Side, size: nat, keep: nat, split: nat, next: nat, count: nat)
    requires keep == Keep(s.counter) && split == Hop(s.words, s.head, keep - 1) && next == Word(s.words, split)
    requires s.counter > 1 ==> count == Announced(s.counter - keep, size) / BlockSize(GetIndex(size))
    ensures s.counter <= 1 || split == 0 ==> ReturnedMem(s, size) == s
    ensures s.counter > 1 && split != 0 ==>
              var m := s.words[split := 0];
              ReturnedMem(s, size) == if next == 0 then Side(m, s.head, keep, s.central)
                                      else Side(m[LastOf(m, next, count) := s.central], s.head, keep, next)
  {
  }

  /** The cases of a return on lists. */
  lemma ReturnedIs(s: Lists, size: nat, keep: nat, count: nat)
    requires keep == Keep(s.counter)
    requires s.counter > 1 ==> count == Announced(s.counter - keep, size) / BlockSize(GetIndex(size))
    ensures s.counter <= 1 || |s.thread| < keep ==> Returned(s, size) == s
    ensures s.counter > 1 && |s.thread| >= keep ==>
              var rest := s.thread[keep..];
              Returned(s, size) == Lists(s.thread[..keep], keep, if rest == [] then s.central
                                                                 else rest[..Within(|rest|, count)] + s.central)
  {
  }

  /** At least one, and no more than n. */
  function Within(n: nat, count: nat): (k: nat)
    requires n > 0
    ensures 1 <= k <= n
  {
    if count > n then n else if count == 0 then 1 else count
  }

  lemma CutHolds(s: Side, lists: Lists, keep: nat, end: nat)
    requires Holds(s, lists, end) && 0 < keep <= |lists.thread|
    ensures var l := lists.thread;
            var m := s.words[l[keep - 1] := 0];
            && Holds(Side(m, s.head, keep, s.central), Lists(l[..keep], keep, lists.central), end)
            && l[keep - 1] != 0 && Word(s.words, l[keep - 1]) == Link(l, keep - 1, 0)
            && Chain(m, Link(l, keep - 1, 0), l[keep..]) && SameBut(s.words, m, Elems(l))
            && (keep < |l| ==> Link(l, keep - 1, 0) == l[keep] != 0)
  {
    var l := lists.thread;
    HoldsApart(s, lists, end);
    ChainCut(s.words, s.head, l, keep);
    ChainFrame(s.words, s.words[l[keep - 1] := 0], s.central, lists.central, end);
    assert Hooked(s.words, l, keep - 1, 0) && l[keep - 1] in Elems(l);
    assert keep < |l| ==> Hooked(s.words, l, keep, 0);
  }

  lemma JoinHolds(s: Side, lists: Lists, keep: nat, w: nat, end: nat)
    requires Holds(s, lists, end) && 0 < keep && 0 < w && keep + w <= |lists.thread|
    ensures var l := lists.thread;
            var m := s.words[l[keep - 1] := 0][l[keep..][w - 1] := s.central];
            && Holds(Side(m, s.head, keep, l[keep]), Lists(l[..keep], keep, l[keep..][..w] + lists.central), end)
            && SameBut(s.words, m, Elems(l))
  {
    var l := lists.thread;
    HoldsApart(s, lists, end);
    ChainDistinct(s.words, s.head, l);
    CutHolds(s, lists, keep, end);
    var m, last := s.words[l[keep - 1] := 0], l[keep..][w - 1];
    assert last == l[keep + w - 1] && last in Elems(l);
    ChainJoin(m, l[keep], l[keep..], w, s.central, lists.central, end);
    ChainFrame(m, m[last := s.central], s.head, l[..keep], 0);
  }

  lemma KeepAtLeast(counter: nat)
    ensures Keep(counter) >= 1 && (counter > 1 ==> Keep(counter) < counter)
  {
  }

  /** Where the words form lists, a return does to them what Returned says. */
  lemma ReturnedHolds(s: Side, lists: Lists, size: nat, end: nat)
    requires Holds(s, lists, end) && lists.thread != []
    ensures Holds(ReturnedMem(s, size), Returned(lists, size), end)
    ensures SameBut(s.words, ReturnedMem(s, size).words, Elems(lists.thread))
  {
    hide ReturnedMem, Returned, Keep, Announced, BlockSize, GetIndex, Hop, LastOf, Hooked, OneOwner, Elems;
    var l, keep := lists.thread, Keep(s.counter);
    KeepAtLeast(s.counter);
    BlockPositive(GetIndex(size));
    var split, count := Hop(s.words, s.head, keep - 1),
                        if s.counter > 1 then Announced(s.counter - keep, size) / BlockSize(GetIndex(size)) else 0;
    HopIs(s.words, s.head, l, keep - 1);
    ReturnedMemIs(s, size, keep, split, Word(s.words, split), count);
    ReturnedIs(lists, size, keep, count);
    if s.counter > 1 && keep <= |l| {
      CutHolds(s, lists, keep, end);
      if keep < |l| {
        LastIs(s.words[l[keep - 1] := 0], l[keep], l[keep..], count);
        JoinHolds(s, lists, keep, Within(|l| - keep, count), end);
      }
    }
  }

  /** Where the words form lists, a release does to them what Freed says. */
  lemma FreedHolds(s: Side, lists: Lists, ptr: nat, size: nat, end: nat)
    requires Holds(s, lists, end) && ptr != 0 && ptr !in lists.thread && ptr !in lists.central
    ensures Holds(FreedMem(s, ptr, size), Freed(lists, ptr, size), end)
    ensures SameBut(s.words, FreedMem(s, ptr, size).words, Elems([ptr] + lists.thread))
  {
    hide Returned, ReturnedMem, Holds;
    PushHolds(s, lists, end, ptr);
    assert ([ptr] + lists.thread)[0] == ptr;
    assert s.counter == lists.counter by {
      HoldsCounter(s, lists, end);
    }
    var s', lists' := Side(s.words[ptr := s.head], ptr, (s.counter + 1) % TWO64, s.central),
                      Lists([ptr] + lists.thread, (lists.counter + 1) % TWO64, lists.central);
    ReturnedHolds(s', lists', size, end);
  }

  lemma HoldsCounter(s: Side, lists: Lists, end: nat)
    requires Holds(s, lists, end)
    ensures s.counter == lists.counter
  {
  }

  /** A request that the thread's own list serves. */
  lemma TakenOwn(s: Side, lists: Lists, index: nat, span: nat, end: nat)
    requires Holds(s, lists, end) && lists.thread != []
    ensures CountEnds(s, index, span)
    ensures var (s', ptr) := TakenMem(s, index, span);
            var (lists', ptr') := Allocated(lists, []);
            Holds(s', lists', end) && ptr == ptr' == s.head && s'.words == s.words
  {
    HoldsApart(s, lists, end);
    ChainStep(s.words, s.head, lists.thread, 0);
  }

  /** A request that a central list serves: the thread gets all blocks of the list, and the central
      head still leads to the one that is handed out. */
  lemma TakenCentral(s: Side, lists: Lists, index: nat, span: nat)
    requires Holds(s, lists, 0) && lists.thread == [] && lists.central != []
    ensures CountEnds(s, index, span)
    ensures var (s', ptr) := TakenMem(s, index, span);
            var (lists', ptr') := Allocated(lists, []);
            Holds(s', Lists(lists'.thread, lists'.counter, []), ptr) && ptr == ptr' == s.central && s'.words == s.words
  {
    ChainNull(s.words, s.head, lists.thread);
    ChainStep(s.words, s.central, lists.central, 0);
    ListIs(s.words, s.central, lists.central);
  }

  /** A request without memory. */
  lemma TakenNone(s: Side, lists: Lists, index: nat)
    requires Holds(s, lists, 0) && lists.thread == [] && lists.central == []
    ensures CountEnds(s, index, 0)
    ensures var (s', ptr) := TakenMem(s, index, 0);
            var (lists', ptr') := Allocated(lists, []);
            Holds(s', lists', 0) && ptr == ptr' == 0 && s'.words == s.words
  {
    ListIs(s.words, 0, []);
  }

  /** What cutting up a span does to memory. */
  lemma CarvedMem(m: Words, index: nat, span: nat)
    requires span != 0 && (BlockCount(index) == 1 ==> Word(m, span) == 0)
    ensures var (m', c, start) := FetchedMem(m, 0, index, span);
            var carved := Carved(span, index);
            && start == span && carved != [] && Chain(m', span, [span]) && Chain(m', c, carved[1..])
            && SameBut(m, m', Elems(carved))
  {
    hide BlockCount, BlockAt;
    FirstBlock(span, index);
    CarvedDistinct(span, index);
    var l := Carved(span, index);
    if BlockCount(index) > 1 {
      var t := Threaded(m, l, |l|);
      ThreadedHooks(m, l, |l|);
      assert Chain(t, span, l);
      ChainCut(t, span, l, 1);
      assert l[..1] == [span] && l[0] in Elems(l);
    } else {
      assert l[1..] == [];
    }
  }

  /** A request that a new span serves. */
  lemma TakenSpan(s: Side, lists: Lists, index: nat, span: nat)
    requires Holds(s, lists, 0) && lists.thread == [] && lists.central == []
    requires span != 0 && (BlockCount(index) == 1 ==> Word(s.words, span) == 0)
    ensures CountEnds(s, index, span)
    ensures var (s', ptr) := TakenMem(s, index, span);
            var (lists', ptr') := Allocated(lists, Carved(span, index));
            Holds(s', lists', 0) && ptr == ptr' == span && SameBut(s.words, s'.words, Elems(Carved(span, index)))
  {
    hide FetchedMem, BlockCount, Carved, SameBut;
    CarvedMem(s.words, index, span);
    FirstBlock(span, index);
    var (m, c, start) := FetchedMem(s.words, 0, index, span);
    ListIs(m, span, [span]);
    ChainStep(m, span, [span], 0);
  }
}
