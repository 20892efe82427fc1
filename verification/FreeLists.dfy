/** The size classes of the memory pool, and what its operations do to the lists of one class. */
module FreeLists {
  import opened PageUnit

  const ALIGNMENT := 8
  const MAX_BYTES := 262144
  const FREE_LIST_SIZE := 32768
  const SPAN_PAGES := 8
  const TWO64 := 0x1_0000_0000_0000_0000

  // ----- size classes

  function RoundUp(bytes: nat): nat
  {
    (bytes + ALIGNMENT - 1) / ALIGNMENT * ALIGNMENT
  }

  function GetIndex(bytes: nat): nat
  {
    var b := if bytes < ALIGNMENT then ALIGNMENT else bytes;
    (b + ALIGNMENT - 1) / ALIGNMENT - 1
  }

  /** The bytes of a block in a size class. */
  function BlockSize(index: nat): nat
  {
    (index + 1) * ALIGNMENT
  }

  /** A request of a size that the caches serve gets a block that is large enough and no larger than
      it must be; the rounded size and the class agree about it, unless the size is 0. */
  lemma SizeClassIff(size: nat)
    requires size <= MAX_BYTES
    ensures GetIndex(size) < FREE_LIST_SIZE
    ensures BlockSize(GetIndex(size)) % 8 == 0 && size <= BlockSize(GetIndex(size)) < (if size == 0 then 1 else size) + 8
    ensures RoundUp(size) == BlockSize(GetIndex(size)) <==> size != 0
  {
  }

  /** The last class is for the largest size that the caches serve, 256 KB. */
  lemma LastClass()
    ensures GetIndex(256 * 1024) == FREE_LIST_SIZE - 1 && BlockSize(FREE_LIST_SIZE - 1) == 256 * 1024 == MAX_BYTES
  {
  }

  // ----- lists as sequences

  predicate Distinct(l: seq<nat>)
  {
    forall i, j :: 0 <= i < j < |l| ==> l[i] != l[j]
  }

  function Elems(l: seq<nat>): set<nat>
  {
    set x | x in l
  }

  /** Every block is in one list. */
  ghost predicate OneOwner(lists: seq<seq<nat>>)
  {
    forall i, j, x :: 0 <= i < j < |lists| && x in lists[i] ==> x !in lists[j]
  }

  // ----- what a return does to the lists of one size class

  /** How many blocks returnRange walks over: as many as its size argument says, but at least one and
      no more than there are. */
  function Walked(n: nat, size: nat, index: nat): (k: nat)
    requires n > 0
    ensures 1 <= k <= n
  {
    var count := size / BlockSize(index);
    if count > n then n else if count == 0 then 1 else count
  }

  datatype Lists = Lists(thread: seq<nat>, counter: nat, central: seq<nat>)

  function Keep(counter: nat): nat
  {
    if counter / 4 > 1 then counter / 4 else 1
  }

  /** The bytes that a number of blocks is announced as, in a size_t. */
  function Announced(blocks: nat, size: nat): nat
  {
    blocks * RoundUp(size) % TWO64
  }

  /** So many blocks of a class have a size that a size_t can hold, as all blocks in memory do. */
  predicate Fits(blocks: nat, index: nat)
  {
    blocks * BlockSize(index) < TWO64
  }

  /** returnToCentralCache, on the thread's list and counter and the central list of the class. */
  function Returned(s: Lists, size: nat): Lists
  {
    var keep, index := Keep(s.counter), GetIndex(size);
    if s.counter <= 1 || |s.thread| < keep then s
    else
      var rest := s.thread[keep..];
      var bytes := Announced(s.counter - keep, size);
      Lists(s.thread[..keep], keep, if rest == [] then s.central else rest[..Walked(|rest|, bytes, index)] + s.central)
  }

  /** deallocate, below the limit for large blocks. */
  function Freed(s: Lists, ptr: nat, size: nat): Lists
  {
    var counter := (s.counter + 1) % TWO64;
    var s' := Lists([ptr] + s.thread, counter, s.central);
    if counter > 256 then Returned(s', size) else s'
  }

  ghost function Blocks(s: Lists): multiset<nat>
  {
    multiset(s.thread) + multiset(s.central)
  }

  lemma TakeDrop(l: seq<nat>, k: nat)
    requires k <= |l|
    ensures multiset(l) == multiset(l[..k]) + multiset(l[k..])
  {
    assert l == l[..k] + l[k..];
  }

  lemma {:induction false} ExactQuotient(n: nat, b: nat)
    requires b > 0
    ensures n * b / b == n
  {
    if n > 0 {
      ExactQuotient(n - 1, b);
      assert n * b == (n - 1) * b + b;
      AddOne((n - 1) * b, b);
    }
  }

  lemma AddOne(x: nat, b: nat)
    requires b > 0
    ensures (x + b) / b == x / b + 1
  {
    var q, r := x / b, x % b;
    assert x + b == (q + 1) * b + r;
    Quotient(x + b, b, q + 1, r);
  }

  lemma Quotient(x: nat, b: nat, q: nat, r: nat)
    requires b > 0 && x == q * b + r && r < b
    ensures x / b == q
  {
    var p, t := x / b, x % b;
    assert (p - q) * b == r - t;
    if p > q {
      Grows(p - q, b);
    } else if p < q {
      assert (q - p) * b == t - r;
      Grows(q - p, b);
    }
  }

  lemma {:induction false} Grows(d: nat, b: nat)
    requires d > 0
    ensures d * b >= b
  {
    if d > 1 {
      Grows(d - 1, b);
      assert d * b == (d - 1) * b + b;
    }
  }

  /** The byte count that a return announces stands for as many blocks as the thread counts beyond
      those it keeps; a size of 0 stands for none. */
  lemma ReturnWalks(counter: nat, keep: nat, size: nat, n: nat)
    requires n > 0 && keep <= counter && size <= MAX_BYTES && Fits(counter - keep, GetIndex(size))
    ensures Walked(n, Announced(counter - keep, size), GetIndex(size)) == n
            <==> n == 1 || (size != 0 && counter - keep >= n)
  {
    var d := counter - keep;
    if size != 0 {
      AnnouncedExact(d, size);
      hide Announced, BlockSize, GetIndex, Fits;
      WalkedIs(n, Announced(d, size), GetIndex(size), d);
    } else {
      AnnouncedNone(d);
      WalkedIs(n, 0, GetIndex(size), 0);
    }
  }

  lemma AnnouncedExact(d: nat, size: nat)
    requires 1 <= size <= MAX_BYTES && Fits(d, GetIndex(size))
    ensures Announced(d, size) / BlockSize(GetIndex(size)) == d
  {
    hide BlockSize, GetIndex, RoundUp;
    SizeClassIff(size);
    BlockPositive(GetIndex(size));
    QuotientBelow(d, BlockSize(GetIndex(size)));
  }

  lemma QuotientBelow(d: nat, b: nat)
    requires b > 0 && d * b < TWO64
    ensures d * b % TWO64 / b == d
  {
    ExactQuotient(d, b);
  }

  lemma BlockPositive(index: nat)
    ensures BlockSize(index) > 0
  {
  }

  lemma AnnouncedNone(d: nat)
    ensures Announced(d, 0) == 0
  {
    assert RoundUp(0) == 0;
  }

  lemma WalkedIs(n: nat, bytes: nat, index: nat, d: nat)
    requires n > 0 && bytes / BlockSize(index) == d
    ensures Walked(n, bytes, index) == n <==> n == 1 || d >= n
  {
  }

  lemma FitsLess(a: nat, b: nat, index: nat)
    requires a <= b && Fits(b, index)
    ensures Fits(a, index)
  {
    var k := BlockSize(index);
    assert b * k == a * k + (b - a) * k;
  }

  /** A release keeps every block in one of the two lists exactly when it returns none, or all behind
      those it keeps: the size is not 0, and the thread does not count fewer blocks than it has. */
  lemma FreeKeepsIff(s: Lists, ptr: nat, size: nat)
    requires var c := (s.counter + 1) % TWO64;
             size <= MAX_BYTES && (c > 256 && |s.thread| + 1 > Keep(c) ==> Fits(c - Keep(c), GetIndex(size)))
    ensures var c, n := (s.counter + 1) % TWO64, |s.thread| + 1;
            Blocks(Freed(s, ptr, size)) == Blocks(s) + multiset{ptr}
            <==> c <= 256 || n <= Keep(c) + 1 || (size != 0 && c >= n)
  {
    hide Freed, Returned, RoundUp, GetIndex, Walked, BlockSize, Keep, Announced, Fits, Blocks;
    var c, l := (s.counter + 1) % TWO64, [ptr] + s.thread;
    FreedIs(s, ptr, size);
    FreedBlocks(s, ptr, size);
    if c > 256 && |l| > Keep(c) {
      KeepBound(c, |l|);
      ReturnWalks(c, Keep(c), size, |l| - Keep(c));
    }
  }

  lemma FreedBlocks(s: Lists, ptr: nat, size: nat)
    ensures var c, l := (s.counter + 1) % TWO64, [ptr] + s.thread;
            Blocks(Freed(s, ptr, size)) == Blocks(s) + multiset{ptr}
            <==> c <= 256 || |l| <= Keep(c) || Walked(|l| - Keep(c), Announced(c - Keep(c), size), GetIndex(size)) == |l| - Keep(c)
  {
    hide Freed, Returned, RoundUp, GetIndex, Walked, BlockSize, Keep, Announced, Blocks;
    var c, l := (s.counter + 1) % TWO64, [ptr] + s.thread;
    FreedIs(s, ptr, size);
    if c > 256 && |l| > Keep(c) {
      KeepBound(c, |l|);
      FreedSplit(s, ptr, Keep(c), Walked(|l| - Keep(c), Announced(c - Keep(c), size), GetIndex(size)));
    } else {
      PushedBlocks(s, ptr, Freed(s, ptr, size));
    }
  }

  lemma PushedBlocks(s: Lists, ptr: nat, f: Lists)
    requires f.thread == [ptr] + s.thread && f.central == s.central
    ensures Blocks(f) == Blocks(s) + multiset{ptr}
  {
  }

  lemma FreedSplit(s: Lists, ptr: nat, keep: nat, w: nat)
    requires keep + w <= |s.thread| + 1
    ensures var l := [ptr] + s.thread;
            Blocks(Lists(l[..keep], keep, l[keep..][..w] + s.central)) == Blocks(s) + multiset{ptr} <==> w == |l| - keep
  {
    var l := [ptr] + s.thread;
    PushedBlocks(s, ptr, Lists(l, 0, s.central));
    SplitBlocks(l, keep, w, s.central);
  }

  lemma KeepBound(c: nat, n: nat)
    requires c > 256 && n > Keep(c)
    ensures Keep(c) < c < 4 * n + 4
  {
  }

  lemma FreedIs(s: Lists, ptr: nat, size: nat)
    ensures var c, l := (s.counter + 1) % TWO64, [ptr] + s.thread;
            if c > 256 && |l| > Keep(c) then
              var w := Walked(|l| - Keep(c), Announced(c - Keep(c), size), GetIndex(size));
              w <= |l| - Keep(c) && Freed(s, ptr, size) == Lists(l[..Keep(c)], Keep(c), l[Keep(c)..][..w] + s.central)
            else Freed(s, ptr, size).thread == l && Freed(s, ptr, size).central == s.central
  {
  }

  lemma SplitBlocks(l: seq<nat>, keep: nat, w: nat, central: seq<nat>)
    requires keep + w <= |l|
    ensures multiset(l[..keep]) + multiset(l[keep..][..w] + central) == multiset(l) + multiset(central) <==> w == |l| - keep
  {
    var rest := l[keep..];
    var a, b := multiset(l[..keep]) + multiset(rest[..w] + central), multiset(l) + multiset(central);
    TakeDrop(l, keep);
    assert |a| == keep + w + |central| && |b| == |l| + |central|;
    if w == |l| - keep {
      assert rest[..w] == rest;
      assert multiset(rest + central) == multiset(rest) + multiset(central);
    }
  }

  /** What a release does. Up to a counter of 256, and when the list has fewer blocks than a quarter of the
      counter, it only puts the block in front. Else the first quarter of the counter stays, and becomes the
      counter, and of what follows as many blocks as the counter lost go in front of the central list, or
      all there are; under size 0, only one does. */
  lemma FreedMeans(s: Lists, ptr: nat, size: nat)
    requires var c := (s.counter + 1) % TWO64;
             size <= MAX_BYTES && (256 < c < 4 * |s.thread| + 8 ==> Fits(c, GetIndex(size)))
    ensures var c, l, f := (s.counter + 1) % TWO64, [ptr] + s.thread, Freed(s, ptr, size);
            && (c <= 256 || c >= 4 * |l| + 4 ==> f == Lists(l, c, s.central))
            && (256 < c < 4 * |l| + 4 ==>
                  var k := |f.thread|;
                  && f.counter == k <= |l| && 4 * k <= c < 4 * k + 4 && f.thread == l[..k]
                  && f.central == l[k..if size == 0 && k < |l| then k + 1 else if c < |l| then c else |l|] + s.central)
  {
    hide Freed, GetIndex, BlockSize, RoundUp, Announced, Walked;
    var c, l := (s.counter + 1) % TWO64, [ptr] + s.thread;
    FreedCases(s, ptr, size);
    if 256 < c < 4 * |l| + 4 && |l| > Keep(c) {
      var d, rest := c - Keep(c), l[Keep(c)..];
      Fewer(d, c, BlockSize(GetIndex(size)));
      ReturnCount(d, size, |rest|);
      assert rest[..Walked(|rest|, Announced(d, size), GetIndex(size))]
          == l[Keep(c)..Keep(c) + Walked(|rest|, Announced(d, size), GetIndex(size))];
    }
  }

  lemma Fewer(a: nat, b: nat, k: nat)
    requires a <= b && b * k < TWO64
    ensures a * k < TWO64
  {
    assert b * k == a * k + (b - a) * k;
  }

  /** How many of n blocks go back when d blocks are announced. */
  lemma ReturnCount(d: nat, size: nat, n: nat)
    requires 0 < d && 0 < n && size <= MAX_BYTES && d * BlockSize(GetIndex(size)) < TWO64
    ensures Walked(n, Announced(d, size), GetIndex(size)) == if size == 0 then 1 else if d < n then d else n
  {
    if size == 0 {
      AnnouncedNone(d);
    } else {
      AnnouncedExact(d, size);
      hide Announced, BlockSize, GetIndex;
    }
  }

  lemma FreedCases(s: Lists, ptr: nat, size: nat)
    ensures var c, l, f := (s.counter + 1) % TWO64, [ptr] + s.thread, Freed(s, ptr, size);
            if c <= 256 || |l| < Keep(c) then f == Lists(l, c, s.central)
            else f == Lists(l[..Keep(c)], Keep(c),
                            if |l| == Keep(c) then s.central
                            else l[Keep(c)..][..Walked(|l| - Keep(c), Announced(c - Keep(c), size), GetIndex(size))] + s.central)
  {
  }

  /** A release under size 0 as the 257th of its class: 64 blocks stay with the thread, one goes to the
      central list, and the other 192 are in neither. */
  lemma SizeZeroLoses(ptr: nat)
    ensures var s := Lists(seq(256, i => 8 * (i + 1)), 256, []);
            && |s.thread| == s.counter && Blocks(Freed(s, ptr, 0)) != Blocks(s) + multiset{ptr}
            && |Freed(s, ptr, 0).thread| == 64 && |Freed(s, ptr, 0).central| == 1
  {
    var s := Lists(seq(256, i => 8 * (i + 1)), 256, []);
    assert Keep(257) == 64 && GetIndex(0) == 0 && Fits(257 - 64, 0);
    FreeKeepsIff(s, ptr, 0);
    FreedIs(s, ptr, 0);
    AnnouncedNone(257 - 64);
    assert Walked(257 - 64, 0, 0) == 1;
  }

  /** A true counter stays true, and a return makes a false one true. */
  lemma CounterTrueIff(s: Lists, ptr: nat, size: nat)
    requires |s.thread| + 1 < TWO64 && s.counter < TWO64
    ensures var c, n, s' := (s.counter + 1) % TWO64, |s.thread| + 1, Freed(s, ptr, size);
            s'.counter == |s'.thread| <==> s.counter == |s.thread| || (c > 256 && Keep(c) <= n)
  {
  }

  // ----- what an allocation does

  /** allocate, below the limit for large blocks: carved is what a span from the page cache is cut
      into, if one is needed and there is one. The second result is the block, or 0. */
  function Allocated(s: Lists, carved: seq<nat>): (Lists, nat)
  {
    if s.thread != [] then (Lists(s.thread[1..], (s.counter - 1) % TWO64, s.central), s.thread[0])
    else if s.central != [] then
      (Lists(s.central[1..], ((s.counter - 1) % TWO64 + |s.central|) % TWO64, s.central), s.central[0])
    else if carved == [] then (Lists([], (s.counter - 1) % TWO64, []), 0)
    else (Lists([], ((s.counter - 1) % TWO64 + 1) % TWO64, carved[1..]), carved[0])
  }

  /** What a request does: the block comes from the front of the thread's list, or else of the central list,
      which the thread gets the rest of and the central cache keeps, or else of a new span, whose other
      blocks the central cache gets; or there is none. */
  lemma AllocatedMeans(s: Lists, carved: seq<nat>)
    requires 0 !in s.thread && 0 !in s.central && 0 !in carved
    ensures var (f, ptr) := Allocated(s, carved);
            && (s.thread != [] ==> [ptr] + f.thread == s.thread && f.central == s.central)
            && (s.thread == [] && s.central != [] ==> [ptr] + f.thread == s.central == f.central)
            && (s.thread == [] && s.central == [] && carved != [] ==> f.thread == [] && [ptr] + f.central == carved)
            && (s.thread == [] && s.central == [] && carved == [] ==> ptr == 0 && f.thread == [] && f.central == [])
  {
  }

  /** The counter moves by as much as the thread's list gains or loses, and by one too many without a block. */
  lemma AllocatedCounts(s: Lists, carved: seq<nat>)
    requires 0 !in s.thread && 0 !in s.central && 0 !in carved
    ensures var (f, ptr) := Allocated(s, carved);
            (f.counter + |s.thread| + (if ptr == 0 then 1 else 0)) % TWO64 == (s.counter + |f.thread|) % TWO64
  {
    var (f, ptr) := Allocated(s, carved);
    Modulo(s.counter - 1, |s.thread|);
    if s.thread == [] && ptr != 0 {
      Modulo(s.counter - 1, |f.thread| + 1);
    } else if s.thread == [] {
      Modulo(s.counter - 1, 1);
    }
  }

  lemma Modulo(a: int, b: int)
    ensures (a % TWO64 + b) % TWO64 == (a + b) % TWO64
  {
  }

  /** The counter falls below zero on the way and comes back: a counter that was the length of the
      list is that again exactly when the allocation succeeds. */
  lemma AllocCounterIff(s: Lists, carved: seq<nat>)
    requires s.counter == |s.thread| < TWO64 && |s.central| < TWO64
    requires 0 !in s.thread && 0 !in s.central && 0 !in carved
    ensures var (s', ptr) := Allocated(s, carved);
            && (s'.counter == |s'.thread| <==> ptr != 0)
            && (ptr == 0 <==> s.thread == [] && s.central == [] && carved == [])
  {
  }

  /** After an allocation nobody else has the block, and no other block has two owners, exactly when
      the thread's own list was not empty, or there was nothing in the central list: a central list
      is handed over without being taken away. */
  lemma AllocOwnersIff(s: Lists, carved: seq<nat>)
    requires OneOwner([s.thread, s.central, carved]) && Distinct(s.thread) && Distinct(s.central) && Distinct(carved)
    requires 0 !in s.thread && 0 !in s.central && 0 !in carved
    ensures var (s', ptr) := Allocated(s, carved);
            OneOwner([s'.thread, s'.central]) && ptr !in s'.thread && ptr !in s'.central
            <==> s.thread != [] || s.central == []
  {
    var (s', ptr) := Allocated(s, carved);
    var before := [s.thread, s.central, carved];
    assert before[0] == s.thread && before[1] == s.central && before[2] == carved;
    if s.thread != [] {
      assert forall x :: x in s'.thread ==> x in s.thread && x !in s.central;
      assert ptr in before[0] && ptr !in before[1];
    } else if s.central != [] {
      assert ptr in s'.central;
    } else if carved != [] {
      assert forall i :: 0 <= i < |carved[1..]| ==> carved[1..][i] == carved[i + 1] != carved[0];
    }
  }

  // ----- a span cut into blocks

  /** The pages that fetchFromPageCache asks for. */
  function PagesAsked(size: nat): nat
  {
    if size < SPAN_PAGES * PAGE_SIZE then SPAN_PAGES else (size + PAGE_SIZE - 1) / PAGE_SIZE
  }

  /** The pages that fetchRange cuts up. */
  function PagesCut(size: nat): nat
  {
    if size <= SPAN_PAGES * PAGE_SIZE then SPAN_PAGES else (size + PAGE_SIZE - 1) / PAGE_SIZE
  }

  function BlockCount(index: nat): nat
  {
    PagesCut(BlockSize(index)) * PAGE_SIZE / BlockSize(index)
  }

  /** A span has eight pages, or as many as one block needs if these are too few. */
  lemma PagesNeeded(size: nat)
    ensures size < 8 * PAGE_SIZE ==> PagesAsked(size) == 8
    ensures size >= 8 * PAGE_SIZE ==> (PagesAsked(size) - 1) * PAGE_SIZE < size <= PagesAsked(size) * PAGE_SIZE
  {
  }

  /** The pages that are asked for are those that are cut up, and the blocks lie inside them. */
  lemma CutFits(index: nat)
    ensures PagesAsked(BlockSize(index)) == PagesCut(BlockSize(index))
    ensures 1 <= BlockCount(index) && BlockCount(index) * BlockSize(index) <= PagesAsked(BlockSize(index)) * PAGE_SIZE
  {
    var size := BlockSize(index);
    if size == SPAN_PAGES * PAGE_SIZE {
      assert (size + PAGE_SIZE - 1) / PAGE_SIZE == SPAN_PAGES;
    }
    assert size <= PagesCut(size) * PAGE_SIZE;
    AtLeastOne(PagesCut(size) * PAGE_SIZE, size);
  }

  lemma AtLeastOne(a: nat, b: nat)
    requires 0 < b <= a
    ensures a / b >= 1 && a / b * b <= a
  {
    assert a == a / b * b + a % b;
    AddOne(a - b, b);
  }

  /** The i-th block of a span. */
  function BlockAt(span: nat, index: nat, i: nat): nat
  {
    span + i * BlockSize(index)
  }

  function Carved(span: nat, index: nat): (l: seq<nat>)
    ensures |l| == if span == 0 then 0 else BlockCount(index)
    ensures forall i :: 0 <= i < |l| ==> l[i] == BlockAt(span, index, i)
  {
    if span == 0 then [] else seq(BlockCount(index), i requires 0 <= i => BlockAt(span, index, i))
  }

  lemma BlocksApart(span: nat, index: nat, i: nat, j: nat)
    requires i < j
    ensures BlockAt(span, index, i) + BlockSize(index) <= BlockAt(span, index, j)
  {
    assert j * BlockSize(index) == i * BlockSize(index) + (j - i) * BlockSize(index);
    Grows(j - i, BlockSize(index));
  }

  lemma FirstBlock(span: nat, index: nat)
    requires span != 0
    ensures Carved(span, index) != [] && Carved(span, index)[0] == span
  {
    CutFits(index);
  }

  lemma CarvedDistinct(span: nat, index: nat)
    ensures Distinct(Carved(span, index)) && forall i :: 0 <= i < |Carved(span, index)| ==> Carved(span, index)[i] != 0
  {
    var l := Carved(span, index);
    forall i, j | 0 <= i < j < |l| ensures l[i] != l[j] {
      BlocksApart(span, index, i, j);
    }
  }
}
