/** The page-cache allocator as a state machine: free lists by size, live blocks, and the
    addresses on record. PageCache refines it with linked spans. */
module Spans {
  import opened PageUnit
  import opened Wrappers

  /** A run of pages. */
  datatype Block = Block(addr: nat, pages: nat)
  {
    function End(): nat { addr + pages * PAGE_SIZE }
  }

  /** `free` holds a list under every size that has a map entry, even an emptied one; `owned`
      is the set of pages that the system has granted so far. */
  datatype State = State(free: map<nat, seq<Block>>, live: set<Block>, recorded: map<nat, Block>, owned: set<nat>)

  const EMPTY := State(map[], {}, map[], {})

  function ListOf(free: map<nat, seq<Block>>, n: nat): seq<Block>
  {
    if n in free then free[n] else []
  }

  ghost function Pages(b: Block): set<nat>
  {
    set k | 0 <= k < b.pages :: b.addr + k * PAGE_SIZE
  }

  predicate Apart(a: Block, b: Block)
  {
    a.End() <= b.addr || b.End() <= a.addr
  }

  predicate InFree(free: map<nat, seq<Block>>, b: Block)
  {
    b.pages in free && b in free[b.pages]
  }

  predicate Known(s: State, b: Block)
  {
    b in s.live || InFree(s.free, b)
  }

  // ----- the operations

  datatype Result = Granted(addr: nat) | NoMemory | Fault

  /** std::map::lower_bound: the least key at or above n. */
  ghost predicate IsLowerBound(free: map<nat, seq<Block>>, n: nat, k: nat)
  {
    k in free && n <= k && forall j :: j in free && n <= j ==> k <= j
  }

  ghost predicate HasAtLeast(free: map<nat, seq<Block>>, n: nat)
  {
    exists k :: k in free && n <= k
  }

  lemma LowerBoundExists(free: map<nat, seq<Block>>, n: nat)
    requires HasAtLeast(free, n)
    ensures exists k :: IsLowerBound(free, n, k)
  {
    var k :| k in free && n <= k;
    LowestIn(free, n, k);
  }

  lemma {:induction false} LowestIn(free: map<nat, seq<Block>>, n: nat, k: nat)
    requires k in free && n <= k
    ensures exists j :: IsLowerBound(free, n, j)
    decreases k
  {
    if exists j :: j in free && n <= j < k {
      var j :| j in free && n <= j < k;
      LowestIn(free, n, j);
    } else {
      assert IsLowerBound(free, n, k);
    }
  }

  ghost function LowerBound(free: map<nat, seq<Block>>, n: nat): (k: nat)
    requires HasAtLeast(free, n)
    ensures IsLowerBound(free, n, k)
  {
    LowerBoundExists(free, n);
    var k :| IsLowerBound(free, n, k);
    k
  }

  /** The free lists without the head of list k; an emptied list loses its entry. */
  function PopFree(free: map<nat, seq<Block>>, k: nat): map<nat, seq<Block>>
    requires k in free && free[k] != []
  {
    if |free[k]| > 1 then free[k := free[k][1..]] else free - {k}
  }

  function PushFree(free: map<nat, seq<Block>>, b: Block): map<nat, seq<Block>>
  {
    free[b.pages := [b] + ListOf(free, b.pages)]
  }

  /** allocateSpan with mmap answering sys. A null list head under the lower bound is dereferenced. */
  ghost function Alloc(s: State, n: nat, sys: Option<nat>): (State, Result)
  {
    if HasAtLeast(s.free, n) then
      var k := LowerBound(s.free, n);
      if s.free[k] == [] then (s, Fault)
      else
        var b := s.free[k][0];
        var free := PopFree(s.free, k);
        var free' := if b.pages > n then PushFree(free, Block(b.addr + n * PAGE_SIZE, b.pages - n)) else free;
        var got := if b.pages > n then Block(b.addr, n) else b;
        (State(free', s.live + {got}, s.recorded[b.addr := got], s.owned), Granted(b.addr))
    else
      match sys
      case None => (s, NoMemory)
      case Some(a) =>
        var got := Block(a, n);
        (State(s.free, s.live + {got}, s.recorded[a := got], s.owned + Pages(got)), Granted(a))
  }

  function Without(l: seq<Block>, b: Block): seq<Block>
  {
    if l == [] then [] else if l[0] == b then l[1..] else [l[0]] + Without(l[1..], b)
  }

  /** deallocateSpan. Looking into a size's list makes an entry for it, if only an empty one. */
  function Free(s: State, addr: nat, n: nat): State
  {
    if addr !in s.recorded then s
    else
      var b, next := s.recorded[addr], addr + n * PAGE_SIZE;
      if next !in s.recorded then
        State(PushFree(s.free, b), s.live - {b}, s.recorded, s.owned)
      else
        var nb := s.recorded[next];
        var list := ListOf(s.free, nb.pages);
        if nb !in list then
          State(PushFree(s.free[nb.pages := list], b), s.live - {b}, s.recorded, s.owned)
        else
          var merged := Block(b.addr, b.pages + nb.pages);
          State(PushFree(s.free[nb.pages := Without(list, nb)], merged), s.live - {b},
                (s.recorded - {next})[addr := merged], s.owned)
  }

  // ----- the invariant

  /** A list of n-page blocks, none of them twice. */
  ghost predicate ListRight(n: nat, l: seq<Block>)
  {
    && (forall i :: 0 <= i < |l| ==> l[i].pages == n >= 1)
    && forall i, j :: 0 <= j < i < |l| ==> l[j] != l[i]
  }

  ghost predicate ListsRight(free: map<nat, seq<Block>>)
  {
    forall n :: n in free ==> ListRight(n, free[n])
  }

  /** Blocks neither overlap nor repeat; together they are the pages from the system; every live
      block is on record under its own address, and everything on record is a block. */
  ghost predicate Inv(s: State)
  {
    && ListsRight(s.free)
    && (forall b :: b in s.live ==> b.pages >= 1 && !InFree(s.free, b))
    && Tiling(s)
    && (forall a :: a in s.recorded ==> s.recorded[a].addr == a && Known(s, s.recorded[a]))
    && (forall b :: b in s.live ==> b.addr in s.recorded && s.recorded[b.addr] == b)
  }

  /** mmap answers with memory that the process does not have yet, and never with address 0, which is
      taken for a failure. */
  ghost predicate FreshFromSystem(s: State, a: nat, n: nat)
  {
    a > 0 && forall b :: Known(s, b) ==> Apart(b, Block(a, n))
  }

  lemma EmptyInv()
    ensures Inv(EMPTY)
  {
  }

  lemma SplitPages(b: Block, n: nat)
    requires 0 < n < b.pages
    ensures var c, d := Block(b.addr, n), Block(b.addr + n * PAGE_SIZE, b.pages - n);
            Pages(b) == Pages(c) + Pages(d) && c.End() == d.addr && d.End() == b.End()
  {
    var c, d := Block(b.addr, n), Block(b.addr + n * PAGE_SIZE, b.pages - n);
    forall p | p in Pages(b) ensures p in Pages(c) || p in Pages(d) {
      var k :| 0 <= k < b.pages && p == b.addr + k * PAGE_SIZE;
      if k >= n {
        assert p == d.addr + (k - n) * PAGE_SIZE;
      }
    }
    forall p | p in Pages(d) ensures p in Pages(b) {
      var k :| 0 <= k < d.pages && p == d.addr + k * PAGE_SIZE;
      assert p == b.addr + (k + n) * PAGE_SIZE;
    }
  }

  // ----- the lists under the operations

  lemma PopKnown(free: map<nat, seq<Block>>, k: nat)
    requires ListsRight(free) && k in free && free[k] != []
    ensures ListsRight(PopFree(free, k)) && InFree(free, free[k][0])
    ensures forall x :: InFree(PopFree(free, k), x) <==> InFree(free, x) && x != free[k][0]
  {
    var f, h := PopFree(free, k), free[k][0];
    assert ListRight(k, free[k]) && free[k] == [h] + free[k][1..];
    assert ListRight(k, free[k][1..]);
    forall x ensures InFree(f, x) <==> InFree(free, x) && x != h {
      if InFree(f, x) && x.pages == k {
        var i :| 0 <= i < |f[k]| && f[k][i] == x;
        assert free[k][i + 1] == x;
      }
    }
  }

  lemma PushKnown(free: map<nat, seq<Block>>, b: Block)
    requires ListsRight(free) && b.pages >= 1 && !InFree(free, b)
    ensures ListsRight(PushFree(free, b))
    ensures forall x :: InFree(PushFree(free, b), x) <==> InFree(free, x) || x == b
  {
    var f, l := PushFree(free, b), ListOf(free, b.pages);
    var l' := [b] + l;
    assert f[b.pages] == l';
    forall i, j | 0 <= j < i < |l'| ensures l'[j] != l'[i] {
      assert l'[i] == l[i - 1] && l[i - 1] in l;
    }
    assert ListRight(b.pages, l');
  }

  lemma {:induction false} WithoutIn(l: seq<Block>, b: Block)
    requires forall i, j :: 0 <= j < i < |l| ==> l[j] != l[i]
    ensures forall x :: x in Without(l, b) <==> x in l && x != b
    ensures forall i, j :: 0 <= j < i < |Without(l, b)| ==> Without(l, b)[j] != Without(l, b)[i]
  {
    if l != [] {
      assert l == [l[0]] + l[1..];
      WithoutIn(l[1..], b);
      var w, t := Without(l, b), Without(l[1..], b);
      if l[0] != b {
        forall i, j | 0 <= j < i < |w| ensures w[j] != w[i] {
          assert w[i] == t[i - 1] && t[i - 1] in t;
        }
      }
    }
  }

  /** Looking up a size changes no list; taking a block out of its list removes just that one. */
  lemma WithoutKnown(free: map<nat, seq<Block>>, b: Block)
    requires ListsRight(free)
    ensures var f := free[b.pages := Without(ListOf(free, b.pages), b)];
            ListsRight(f) && forall x :: InFree(f, x) <==> InFree(free, x) && x != b
    ensures var f := free[b.pages := ListOf(free, b.pages)];
            ListsRight(f) && forall x :: InFree(f, x) <==> InFree(free, x)
  {
    var l := ListOf(free, b.pages);
    WithoutIn(l, b);
    ListReplaced(free, b.pages, Without(l, b));
    ListReplaced(free, b.pages, l);
  }

  lemma ListReplaced(free: map<nat, seq<Block>>, n: nat, l: seq<Block>)
    requires ListsRight(free) && (forall x :: x in l ==> x in ListOf(free, n))
    requires forall i, j :: 0 <= j < i < |l| ==> l[j] != l[i]
    ensures ListsRight(free[n := l])
  {
    forall i | 0 <= i < |l| ensures l[i].pages == n >= 1 {
      assert l[i] in ListOf(free, n);
      var m :| 0 <= m < |free[n]| && free[n][m] == l[i];
    }
    assert ListRight(n, l);
  }

  // ----- the tiling under the operations

  /** s' has the blocks of s, with those in olds replaced by those in news. */
  ghost predicate Retiled(s: State, s': State, olds: set<Block>, news: set<Block>)
  {
    forall x :: Known(s', x) <==> (Known(s, x) && x !in olds) || x in news
  }

  ghost predicate Covered(s: State, p: nat)
  {
    exists b :: Known(s, b) && p in Pages(b)
  }

  /** No two blocks overlap, and together they cover just the pages from the system. */
  ghost predicate Tiling(s: State)
  {
    && (forall a, b :: Known(s, a) && Known(s, b) && a != b ==> Apart(a, b))
    && (forall p :: p in s.owned <==> Covered(s, p))
  }

  /** Old blocks are covered by new ones, and the other way round. */
  lemma CoveredRetiled(s: State, s': State, olds: set<Block>, news: set<Block>, p: nat)
    requires Retiled(s, s', olds, news) && forall b :: b in olds ==> Known(s, b)
    requires (exists b :: b in olds && p in Pages(b)) <==> (exists b :: b in news && p in Pages(b))
    ensures Covered(s, p) <==> Covered(s', p)
  {
    hide Known, Pages;
    if Covered(s, p) {
      var b :| Known(s, b) && p in Pages(b);
      if b in olds {
        var c :| c in news && p in Pages(c);
        assert Known(s', c);
      } else {
        assert Known(s', b);
      }
    }
    if Covered(s', p) {
      var c :| Known(s', c) && p in Pages(c);
      if c in news {
        var b :| b in olds && p in Pages(b);
        assert Known(s, b);
      }
    }
  }

  lemma SplitTiling(s: State, s': State, b: Block, n: nat)
    requires Tiling(s) && Known(s, b) && 0 < n < b.pages && s'.owned == s.owned
    requires Retiled(s, s', {b}, {Block(b.addr, n), Block(b.addr + n * PAGE_SIZE, b.pages - n)})
    ensures Tiling(s')
  {
    hide Known, Pages, Covered;
    var c, d := Block(b.addr, n), Block(b.addr + n * PAGE_SIZE, b.pages - n);
    SplitPages(b, n);
    forall p ensures p in s'.owned <==> Covered(s', p) {
      assert b in {b} && c in {c, d} && d in {c, d};
      CoveredRetiled(s, s', {b}, {c, d}, p);
    }
  }

  lemma MergeTiling(s: State, s': State, b: Block, nb: Block)
    requires Tiling(s) && Known(s, b) && Known(s, nb) && b != nb && b.End() == nb.addr && s'.owned == s.owned
    requires b.pages >= 1 && nb.pages >= 1 && forall x :: Known(s, x) ==> x.pages >= 1
    requires Retiled(s, s', {b, nb}, {Block(b.addr, b.pages + nb.pages)})
    ensures Tiling(s')
  {
    hide Known, Pages, Covered;
    var m := Block(b.addr, b.pages + nb.pages);
    SplitPages(m, b.pages);
    assert nb == Block(m.addr + b.pages * PAGE_SIZE, m.pages - b.pages);
    forall p ensures p in s'.owned <==> Covered(s', p) {
      assert m in {m} && b in {b, nb} && nb in {b, nb};
      CoveredRetiled(s, s', {b, nb}, {m}, p);
    }
  }

  lemma GrowTiling(s: State, s': State, b: Block)
    requires Tiling(s) && s'.owned == s.owned + Pages(b) && Retiled(s, s', {}, {b})
    requires forall x :: Known(s, x) ==> Apart(x, b)
    ensures Tiling(s')
  {
    hide Known, Pages;
    forall p ensures p in s'.owned <==> Covered(s', p) {
      if p in s.owned {
        var x :| Known(s, x) && p in Pages(x);
        assert Known(s', x);
      }
      if p in Pages(b) {
        assert Known(s', b);
      }
    }
  }

  lemma SameTiling(s: State, s': State)
    requires Tiling(s) && s'.owned == s.owned && Retiled(s, s', {}, {})
    ensures Tiling(s')
  {
    hide Known, Pages, Covered;
    forall p ensures p in s'.owned <==> Covered(s', p) {
      CoveredRetiled(s, s', {}, {}, p);
    }
  }

  // ----- every operation keeps the invariant

  /** A block inside a known block, other than it, is not itself known. */
  lemma InnerUnknown(s: State, b: Block, c: Block)
    requires Tiling(s) && Known(s, b) && c != b && c.pages >= 1
    requires b.addr <= c.addr && c.End() <= b.End()
    ensures !Known(s, c)
  {
  }

  lemma AllocExactKeeps(s: State, n: nat)
    requires Inv(s) && n >= 1 && HasAtLeast(s.free, n)
    requires var k := LowerBound(s.free, n); k == n && s.free[k] != []
    ensures Inv(Alloc(s, n, None).0) && Alloc(s, n, None).1.Granted?
    ensures Retiled(s, Alloc(s, n, None).0, {}, {})
  {
    var b, s' := s.free[n][0], Alloc(s, n, None).0;
    PopKnown(s.free, n);
    hide Tiling;
    SameTiling(s, s');
    forall a | a in s'.recorded ensures s'.recorded[a].addr == a && Known(s', s'.recorded[a]) {
      assert Known(s, if a == b.addr then b else s.recorded[a]);
    }
    forall x | x in s'.live ensures x.addr in s'.recorded && s'.recorded[x.addr] == x {
      if x.addr == b.addr {
        SameAddr(s, x, b);
      }
    }
  }

  lemma KnownPositive(s: State)
    requires Inv(s)
    ensures forall x :: Known(s, x) ==> x.pages >= 1
  {
  }

  /** Addresses tell known blocks apart. */
  lemma SameAddr(s: State, a: Block, b: Block)
    requires Tiling(s) && Known(s, a) && Known(s, b) && a.pages >= 1 && b.pages >= 1 && a.addr == b.addr
    ensures a == b
  {
  }

  lemma AllocSplitKeeps(s: State, n: nat)
    requires Inv(s) && n >= 1 && HasAtLeast(s.free, n)
    requires var k := LowerBound(s.free, n); k > n && s.free[k] != []
    ensures Inv(Alloc(s, n, None).0) && Alloc(s, n, None).1.Granted?
    ensures var b := s.free[LowerBound(s.free, n)][0];
            && b.pages == LowerBound(s.free, n) && Known(s, b)
            && Retiled(s, Alloc(s, n, None).0, {b}, {Block(b.addr, n), Block(b.addr + n * PAGE_SIZE, b.pages - n)})
  {
    hide Alloc, PopFree, PushFree, ListsRight, LowerBound, Tiling, InFree;
    AllocSplit(s, n);
    var k := LowerBound(s.free, n);
    var b, s' := s.free[k][0], Alloc(s, n, None).0;
    var c, d := Block(b.addr, n), Block(b.addr + n * PAGE_SIZE, b.pages - n);
    PopKnown(s.free, k);
    InnerUnknown(s, b, c);
    InnerUnknown(s, b, d);
    PushKnown(PopFree(s.free, k), d);
    SplitTiling(s, s', b, n);
    forall x | x in s'.live ensures x.addr in s'.recorded && s'.recorded[x.addr] == x {
      if x != c && x.addr == b.addr {
        SameAddr(s, x, b);
      }
    }
  }

  /** What an exact grant does to each part of the state. */
  lemma AllocExact(s: State, n: nat)
    requires Inv(s) && HasAtLeast(s.free, n) && LowerBound(s.free, n) == n && s.free[n] != []
    ensures var b := s.free[n][0];
            Alloc(s, n, None) == (State(PopFree(s.free, n), s.live + {b}, s.recorded[b.addr := b], s.owned), Granted(b.addr))
  {
    PopKnown(s.free, n);
  }

  /** What a grant that splits does to each part of the state. */
  lemma AllocSplit(s: State, n: nat)
    requires Inv(s) && n >= 1 && HasAtLeast(s.free, n) && LowerBound(s.free, n) > n && s.free[LowerBound(s.free, n)] != []
    ensures var k := LowerBound(s.free, n);
            var b := s.free[k][0];
            var c, d := Block(b.addr, n), Block(b.addr + n * PAGE_SIZE, b.pages - n);
            && Alloc(s, n, None) == (State(PushFree(PopFree(s.free, k), d), s.live + {c}, s.recorded[b.addr := c], s.owned),
                                     Granted(b.addr))
            && ListsRight(PopFree(s.free, k)) && !InFree(PopFree(s.free, k), b) && !InFree(PopFree(s.free, k), d)
            && b.pages == k && forall x :: Known(s, x) ==> x.addr != d.addr
  {
    var k := LowerBound(s.free, n);
    var b := s.free[k][0];
    var d := Block(b.addr + n * PAGE_SIZE, b.pages - n);
    PopKnown(s.free, k);
    InnerUnknown(s, b, d);
    forall x | Known(s, x) ensures x.addr != d.addr {
      assert x.pages >= 1 && (x == b || Apart(x, b));
    }
  }

  lemma AllocFreshKeeps(s: State, n: nat, a: nat)
    requires Inv(s) && n >= 1 && !HasAtLeast(s.free, n) && FreshFromSystem(s, a, n)
    ensures Inv(Alloc(s, n, Some(a)).0) && Alloc(s, n, Some(a)).1 == Granted(a)
    ensures Retiled(s, Alloc(s, n, Some(a)).0, {}, {Block(a, n)})
  {
    var got, s' := Block(a, n), Alloc(s, n, Some(a)).0;
    FreshApart(s, got);
    GrowTiling(s, s', got);
  }

  /** New memory is no known block and starts where none does. */
  lemma FreshApart(s: State, got: Block)
    requires Inv(s) && got.pages >= 1 && FreshFromSystem(s, got.addr, got.pages)
    ensures !Known(s, got) && forall b :: b in s.live ==> b.addr != got.addr
  {
    assert !Apart(got, got);
    forall b | b in s.live ensures b.addr != got.addr {
      assert Known(s, b) && Apart(b, got);
    }
  }

  /** allocateSpan keeps the invariant: a larger free block is cut without losing a page. */
  lemma AllocKeeps(s: State, n: nat, sys: Option<nat>)
    requires Inv(s) && n >= 1 && (sys.Some? ==> FreshFromSystem(s, sys.value, n))
    ensures Inv(Alloc(s, n, sys).0)
  {
    if HasAtLeast(s.free, n) {
      var k := LowerBound(s.free, n);
      if s.free[k] != [] {
        if k == n {
          AllocExactKeeps(s, n);
        } else {
          AllocSplitKeeps(s, n);
        }
      }
    } else if sys.Some? {
      AllocFreshKeeps(s, n, sys.value);
    }
  }

  /** The ways in which a request ends without a block from the lists. */
  lemma AllocCases(s: State, n: nat, sys: Option<nat>)
    requires Inv(s) && n >= 1 && (sys.Some? ==> FreshFromSystem(s, sys.value, n))
    ensures HasAtLeast(s.free, n) ==> Alloc(s, n, sys) == Alloc(s, n, None)
    ensures HasAtLeast(s.free, n) && s.free[LowerBound(s.free, n)] == [] ==> Alloc(s, n, sys) == (s, Fault)
    ensures !HasAtLeast(s.free, n) && sys.None? ==> Alloc(s, n, sys) == (s, NoMemory)
    ensures !HasAtLeast(s.free, n) && sys.Some? ==>
              var got := Block(sys.value, n);
              && Alloc(s, n, sys) == (State(s.free, s.live + {got}, s.recorded[got.addr := got], s.owned + Pages(got)), Granted(got.addr))
              && Inv(Alloc(s, n, sys).0) && Retiled(s, Alloc(s, n, sys).0, {}, {got})
              && forall x :: Known(s, x) ==> x.addr != got.addr
  {
    if !HasAtLeast(s.free, n) && sys.Some? {
      AllocFreshKeeps(s, n, sys.value);
      forall x | Known(s, x) ensures x.addr != sys.value {
        assert x.pages >= 1 && Apart(x, Block(sys.value, n));
      }
    }
  }

  /** What a grant means to the blocks that are live already. */
  lemma AllocGrant(s: State, n: nat, sys: Option<nat>)
    requires Inv(s) && n >= 1 && (sys.Some? ==> FreshFromSystem(s, sys.value, n)) && Alloc(s, n, sys).1.Granted?
    requires forall b :: Known(s, b) ==> b.addr > 0
    ensures var (s', r) := Alloc(s, n, sys);
            var got := Block(r.addr, n);
            && Inv(s') && s'.live == s.live + {got} && got !in s.live && forall b :: Known(s', b) ==> b.addr > 0
  {
    hide Inv, Alloc, PopFree, PushFree, ListsRight, LowerBound, Tiling, Pages, Apart;
    AllocKeeps(s, n, sys);
    AllocCases(s, n, sys);
    if HasAtLeast(s.free, n) {
      var k := LowerBound(s.free, n);
      var b := s.free[k][0];
      HeadFree(s, k);
      if k == n {
        AllocExactKeeps(s, n);
        AllocExact(s, n);
      } else {
        AllocSplitKeeps(s, n);
        AllocSplit(s, n);
        HeadCut(s, b, n);
      }
    }
  }

  lemma HeadFree(s: State, k: nat)
    requires Inv(s) && k in s.free && s.free[k] != []
    ensures s.free[k][0].pages == k && InFree(s.free, s.free[k][0]) && s.free[k][0] !in s.live
  {
    PopKnown(s.free, k);
  }

  lemma HeadCut(s: State, b: Block, n: nat)
    requires Inv(s) && InFree(s.free, b) && 0 < n < b.pages
    ensures !Known(s, Block(b.addr, n))
  {
    InnerUnknown(s, b, Block(b.addr, n));
  }

  /** A release names a live block and its size, or something that is not on record. */
  ghost predicate Releasable(s: State, addr: nat, n: nat)
  {
    addr in s.recorded ==> s.recorded[addr] in s.live && s.recorded[addr].pages == n
  }

  /** The following block is on record and free. */
  ghost predicate Mergeable(s: State, addr: nat, n: nat)
  {
    var next := addr + n * PAGE_SIZE;
    next in s.recorded && InFree(s.free, s.recorded[next])
  }

  /** The free lists that a release without a merge works on: the size of the following block, if it
      is on record, has been looked up. */
  ghost function LookedUp(s: State, next: nat): map<nat, seq<Block>>
  {
    if next in s.recorded then s.free[s.recorded[next].pages := ListOf(s.free, s.recorded[next].pages)] else s.free
  }

  lemma LookedUpKnown(s: State, next: nat)
    requires ListsRight(s.free)
    ensures ListsRight(LookedUp(s, next))
    ensures forall x :: InFree(LookedUp(s, next), x) <==> InFree(s.free, x)
  {
    if next in s.recorded {
      WithoutKnown(s.free, s.recorded[next]);
    }
  }

  lemma FreeAlone(s: State, addr: nat, n: nat)
    requires addr in s.recorded && !Mergeable(s, addr, n)
    ensures Free(s, addr, n) == State(PushFree(LookedUp(s, addr + n * PAGE_SIZE), s.recorded[addr]),
                                      s.live - {s.recorded[addr]}, s.recorded, s.owned)
  {
  }

  lemma FreeAloneReady(s: State, addr: nat, n: nat)
    requires Inv(s) && addr in s.recorded && Releasable(s, addr, n)
    ensures var free := LookedUp(s, addr + n * PAGE_SIZE);
            ListsRight(free) && s.recorded[addr] == Block(addr, n) && !InFree(free, Block(addr, n))
  {
    LookedUpKnown(s, addr + n * PAGE_SIZE);
  }

  lemma FreeAloneKeeps(s: State, addr: nat, n: nat)
    requires Inv(s) && addr in s.recorded && Releasable(s, addr, n) && !Mergeable(s, addr, n)
    ensures Inv(Free(s, addr, n)) && InFree(Free(s, addr, n).free, Block(addr, n))
    ensures Free(s, addr, n).recorded == s.recorded && Free(s, addr, n).live == s.live - {Block(addr, n)}
    ensures Retiled(s, Free(s, addr, n), {}, {})
  {
    hide Free, Tiling, LookedUp, PushFree, ListsRight, InFree, Mergeable;
    var b, s', next := s.recorded[addr], Free(s, addr, n), addr + n * PAGE_SIZE;
    FreeAlone(s, addr, n);
    LookedUpKnown(s, next);
    PushKnown(LookedUp(s, next), b);
    SameTiling(s, s');
  }

  lemma FreeMergedKeeps(s: State, addr: nat, n: nat)
    requires Inv(s) && addr in s.recorded && Releasable(s, addr, n) && Mergeable(s, addr, n)
    ensures var next := addr + n * PAGE_SIZE;
            var nb := s.recorded[next];
            var m, s' := Block(addr, n + nb.pages), Free(s, addr, n);
            && Inv(s') && InFree(s'.free, m) && next !in s'.recorded && !Known(s', nb)
            && Retiled(s, s', {Block(addr, n), nb}, {m})
  {
    hide Free, PushFree, Without, ListsRight, InFree, Tiling, Mergeable, ListOf, Apart;
    FreeMerged(s, addr, n);
    FreeMergedReady(s, addr, n);
    var b, s', next := s.recorded[addr], Free(s, addr, n), addr + n * PAGE_SIZE;
    var nb := s.recorded[next];
    KnownPositive(s);
    var m, free := Block(b.addr, b.pages + nb.pages), s.free[nb.pages := Without(ListOf(s.free, nb.pages), nb)];
    WithoutKnown(s.free, nb);
    MergedUnknown(s, b, nb);
    PushKnown(free, m);
    MergeTiling(s, s', b, nb);
    forall a | a in s'.recorded ensures s'.recorded[a].addr == a && Known(s', s'.recorded[a]) {
      if a != addr {
        assert Known(s, s.recorded[a]) && s.recorded[a] != b && s.recorded[a] != nb;
      }
    }
    forall x | x in s'.live ensures x.addr in s'.recorded && s'.recorded[x.addr] == x {
      if x.addr == addr {
        SameAddr(s, x, b);
      }
      if x.addr == next {
        SameAddr(s, x, nb);
      }
    }
  }

  /** What a release with a merge does to each part of the state. */
  lemma FreeMerged(s: State, addr: nat, n: nat)
    requires addr in s.recorded && Mergeable(s, addr, n)
    ensures var b, next := s.recorded[addr], addr + n * PAGE_SIZE;
            var nb := s.recorded[next];
            var m := Block(b.addr, b.pages + nb.pages);
            Free(s, addr, n) == State(PushFree(s.free[nb.pages := Without(ListOf(s.free, nb.pages), nb)], m),
                                      s.live - {b}, (s.recorded - {next})[addr := m], s.owned)
  {
  }

  lemma FreeMergedReady(s: State, addr: nat, n: nat)
    requires Inv(s) && addr in s.recorded && Releasable(s, addr, n) && Mergeable(s, addr, n)
    ensures var next := addr + n * PAGE_SIZE;
            next in s.recorded &&
            var nb := s.recorded[next];
            var free := s.free[nb.pages := Without(ListOf(s.free, nb.pages), nb)];
            && next != addr && nb.addr == next && s.recorded[addr] == Block(addr, n)
            && ListsRight(free) && !InFree(free, nb) && !InFree(free, Block(addr, n))
            && InFree(s.free, nb) && Known(s, nb) && nb.pages >= 1 && n >= 1
  {
    KnownPositive(s);
    WithoutKnown(s.free, s.recorded[addr + n * PAGE_SIZE]);
  }

  lemma MergedUnknown(s: State, b: Block, nb: Block)
    requires Tiling(s) && Known(s, b) && Known(s, nb) && b.End() == nb.addr && b.pages >= 1 && nb.pages >= 1
    ensures !Known(s, Block(b.addr, b.pages + nb.pages))
  {
    var m := Block(b.addr, b.pages + nb.pages);
    assert m != b && !Apart(m, b);
  }

  /** deallocateSpan keeps the invariant; it merges with the following block exactly when that
      block is on record and free, and then drops its record. */
  lemma FreeKeeps(s: State, addr: nat, n: nat)
    requires Inv(s) && Releasable(s, addr, n)
    ensures Inv(Free(s, addr, n)) && Free(s, addr, n).owned == s.owned
    ensures addr !in s.recorded ==> Free(s, addr, n) == s
    ensures addr in s.recorded ==>
              var s', next := Free(s, addr, n), addr + n * PAGE_SIZE;
              && s'.live == s.live - {Block(addr, n)}
              && InFree(s'.free, Block(addr, if Mergeable(s, addr, n) then n + s.recorded[next].pages else n))
              && (Mergeable(s, addr, n) ==> next !in s'.recorded)
  {
    if addr in s.recorded {
      if Mergeable(s, addr, n) {
        FreeMergedKeeps(s, addr, n);
      } else {
        FreeAloneKeeps(s, addr, n);
      }
    }
  }

  // ----- what the invariant says to a caller

  /** No address on record lies inside another block. */
  lemma RecordsAreStarts(s: State, a: nat, b: Block)
    requires Inv(s) && a in s.recorded && Known(s, b)
    ensures b.addr <= a < b.End() ==> b.addr == a && s.recorded[a] == b
  {
    var c := s.recorded[a];
    assert Known(s, c) && c.addr == a;
  }

  /** A grant from the free lists cuts the smallest free block that is large enough, and what it
      does not need stays free. */
  lemma AllocFits(s: State, n: nat, sys: Option<nat>)
    requires Inv(s) && n >= 1 && HasAtLeast(s.free, n) && Alloc(s, n, sys).1.Granted?
    ensures var (s', r) := Alloc(s, n, sys);
            && Block(r.addr, n) in s'.live && s'.owned == s.owned
            && exists b :: && InFree(s.free, b) && b.addr == r.addr && b.pages >= n
                           && (forall x :: InFree(s.free, x) && x.pages >= n ==> b.pages <= x.pages)
                           && (b.pages > n ==> InFree(s'.free, Block(b.addr + n * PAGE_SIZE, b.pages - n)))
  {
    var k := LowerBound(s.free, n);
    var b := s.free[k][0];
    PopKnown(s.free, k);
    var s' := Alloc(s, n, sys).0;
    if b.pages > n {
      assert [Block(b.addr + n * PAGE_SIZE, b.pages - n)][0] in s'.free[b.pages - n];
    }
    assert InFree(s.free, b) && b.addr == Alloc(s, n, sys).1.addr;
  }

  /** The allocator dereferences a null list head exactly when the smallest sufficient size that has
      an entry has an empty list; blocks of larger sizes do not help then. */
  lemma FaultIff(s: State, n: nat, sys: Option<nat>)
    ensures Alloc(s, n, sys).1.Fault? <==>
            exists k :: k in s.free && n <= k && s.free[k] == [] && forall j :: j in s.free && n <= j ==> k <= j
  {
    if exists k :: k in s.free && n <= k && s.free[k] == [] && forall j :: j in s.free && n <= j ==> k <= j {
      var k :| k in s.free && n <= k && s.free[k] == [] && forall j :: j in s.free && n <= j ==> k <= j;
      assert HasAtLeast(s.free, n);
    }
  }

  // ----- whole runs

  datatype Op = AllocOp(n: nat, sys: Option<nat>) | FreeOp(addr: nat, n: nat)

  ghost predicate Legal(s: State, op: Op)
  {
    match op
    case AllocOp(n, sys) => n >= 1 && (sys.Some? ==> FreshFromSystem(s, sys.value, n))
    case FreeOp(addr, n) => Releasable(s, addr, n)
  }

  ghost function Step(s: State, op: Op): State
  {
    match op
    case AllocOp(n, sys) => Alloc(s, n, sys).0
    case FreeOp(addr, n) => Free(s, addr, n)
  }

  ghost predicate LegalRun(s: State, ops: seq<Op>)
    decreases |ops|
  {
    ops == [] || (Legal(s, ops[0]) && LegalRun(Step(s, ops[0]), ops[1..]))
  }

  ghost function Run(s: State, ops: seq<Op>): State
    decreases |ops|
  {
    if ops == [] then s else Run(Step(s, ops[0]), ops[1..])
  }

  /** Over every run: blocks stay disjoint, their pages are those from the system, every list holds
      its own size, and every live block is on record under its address. */
  lemma {:induction false} RunKeeps(s: State, ops: seq<Op>)
    requires Inv(s) && LegalRun(s, ops)
    ensures Inv(Run(s, ops))
    decreases |ops|
  {
    if ops != [] {
      match ops[0] {
        case AllocOp(n, sys) => AllocKeeps(s, n, sys);
        case FreeOp(addr, n) => FreeKeeps(s, addr, n);
      }
      RunKeeps(Step(s, ops[0]), ops[1..]);
    }
  }

  // ----- runs without the fault

  ghost predicate NoEmpty(s: State)
  {
    forall k :: k in s.free ==> s.free[k] != []
  }

  /** Some request would dereference the null head. */
  ghost predicate Risky(s: State)
  {
    exists n: nat, sys :: Alloc(s, n, sys).1.Fault?
  }

  lemma RiskyIff(s: State)
    ensures Risky(s) <==> !NoEmpty(s)
  {
    if k :| k in s.free && s.free[k] == [] {
      assert IsLowerBound(s.free, k, k);
      assert Alloc(s, k, None).1.Fault?;
    }
  }

  /** The block behind the released one is on record, and it is the only free one of its size, or it is
      live and its size has no list and is not that of the released block. */
  ghost predicate LeavesEmpty(s: State, addr: nat, n: nat)
  {
    var next := addr + n * PAGE_SIZE;
    addr in s.recorded && next in s.recorded &&
    var nb := s.recorded[next];
    if InFree(s.free, nb) then s.free[nb.pages] == [nb] else nb.pages !in s.free && nb.pages != n
  }

  lemma WithoutEmpty(l: seq<Block>, b: Block)
    requires b in l
    ensures Without(l, b) == [] <==> l == [b]
  {
    if l[0] == b {
      assert l == [l[0]] + l[1..];
    }
  }

  /** A release brings an empty list about exactly in those two cases. */
  lemma LeavesEmptyIff(s: State, addr: nat, n: nat)
    requires Inv(s) && Releasable(s, addr, n) && NoEmpty(s)
    ensures NoEmpty(Free(s, addr, n)) <==> !LeavesEmpty(s, addr, n)
  {
    hide Tiling, Without, Free;
    var next := addr + n * PAGE_SIZE;
    if addr in s.recorded {
      var b := s.recorded[addr];
      if Mergeable(s, addr, n) {
        FreeMerged(s, addr, n);
        var nb := s.recorded[next];
        WithoutEmpty(s.free[nb.pages], nb);
        assert b.pages >= 1;
        assert nb.pages in Free(s, addr, n).free;
      } else {
        FreeAlone(s, addr, n);
        if next in s.recorded {
          assert s.recorded[next].pages in Free(s, addr, n).free;
        }
      }
    } else {
      assert Free(s, addr, n) == s by {
        FreeKeeps(s, addr, n);
      }
    }
  }

  lemma AllocNoEmpty(s: State, n: nat, sys: Option<nat>)
    requires NoEmpty(s)
    ensures !Alloc(s, n, sys).1.Fault? && NoEmpty(Alloc(s, n, sys).0)
  {
  }

  /** No request faults, in any state that the run goes through, whatever it asks for. */
  ghost predicate NeverRisky(s: State, ops: seq<Op>)
    decreases |ops|
  {
    !Risky(s) && (ops == [] || NeverRisky(Step(s, ops[0]), ops[1..]))
  }

  /** No release in the run leaves an empty list. */
  ghost predicate NeverEmpties(s: State, ops: seq<Op>)
    decreases |ops|
  {
    ops == [] || ((ops[0].FreeOp? ==> !LeavesEmpty(s, ops[0].addr, ops[0].n)) && NeverEmpties(Step(s, ops[0]), ops[1..]))
  }

  /** Over every run, no request can fault at any point exactly when no release leaves an empty list. */
  lemma {:induction false} NeverRiskyIff(s: State, ops: seq<Op>)
    requires Inv(s) && NoEmpty(s) && LegalRun(s, ops)
    ensures NeverRisky(s, ops) <==> NeverEmpties(s, ops)
    decreases |ops|
  {
    hide Inv, Alloc, Free, LeavesEmpty, Releasable, FreshFromSystem, Risky, NoEmpty;
    RiskyIff(s);
    if ops != [] {
      match ops[0] {
        case AllocOp(n, sys) =>
          AllocKeeps(s, n, sys);
          AllocNoEmpty(s, n, sys);
          NeverRiskyIff(Step(s, ops[0]), ops[1..]);
        case FreeOp(addr, n) =>
          FreeKeeps(s, addr, n);
          LeavesEmptyIff(s, addr, n);
          if !LeavesEmpty(s, addr, n) {
            NeverRiskyIff(Step(s, ops[0]), ops[1..]);
          } else {
            RiskyIff(Step(s, ops[0]));
          }
      }
    }
  }

  /** The fault is reachable by callers that break no rule: releasing a one-page span beside a live
      two-page span leaves an empty list under size two, and the next request for two pages
      dereferences it. */
  lemma FaultReached()
    ensures var ops := [AllocOp(1, Some(PAGE_SIZE)), AllocOp(2, Some(2 * PAGE_SIZE)), FreeOp(PAGE_SIZE, 1)];
            && LegalRun(EMPTY, ops) && Inv(Run(EMPTY, ops))
            && Alloc(Run(EMPTY, ops), 2, None).1 == Fault
  {
    var one, two := Block(PAGE_SIZE, 1), Block(2 * PAGE_SIZE, 2);
    var ops := [AllocOp(1, Some(PAGE_SIZE)), AllocOp(2, Some(2 * PAGE_SIZE)), FreeOp(PAGE_SIZE, 1)];
    var s1 := Step(EMPTY, ops[0]);
    assert s1.live == {one} && s1.free == map[] && s1.recorded == map[PAGE_SIZE := one];
    var s2 := Step(s1, ops[1]);
    assert s2.live == {one, two} && s2.free == map[] && s2.recorded == map[PAGE_SIZE := one, 2 * PAGE_SIZE := two];
    var s3 := Step(s2, ops[2]);
    assert s2.recorded[PAGE_SIZE] == one && s2.recorded[2 * PAGE_SIZE] == two && two !in ListOf(s2.free, 2);
    assert s3.free == PushFree(s2.free[2 := []], one);
    assert s3.free == map[2 := [], 1 := [one]] by {
      assert [one] + [] == [one];
    }
    assert ops[1..][1..] == [ops[2]] && ops[1..][0] == ops[1];
    assert Run(s2, [ops[2]]) == Run(s3, []) == s3;
    assert Run(s1, ops[1..]) == s3;
    assert LegalRun(s2, [ops[2]]);
    assert LegalRun(s1, ops[1..]);
    EmptyInv();
    RunKeeps(EMPTY, ops);
    assert 2 in s3.free && IsLowerBound(s3.free, 2, 2);
  }
}
