/** The thread cache and the central cache on the words of memory. */
module CacheTier {
  import opened CacheMemory
  import opened FreeLists

  class Memory {
    var next: Words

    constructor (next: Words)
      ensures this.next == next
    {
      this.next := next;
    }
  }

  class CentralCache {
    const mem: Memory
    const heads: array<nat>

    ghost predicate Valid()
    {
      heads.Length == FREE_LIST_SIZE
    }

    constructor (mem: Memory)
      ensures Valid() && this.mem == mem && fresh(heads)
      ensures forall i :: 0 <= i < FREE_LIST_SIZE ==> heads[i] == 0
    {
      this.mem := mem;
      heads := new nat[FREE_LIST_SIZE](_ => 0);
    }

    /** The walk to the last block that goes back. */
    method WalkBlocks(start: nat, size: nat, index: nat) returns (end: nat)
      requires start != 0
      ensures end == LastOf(mem.next, start, size / BlockSize(index))
    {
      var blockCount := size / BlockSize(index);
      var count := 1;
      end := start;
      while Word(mem.next, end) != 0 && count < blockCount
        invariant count == 1 || count <= blockCount
        invariant LastOf(mem.next, start, blockCount) == LastOf(mem.next, end, if count <= blockCount then blockCount - count + 1 else 0)
        decreases blockCount - count
      {
        end := Word(mem.next, end);
        count := count + 1;
      }
    }

    /** returnRange: the list from start is walked for as many blocks as size stands for, and what
        was walked over goes in front of the list of the class. */
    method ReturnRange(start: nat, size: nat, index: nat)
      requires Valid()
      modifies mem, heads
      ensures start == 0 || index >= FREE_LIST_SIZE ==> mem.next == old(mem.next) && heads[..] == old(heads[..])
      ensures start != 0 && index < FREE_LIST_SIZE ==>
                && mem.next == old(mem.next)[LastOf(old(mem.next), start, size / BlockSize(index)) := old(heads[index])]
                && heads[..] == old(heads[..])[index := start]
    {
      if start == 0 || index >= FREE_LIST_SIZE {
        return;
      }
      var end := WalkBlocks(start, size, index);
      mem.next := mem.next[end := heads[index]];
      heads[index] := start;
    }

    /** The loop that links the blocks of a span to each other. */
    method Carve(span: nat, index: nat)
      requires span != 0
      modifies mem
      ensures mem.next == Threaded(old(mem.next), Carved(span, index), BlockCount(index))
    {
      hide BlockAt, BlockSize, BlockCount;
      CutFits(index);
      var n, i := BlockCount(index), 1;
      ghost var l := Carved(span, index);
      while i < n
        invariant 1 <= i <= n && mem.next == Threaded(old(mem.next), l, i - 1)
      {
        var current, next := BlockAt(span, index, i - 1), BlockAt(span, index, i);
        assert current == l[i - 1] && next == Link(l, i - 1, 0);
        mem.next := mem.next[current := next];
        i := i + 1;
      }
      var last := BlockAt(span, index, n - 1);
      assert last == l[n - 1];
      mem.next := mem.next[last := 0];
    }

    /** fetchRange; span is what the page cache answers, if it is asked. */
    method FetchRange(index: nat, span: nat) returns (result: nat)
      requires Valid() && index < FREE_LIST_SIZE
      modifies mem, heads
      ensures (mem.next, heads[index], result) == FetchedMem(old(mem.next), old(heads[index]), index, span)
      ensures heads[..] == old(heads[..])[index := heads[index]]
    {
      hide BlockCount, BlockAt, BlockSize, Threaded;
      result := heads[index];
      if result != 0 {
        return;
      }
      result := span;
      if span == 0 {
        return;
      }
      if BlockCount(index) > 1 {
        Carve(span, index);
        FirstLinked(mem.next, old(mem.next), span, index);
        var next := Word(mem.next, span);
        mem.next := mem.next[span := 0];
        heads[index] := next;
      } else {
        heads[index] := Word(mem.next, span);
      }
    }
  }

  /** The first block of a cut span leads to the second. */
  lemma FirstLinked(t: Words, m: Words, span: nat, index: nat)
    requires span != 0 && BlockCount(index) > 1 && t == Threaded(m, Carved(span, index), BlockCount(index))
    ensures Word(t, span) == Link(Carved(span, index), 0, 0)
  {
    hide BlockCount, BlockAt;
    FirstBlock(span, index);
    CarvedDistinct(span, index);
    ThreadedHooks(m, Carved(span, index), BlockCount(index));
    assert Hooked(t, Carved(span, index), 0, 0);
  }

  class ThreadCache {
    const mem: Memory
    const central: CentralCache
    const freelist: array<nat>
    const sizes: array<nat>

    ghost predicate Valid()
    {
      && central.Valid() && mem == central.mem && freelist != sizes && freelist != central.heads && sizes != central.heads
      && freelist.Length == sizes.Length == FREE_LIST_SIZE
    }

    constructor (central: CentralCache)
      requires central.Valid()
      ensures Valid() && this.central == central && fresh(freelist) && fresh(sizes)
      ensures forall i :: 0 <= i < FREE_LIST_SIZE ==> freelist[i] == 0 && sizes[i] == 0
    {
      this.central, mem := central, central.mem;
      freelist := new nat[FREE_LIST_SIZE](_ => 0);
      sizes := new nat[FREE_LIST_SIZE](_ => 0);
    }

    /** What there is of a size class. */
    ghost function At(i: nat): Side
      requires Valid() && i < FREE_LIST_SIZE
      reads mem, freelist, sizes, central.heads
    {
      Side(mem.next, freelist[i], sizes[i], central.heads[i])
    }

    /** The heads and the counter of every class but one are as in three sequences. */
    ghost predicate OthersAre(index: int, heads: seq<nat>, counters: seq<nat>, centrals: seq<nat>)
      requires Valid() && |heads| == |counters| == |centrals| == FREE_LIST_SIZE
      reads freelist, sizes, central.heads
    {
      forall i :: 0 <= i < FREE_LIST_SIZE && i != index ==>
        freelist[i] == heads[i] && sizes[i] == counters[i] && central.heads[i] == centrals[i]
    }

    /** The walk to the last block that stays. */
    method WalkKept(start: nat, keep: nat, batch: nat) returns (split: nat, returnNum: int)
      requires start != 0 && keep >= 1
      ensures split == Hop(mem.next, start, keep - 1)
      ensures split != 0 ==> returnNum == batch - keep
    {
      returnNum := batch - keep;
      split := start;
      var i := 0;
      while i < keep - 1
        invariant 0 <= i <= keep - 1 && split != 0 && returnNum == batch - keep
        invariant Hop(mem.next, start, keep - 1) == Hop(mem.next, split, keep - 1 - i)
      {
        split := Word(mem.next, split);
        if split == 0 {
          returnNum := batch - (i + 1);
          return;
        }
        i := i + 1;
      }
    }

    /** returnToCentralCache, on the whole list of the class. */
    method ReturnToCentral(size: nat)
      requires Valid() && size <= MAX_BYTES && GetIndex(size) < FREE_LIST_SIZE && freelist[GetIndex(size)] != 0
      modifies mem, sizes, central.heads
      ensures At(GetIndex(size)) == ReturnedMem(old(At(GetIndex(size))), size)
      ensures OthersAre(GetIndex(size), old(freelist[..]), old(sizes[..]), old(central.heads[..]))
    {
      hide GetIndex, BlockSize, Announced, Hop, LastOf;
      var index := GetIndex(size);
      var start, batch := freelist[index], sizes[index];
      if batch <= 1 {
        return;
      }
      var keep := if batch / 4 > 1 then batch / 4 else 1;
      var split, returnNum := WalkKept(start, keep, batch);
      if split != 0 {
        var nextNode := Word(mem.next, split);
        mem.next := mem.next[split := 0];
        sizes[index] := keep;
        if returnNum > 0 && nextNode != 0 {
          central.ReturnRange(nextNode, Announced(returnNum, size), index);
        }
      }
    }

    /** deallocate; a large block goes back to the system instead. */
    method Deallocate(ptr: nat, size: nat)
      requires Valid() && ptr != 0
      modifies mem, freelist, sizes, central.heads
      ensures size <= MAX_BYTES ==>
                GetIndex(size) < FREE_LIST_SIZE && At(GetIndex(size)) == FreedMem(old(At(GetIndex(size))), ptr, size)
      ensures size > MAX_BYTES ==> mem.next == old(mem.next)
      ensures OthersAre(if size > MAX_BYTES then -1 else GetIndex(size), old(freelist[..]), old(sizes[..]), old(central.heads[..]))
    {
      hide GetIndex, ReturnedMem;
      if size > MAX_BYTES {
        return;
      }
      SizeClassIff(size);
      var index := GetIndex(size);
      mem.next := mem.next[ptr := freelist[index]];
      freelist[index] := ptr;
      sizes[index] := (sizes[index] + 1) % TWO64;
      if sizes[index] > 256 {
        ReturnToCentral(size);
      }
    }

    /** The walk that counts a fetched list. */
    method CountBlocks(start: nat) returns (n: nat)
      requires Ends(mem.next, start)
      ensures n == |ListFrom(mem.next, start)|
    {
      n := 0;
      ghost var l := ListFrom(mem.next, start);
      var current := start;
      while current != 0
        invariant 0 <= n <= |l| && current == Link(l, n - 1, 0)
        decreases |l| - n
      {
        assert Hooked(mem.next, l, n, 0);
        n := n + 1;
        current := Word(mem.next, current);
      }
      assert n < |l| ==> Hooked(mem.next, l, n, 0);
    }

    /** fetchFromCentralCache */
    method Fetch(index: nat, span: nat) returns (result: nat)
      requires Valid() && index < FREE_LIST_SIZE && freelist[index] == 0 && CountEnds(At(index), index, span)
      modifies mem, freelist, sizes, central.heads
      ensures var (m, c, start) := FetchedMem(old(mem.next), old(central.heads[index]), index, span);
              && result == start && mem.next == m && central.heads[index] == c
              && freelist[index] == (if start == 0 then 0 else Word(m, start))
              && sizes[index] == (if start == 0 then old(sizes[index]) else (old(sizes[index]) + |ListFrom(m, start)|) % TWO64)
      ensures OthersAre(index, old(freelist[..]), old(sizes[..]), old(central.heads[..]))
    {
      hide FetchedMem;
      result := central.FetchRange(index, span);
      if result == 0 {
        return;
      }
      freelist[index] := Word(mem.next, result);
      var batchNum := CountBlocks(result);
      sizes[index] := (sizes[index] + batchNum) % TWO64;
    }

    /** allocate; a large block comes from the system. The only demand is that the walk over what has
        been fetched comes to an end. */
    method Allocate(size: nat, span: nat, large: nat) returns (ptr: nat)
      requires Valid() && (size <= MAX_BYTES ==> CountEnds(At(Served(size)), Served(size), span))
      modifies mem, freelist, sizes, central.heads
      ensures size > MAX_BYTES ==> ptr == large && mem.next == old(mem.next)
      ensures size <= MAX_BYTES ==> (At(Served(size)), ptr) == TakenMem(old(At(Served(size))), Served(size), span)
      ensures OthersAre(if size > MAX_BYTES then -1 else Served(size), old(freelist[..]), old(sizes[..]), old(central.heads[..]))
    {
      hide FetchedMem, GetIndex;
      var bytes := if size == 0 then ALIGNMENT else size;
      if bytes > MAX_BYTES {
        return large;
      }
      var index := GetIndex(bytes);
      sizes[index] := (sizes[index] - 1) % TWO64;
      ptr := freelist[index];
      if ptr != 0 {
        freelist[index] := Word(mem.next, ptr);
        return;
      }
      ptr := Fetch(index, span);
    }
  }

  /** The size class that a request is served from. */
  function Served(size: nat): (index: nat)
    ensures size <= MAX_BYTES ==> index < FREE_LIST_SIZE
  {
    GetIndex(if size == 0 then ALIGNMENT else size)
  }
}
