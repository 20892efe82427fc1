/** The sorted set of kvs_skiptable.c: nodes with up to seven forward links, in (score, key) order. */
module SkipList {
  import opened Text
  import opened Assoc
  import opened SkipTowers

  const SKIP_MAX_LEVEL := 6

  class SkipNode {
    const key: Text
    const score: real
    const forward: array<SkipNode?>
    var value: Text

    constructor (level: nat, key: Text, value: Text, score: real)
      ensures this.key == key && this.score == score && this.value == value
      ensures fresh(forward) && forward.Length == level + 1
      ensures forall l :: 0 <= l <= level ==> forward[l] == null
    {
      this.key, this.score, this.value := key, score, value;
      this.forward := new SkipNode?[level + 1](_ => null);
    }
  }

  /** What identifies and orders an element. */
  type Rank = (real, Text)

  predicate RankLess(a: Rank, b: Rank)
  {
    a.0 < b.0 || (a.0 == b.0 && Less(a.1, b.1))
  }

  lemma RankTrichotomy(a: Rank, b: Rank)
    ensures RankLess(a, b) ==> a != b && !RankLess(b, a)
    ensures a == b || RankLess(a, b) || RankLess(b, a)
  {
    Trichotomy(a.1, b.1);
  }

  lemma RankTransitive(a: Rank, b: Rank, c: Rank)
    requires RankLess(a, b) && RankLess(b, c)
    ensures RankLess(a, c)
  {
    if a.0 == b.0 == c.0 {
      LessTransitive(a.1, b.1, c.1);
    }
  }

  function RankOf(n: SkipNode): Rank
  {
    (n.score, n.key)
  }

  /** The number of levels at each position; position 0 is the header. */
  function Heights(all: seq<SkipNode>): (hs: seq<nat>)
    ensures |hs| == |all|
    ensures forall p :: 0 <= p < |all| ==> hs[p] == all[p].forward.Length
  {
    seq(|all|, p requires 0 <= p < |all| => all[p].forward.Length)
  }

  function Ptr(all: seq<SkipNode>, q: nat): SkipNode?
  {
    if q < |all| then all[q] else null
  }

  /** Header and nodes: distinct, with link arrays of their own. */
  ghost predicate Layout(all: seq<SkipNode>)
  {
    && |all| > 0 && all[0].forward.Length == SKIP_MAX_LEVEL + 1
    && (forall p :: 0 <= p < |all| ==> 0 < all[p].forward.Length <= SKIP_MAX_LEVEL + 1)
    && (forall p, q :: 0 <= p < q < |all| ==> all[p] != all[q] && all[p].forward != all[q].forward)
  }

  ghost predicate RankSorted(all: seq<SkipNode>)
  {
    forall p, q :: 0 < p < q < |all| ==> RankLess(RankOf(all[p]), RankOf(all[q]))
  }

  /** Every link of every node leads to the next node that reaches the link's level. */
  ghost predicate Linked(all: seq<SkipNode>)
    reads set p | 0 <= p < |all| :: all[p].forward
  {
    forall p, l :: 0 <= p < |all| && 0 <= l < all[p].forward.Length ==>
      all[p].forward[l] == Ptr(all, Next(Heights(all), p, l))
  }

  /** `level` is the highest level in use, or 0. */
  ghost predicate LevelRight(all: seq<SkipNode>, level: nat)
  {
    && level <= SKIP_MAX_LEVEL
    && (forall p :: 0 < p < |all| ==> all[p].forward.Length <= level + 1)
    && (level > 0 ==> exists p :: 0 < p < |all| && all[p].forward.Length == level + 1)
  }

  /** Which positions a search by rank (by key) passes; the header always is. */
  function BelowRank(all: seq<SkipNode>, r: Rank): (b: seq<bool>)
    ensures |b| == |all|
    ensures forall p :: 0 <= p < |all| ==> b[p] == (p == 0 || RankLess(RankOf(all[p]), r))
  {
    seq(|all|, p requires 0 <= p < |all| => p == 0 || RankLess(RankOf(all[p]), r))
  }

  function Keys(all: seq<SkipNode>): (ks: seq<Text>)
    ensures |ks| == |all|
    ensures forall p :: 0 <= p < |all| ==> ks[p] == all[p].key
  {
    seq(|all|, p requires 0 <= p < |all| => all[p].key)
  }

  function BelowKeys(ks: seq<Text>, key: Text): (b: seq<bool>)
    ensures |b| == |ks|
    ensures forall p :: 0 <= p < |ks| ==> b[p] == (p == 0 || Less(ks[p], key))
  {
    seq(|ks|, p requires 0 <= p < |ks| => p == 0 || Less(ks[p], key))
  }

  function AreKey(ks: seq<Text>, key: Text): (e: seq<bool>)
    ensures |e| == |ks|
    ensures forall p :: 0 <= p < |ks| ==> e[p] == (p > 0 && ks[p] == key)
  {
    seq(|ks|, p requires 0 <= p < |ks| => p > 0 && ks[p] == key)
  }

  function BelowKey(all: seq<SkipNode>, key: Text): (b: seq<bool>)
    ensures |b| == |all|
    ensures forall p :: 0 <= p < |all| ==> b[p] == (p == 0 || Less(all[p].key, key))
  {
    BelowKeys(Keys(all), key)
  }

  function IsKey(all: seq<SkipNode>, key: Text): (e: seq<bool>)
    ensures |e| == |all|
    ensures forall p :: 0 <= p < |all| ==> e[p] == (p > 0 && all[p].key == key)
  {
    AreKey(Keys(all), key)
  }

  function EntryOf(n: SkipNode): (Rank, Text)
    reads n
  {
    (RankOf(n), n.value)
  }

  ghost function EntriesOf(all: seq<SkipNode>): (es: seq<(Rank, Text)>)
    reads all
    requires |all| > 0
    ensures |es| == |all| - 1
    ensures forall p :: 0 <= p < |es| ==> es[p] == EntryOf(all[p + 1])
  {
    seq(|all| - 1, p requires 0 <= p < |all| - 1 reads all => EntryOf(all[p + 1]))
  }

  lemma LayoutAfterInsert(all0: seq<SkipNode>, i: nat, node: SkipNode, level: nat)
    requires 0 < i <= |all0| && Layout(all0) && LevelRight(all0, level) && node.forward.Length <= SKIP_MAX_LEVEL + 1
    requires forall p :: 0 <= p < |all0| ==> all0[p] != node && all0[p].forward != node.forward
    requires 0 < node.forward.Length
    ensures Layout(Inserted(all0, i, node))
    ensures LevelRight(Inserted(all0, i, node), if node.forward.Length > level + 1 then node.forward.Length - 1 else level)
  {
    var all := Inserted(all0, i, node);
    forall p | 0 <= p < |all| ensures all[p] == if p < i then all0[p] else if p == i then node else all0[p - 1] {
    }
    if level > 0 {
      var p :| 0 < p < |all0| && all0[p].forward.Length == level + 1;
      assert all[if p < i then p else p + 1] == all0[p];
    }
    assert all[i] == node;
  }

  lemma SortedAfterInsert(all0: seq<SkipNode>, i: nat, node: SkipNode)
    requires 0 < i <= |all0| && RankSorted(all0)
    requires forall p :: 0 < p < i ==> RankLess(RankOf(all0[p]), RankOf(node))
    requires forall p :: i <= p < |all0| ==> RankLess(RankOf(node), RankOf(all0[p]))
    ensures RankSorted(Inserted(all0, i, node))
  {
    var all := Inserted(all0, i, node);
    forall p, q | 0 < p < q < |all| ensures RankLess(RankOf(all[p]), RankOf(all[q])) {
      if p != i && q != i {
        var p', q' := if p < i then p else p - 1, if q < i then q else q - 1;
        assert all[p] == all0[p'] && all[q] == all0[q'];
      }
    }
  }

  lemma EntriesAfterInsert(all0: seq<SkipNode>, i: nat, node: SkipNode)
    requires 0 < i <= |all0|
    ensures EntriesOf(Inserted(all0, i, node)) == Inserted(EntriesOf(all0), i - 1, (RankOf(node), node.value))
  {
    var all := Inserted(all0, i, node);
    var es, fs := EntriesOf(all), Inserted(EntriesOf(all0), i - 1, EntryOf(node));
    forall p | 0 <= p < |all| - 1 ensures es[p] == fs[p] {
      assert all[p + 1] == if p + 1 < i then all0[p + 1] else if p + 1 == i then node else all0[p];
      assert fs[p] == if p + 1 < i then EntriesOf(all0)[p] else if p + 1 == i then EntryOf(node) else EntriesOf(all0)[p - 1];
    }
  }

  /** The link that a node had, or got, is right for the list with the new node in it. */
  lemma OldLink(all0: seq<SkipNode>, i: nat, node: SkipNode, us: seq<nat>, p: nat, l: nat, v: SkipNode?)
    requires 0 < i <= |all0| && p < |all0| && l < all0[p].forward.Length && |us| >= node.forward.Length
    requires l < node.forward.Length ==> Pred(Heights(all0), i, l, us[l])
    requires v == if l < node.forward.Length && p == us[l] then node else Ptr(all0, Next(Heights(all0), p, l))
    ensures v == Ptr(Inserted(all0, i, node), Next(Heights(Inserted(all0, i, node)), if p < i then p else p + 1, l))
  {
    hide Next, Pred;
    var hs, h, all := Heights(all0), node.forward.Length, Inserted(all0, i, node);
    assert Heights(all) == Inserted(hs, i, h);
    NextInserted(hs, i, h, p, l);
    if l < h {
      PredPasses(hs, i, l, us[l], p);
    }
  }

  lemma NewLink(all0: seq<SkipNode>, i: nat, node: SkipNode, u: nat, l: nat, v: SkipNode?)
    requires 0 < i <= |all0| && l < node.forward.Length && Pred(Heights(all0), i, l, u)
    requires v == Ptr(all0, Next(Heights(all0), u, l))
    ensures v == Ptr(Inserted(all0, i, node), Next(Heights(Inserted(all0, i, node)), i, l))
  {
    assert Heights(Inserted(all0, i, node)) == Inserted(Heights(all0), i, node.forward.Length);
    NextOfInserted(Heights(all0), i, node.forward.Length, l, u);
  }

  /** A new node at position i takes over, on its levels, the links that used to pass over i. */
  lemma LinkedAfterInsert(all0: seq<SkipNode>, i: nat, node: SkipNode, us: seq<nat>)
    requires 0 < i <= |all0| && |us| >= node.forward.Length
    requires forall l :: 0 <= l < node.forward.Length ==> Pred(Heights(all0), i, l, us[l])
    requires forall p, l :: 0 <= p < |all0| && 0 <= l < all0[p].forward.Length ==>
               all0[p].forward[l] ==
               if l < node.forward.Length && p == us[l] then node else Ptr(all0, Next(Heights(all0), p, l))
    requires forall l :: 0 <= l < node.forward.Length ==>
               us[l] < |all0| && node.forward[l] == Ptr(all0, Next(Heights(all0), us[l], l))
    ensures Linked(Inserted(all0, i, node))
  {
    hide Next, Ptr, Pred;
    var all := Inserted(all0, i, node);
    forall p, l | 0 <= p < |all| && 0 <= l < all[p].forward.Length
      ensures all[p].forward[l] == Ptr(all, Next(Heights(all), p, l))
    {
      if p == i {
        NewLink(all0, i, node, us[l], l, node.forward[l]);
      } else {
        var q := if p < i then p else p - 1;
        assert all[p] == all0[q];
        OldLink(all0, i, node, us, q, l, all0[q].forward[l]);
      }
    }
  }

  /** The node whose old link p has once i is unlinked: p's own, or i's if p was before i on level l. */
  function Heir(all0: seq<SkipNode>, i: nat, us: seq<nat>, p: nat, l: nat): (r: nat)
    requires i < |all0| && p < |all0|
    ensures r < |all0|
  {
    if l < all0[i].forward.Length && l < |us| && p == us[l] then i else p
  }

  /** That link is right for the shorter list. */
  lemma LinkWithout(all0: seq<SkipNode>, i: nat, us: seq<nat>, p: nat, l: nat)
    requires 0 < i < |all0| && p < |all0| && p != i && l < all0[p].forward.Length && |us| >= all0[i].forward.Length
    requires l < all0[i].forward.Length ==> Pred(Heights(all0), i, l, us[l])
    ensures Ptr(all0, Next(Heights(all0), Heir(all0, i, us, p, l), l))
         == Ptr(Removed(all0, i), Next(Heights(Removed(all0, i)), if p < i then p else p - 1, l))
  {
    hide Pred, Next, Ptr;
    var hs, all := Heights(all0), Removed(all0, i);
    assert Heights(all) == Removed(hs, i);
    NextRemoved(hs, i, p, l);
    if l < all0[i].forward.Length {
      PredLeads(hs, i, l, us[l], p);
    } else {
      NextSkips(hs, i, p, l);
    }
    PtrRemoved(all0, i, Next(hs, Heir(all0, i, us, p, l), l));
  }

  lemma PtrRemoved(all0: seq<SkipNode>, i: nat, q: nat)
    requires i < |all0| && q != i
    ensures Ptr(all0, q) == Ptr(Removed(all0, i), if q < i then q else q - 1)
  {
  }

  /** Unlinking the node at position i on all its levels leaves a well-linked list. */
  lemma LinkedWithout(all0: seq<SkipNode>, i: nat, us: seq<nat>)
    requires 0 < i < |all0| && |us| >= all0[i].forward.Length
    requires forall l :: 0 <= l < all0[i].forward.Length ==> Pred(Heights(all0), i, l, us[l])
    requires forall p, l :: 0 <= p < |all0| && p != i && 0 <= l < all0[p].forward.Length ==>
               all0[p].forward[l] == Ptr(all0, Next(Heights(all0), Heir(all0, i, us, p, l), l))
    ensures Linked(Removed(all0, i))
  {
    hide Next, Ptr, Pred, Heights, Removed, Heir;
    var all := Removed(all0, i);
    forall p, l | 0 <= p < |all| && 0 <= l < all[p].forward.Length
      ensures all[p].forward[l] == Ptr(all, Next(Heights(all), p, l))
    {
      var q := if p < i then p else p + 1;
      assert all[p] == all0[q];
      LinkWithout(all0, i, us, q, l);
    }
  }

  lemma LayoutWithout(all0: seq<SkipNode>, i: nat)
    requires 0 < i < |all0| && Layout(all0) && RankSorted(all0)
    ensures Layout(Removed(all0, i)) && RankSorted(Removed(all0, i))
  {
    var all := Removed(all0, i);
    assert forall p :: 0 <= p < |all| ==> all[p] == all0[if p < i then p else p + 1];
  }

  lemma EntriesWithout(all0: seq<SkipNode>, i: nat)
    requires 0 < i < |all0|
    ensures EntriesOf(Removed(all0, i)) == Removed(EntriesOf(all0), i - 1)
  {
    var all, es := Removed(all0, i), EntriesOf(Removed(all0, i));
    forall p | 0 <= p < |es| ensures es[p] == Removed(EntriesOf(all0), i - 1)[p] {
      assert es[p] == EntryOf(all[p + 1]);
    }
  }

  class SkipList {
    var level: nat
    var header: SkipNode
    var length: nat
    /** The header and the nodes, in level-0 order. */
    ghost var all: seq<SkipNode>
    ghost var repr: set<object>

    ghost predicate Within()
      reads this`all, this`repr
    {
      forall p :: 0 <= p < |all| ==> all[p] in repr && all[p].forward in repr
    }

    ghost predicate Valid()
      reads this, repr
    {
      && Layout(all) && Within() && Linked(all) && RankSorted(all) && LevelRight(all, level)
      && header == all[0] && length == |all| - 1 && this !in repr
    }

    ghost function Entries(): (es: seq<(Rank, Text)>)
      reads this`all, all
      requires |all| > 0
      ensures |es| == |all| - 1
      ensures forall p :: 0 <= p < |es| ==> es[p] == EntryOf(all[p + 1])
    {
      EntriesOf(all)
    }

    constructor ()
      ensures Valid() && fresh(repr) && Entries() == []
    {
      var h := new SkipNode(SKIP_MAX_LEVEL, [], [], 0.0);
      header, level, length := h, 0, 0;
      all, repr := [h], {h, h.forward};
    }

    lemma LevelReady()
      requires Valid()
      ensures |all| > 0 && header == all[0] && level <= SKIP_MAX_LEVEL && header.forward.Length > level
    {
    }

    /** The inner loop of zadd on level i. */
    method WalkByRank(start: SkipNode, i: nat, score: real, key: Text, ghost p: nat) returns (current: SkipNode, ghost pos: nat)
      requires Valid() && p < |all| && start == all[p] && i < start.forward.Length
      ensures pos == Walk(BelowRank(all, (score, key)), Heights(all), p, i) && current == all[pos]
      ensures i < current.forward.Length
    {
      ghost var hs, b := Heights(all), BelowRank(all, (score, key));
      current, pos := start, p;
      while current.forward[i] != null &&
            (current.forward[i].score < score ||
             (current.forward[i].score == score && Strcmp(current.forward[i].key, key) < 0))
        invariant pos < |all| && current == all[pos] && i < current.forward.Length
        invariant Walk(b, hs, p, i) == Walk(b, hs, pos, i)
        decreases |all| - pos
      {
        pos := Next(hs, pos, i);
        current := current.forward[i];
      }
    }

    /** The search of zadd: where each level in use is left for the next lower one. */
    method DescendByRank(score: real, key: Text) returns (current: SkipNode, update: seq<SkipNode>, ghost us: seq<nat>, ghost pos: nat)
      requires Valid()
      ensures pos == Descend(BelowRank(all, (score, key)), Heights(all), 0, level) && current == all[pos]
      ensures |update| == SKIP_MAX_LEVEL + 1 && |us| == level + 1
      ensures forall l :: 0 <= l <= level ==> Left(BelowRank(all, (score, key)), Heights(all), pos, l, us[l]) && update[l] == all[us[l]]
    {
      hide Valid, Left, Walk, Descend, Next, RankLess;
      LevelReady();
      ghost var hs, b := Heights(all), BelowRank(all, (score, key));
      var h := header;
      update := seq(SKIP_MAX_LEVEL + 1, _ => h);
      us := seq(level + 1, _ => 0);
      current, pos := header, 0;
      var i: int := level;
      while i >= 0
        invariant -1 <= i <= level && |update| == SKIP_MAX_LEVEL + 1 && |us| == level + 1
        invariant pos < |all| && current == all[pos] && current.forward.Length > i
        invariant i >= 0 ==> Descend(b, hs, 0, level) == Descend(b, hs, pos, i)
        invariant i < 0 ==> Descend(b, hs, 0, level) == pos
        invariant forall l :: i < l <= level ==> us[l] < |all| && Left(b, hs, pos, l, us[l]) && update[l] == all[us[l]]
      {
        DescendRound(b, hs, pos, i, us);
        current, pos := WalkByRank(current, i, score, key, pos);
        update := update[i := current];
        us := us[i := pos];
        i := i - 1;
      }
    }

    /** The inner loop of zrem on level i: it compares keys only. */
    method WalkByKey(start: SkipNode, i: nat, key: Text, ghost p: nat) returns (current: SkipNode, ghost pos: nat)
      requires Valid() && p < |all| && start == all[p] && i < start.forward.Length
      ensures pos == Walk(BelowKey(all, key), Heights(all), p, i) && current == all[pos]
      ensures i < current.forward.Length
    {
      ghost var hs, b := Heights(all), BelowKey(all, key);
      current, pos := start, p;
      while current.forward[i] != null && Strcmp(current.forward[i].key, key) < 0
        invariant pos < |all| && current == all[pos] && i < current.forward.Length
        invariant Walk(b, hs, p, i) == Walk(b, hs, pos, i)
        decreases |all| - pos
      {
        pos := Next(hs, pos, i);
        current := current.forward[i];
      }
    }

    /** The search of zrem. */
    method DescendByKey(key: Text) returns (current: SkipNode, update: seq<SkipNode>, ghost us: seq<nat>, ghost pos: nat)
      requires Valid()
      ensures pos == Descend(BelowKey(all, key), Heights(all), 0, level) && current == all[pos]
      ensures |update| == SKIP_MAX_LEVEL + 1 && |us| == level + 1
      ensures forall l :: 0 <= l <= level ==> Left(BelowKey(all, key), Heights(all), pos, l, us[l]) && update[l] == all[us[l]]
    {
      hide Valid, Left, Walk, Descend, Next, Strcmp;
      LevelReady();
      ghost var hs, b := Heights(all), BelowKey(all, key);
      var h := header;
      update := seq(SKIP_MAX_LEVEL + 1, _ => h);
      us := seq(level + 1, _ => 0);
      current, pos := header, 0;
      var i: int := level;
      while i >= 0
        invariant -1 <= i <= level && |update| == SKIP_MAX_LEVEL + 1 && |us| == level + 1
        invariant pos < |all| && current == all[pos] && current.forward.Length > i
        invariant i >= 0 ==> Descend(b, hs, 0, level) == Descend(b, hs, pos, i)
        invariant i < 0 ==> Descend(b, hs, 0, level) == pos
        invariant forall l :: i < l <= level ==> us[l] < |all| && Left(b, hs, pos, l, us[l]) && update[l] == all[us[l]]
      {
        DescendRound(b, hs, pos, i, us);
        current, pos := WalkByKey(current, i, key, pos);
        update := update[i := current];
        us := us[i := pos];
        i := i - 1;
      }
    }

    ghost function Contents(): map<Rank, Text>
      requires |all| > 0
      reads this`all, all
    {
      ToMap(Entries())
    }

    /** In rank order, the search by rank stops right before the place of the rank. */
    lemma RankSplit(r: Rank, pos: nat)
      requires Valid() && pos == Descend(BelowRank(all, r), Heights(all), 0, level)
      ensures pos < |all| && forall p :: 0 < p <= pos ==> RankLess(RankOf(all[p]), r)
      ensures forall p :: pos < p < |all| ==> !RankLess(RankOf(all[p]), r)
    {
      hide Linked, LevelRight, EntriesOf, RankLess, Next, Descend;
      var b := BelowRank(all, r);
      DescendStops(b, Heights(all), 0, level);
      forall p | 0 < p <= pos ensures RankLess(RankOf(all[p]), r) {
        if p < pos {
          RankTransitive(RankOf(all[p]), RankOf(all[pos]), r);
        }
      }
      forall p | pos < p < |all| ensures !RankLess(RankOf(all[p]), r) {
        if pos + 1 < p && RankLess(RankOf(all[p]), r) {
          RankTransitive(RankOf(all[pos + 1]), RankOf(all[p]), r);
        }
      }
    }

    lemma EntriesDistinct()
      requires Valid()
      ensures DistinctKeys(Entries())
    {
      var es := Entries();
      forall i, j | 0 <= i < j < |es| ensures es[i].0 != es[j].0 {
        assert es[i].0 == RankOf(all[i + 1]) && es[j].0 == RankOf(all[j + 1]);
        RankTrichotomy(RankOf(all[i + 1]), RankOf(all[j + 1]));
      }
    }

    /** randomLevel: some level from 0 to 6. */
    static method RandomLevel() returns (level: nat)
      ensures level <= SKIP_MAX_LEVEL
    {
      level := 0;
      var heads := *;
      while heads && level < SKIP_MAX_LEVEL
        invariant level <= SKIP_MAX_LEVEL
        decreases SKIP_MAX_LEVEL - level
      {
        level := level + 1;
        heads := *;
      }
    }

    /** The linking loop of zadd, for a node that is not yet in the list. */
    method LinkIn(node: SkipNode, update: seq<SkipNode>, lv: nat, ghost us: seq<nat>)
      requires Layout(all) && node.forward.Length == lv + 1 <= |update| == |us|
      requires forall p :: 0 <= p < |all| ==> all[p].forward != node.forward
      requires forall l :: 0 <= l <= lv ==> us[l] < |all| && update[l] == all[us[l]] && all[us[l]].forward.Length > l
      modifies node.forward, set p | 0 <= p < |all| :: all[p].forward
      ensures forall p, l :: 0 <= p < |all| && 0 <= l < all[p].forward.Length ==>
                all[p].forward[l] == if l <= lv && p == us[l] then node else old(all[p].forward[l])
      ensures forall l :: 0 <= l <= lv ==> node.forward[l] == old(all[us[l]].forward[l])
    {
      for i := 0 to lv + 1
        invariant forall p, l :: 0 <= p < |all| && 0 <= l < all[p].forward.Length ==>
          all[p].forward[l] == if l < i && p == us[l] then node else old(all[p].forward[l])
        invariant forall l :: 0 <= l < i ==> node.forward[l] == old(all[us[l]].forward[l])
      {
        node.forward[i] := update[i].forward[i];
        update[i].forward[i] := node;
      }
    }

    /** The same, told in terms of where the links lead. */
    method LinkInAll(node: SkipNode, update: seq<SkipNode>, lv: nat, ghost us: seq<nat>)
      requires Layout(all) && node.forward.Length == lv + 1 <= |update| == |us|
      requires forall p :: 0 <= p < |all| ==> all[p].forward != node.forward
      requires forall l :: 0 <= l <= lv ==> us[l] < |all| && update[l] == all[us[l]] && all[us[l]].forward.Length > l
      requires forall p, l :: 0 <= p < |all| && 0 <= l < all[p].forward.Length ==>
                 all[p].forward[l] == Ptr(all, Next(Heights(all), p, l))
      modifies node.forward, set p | 0 <= p < |all| :: all[p].forward
      ensures forall p, l :: 0 <= p < |all| && 0 <= l < all[p].forward.Length ==>
                all[p].forward[l] ==
                if l < node.forward.Length && p == us[l] then node else Ptr(all, Next(Heights(all), p, l))
      ensures forall l :: 0 <= l < node.forward.Length ==> node.forward[l] == Ptr(all, Next(Heights(all), us[l], l))
    {
      hide Layout, Ptr, Next;
      LinkIn(node, update, lv, us);
    }

    lemma AddReady(update: seq<SkipNode>, lv: nat, us: seq<nat>, pos: nat)
      requires Valid() && lv <= SKIP_MAX_LEVEL && |update| == |us| == SKIP_MAX_LEVEL + 1 && pos < |all|
      requires forall l :: 0 <= l <= lv ==> Pred(Heights(all), pos + 1, l, us[l]) && update[l] == all[us[l]]
      ensures Layout(all) && RankSorted(all) && LevelRight(all, level)
      ensures forall p :: 0 <= p < |all| ==> all[p] in repr && all[p].forward in repr
      ensures forall l :: 0 <= l <= lv ==> us[l] < |all| && update[l] == all[us[l]] && all[us[l]].forward.Length > l
      ensures forall p, l :: 0 <= p < |all| && 0 <= l < all[p].forward.Length ==>
                all[p].forward[l] == Ptr(all, Next(Heights(all), p, l))
      ensures Entries() == EntriesOf(all) && header == all[0] && length == |all| - 1 && this !in repr
    {
    }

    /** The links of the new node and to it, as the linking loop leaves them. */
    static ghost predicate LinkedIn(all0: seq<SkipNode>, node: SkipNode, us: seq<nat>)
      reads node.forward, set p | 0 <= p < |all0| :: all0[p].forward
    {
      && node.forward.Length <= |us|
      && (forall l :: 0 <= l < node.forward.Length ==> us[l] < |all0|)
      && (forall p, l :: 0 <= p < |all0| && 0 <= l < all0[p].forward.Length ==>
            all0[p].forward[l] ==
            if l < node.forward.Length && p == us[l] then node else Ptr(all0, Next(Heights(all0), p, l)))
      && forall l :: 0 <= l < node.forward.Length ==> node.forward[l] == Ptr(all0, Next(Heights(all0), us[l], l))
    }

    /** A new node, linked in on the levels 0..lv. */
    method MakeNode(key: Text, value: Text, score: real, update: seq<SkipNode>, lv: nat, ghost us: seq<nat>, ghost pos: nat)
        returns (newNode: SkipNode)
      requires Valid() && lv <= SKIP_MAX_LEVEL && |update| == |us| == SKIP_MAX_LEVEL + 1 && pos < |all|
      requires forall l :: 0 <= l <= lv ==> Pred(Heights(all), pos + 1, l, us[l]) && update[l] == all[us[l]]
      modifies set p | 0 <= p < |all| :: all[p].forward
      ensures fresh(newNode) && fresh(newNode.forward) && newNode.forward.Length == lv + 1
      ensures newNode.key == key && newNode.score == score && newNode.value == value
      ensures LinkedIn(all, newNode, us)
    {
      hide Valid, Within, Next, Ptr, Pred, Heights, Layout, LevelRight, RankSorted, Linked, EntriesOf;
      AddReady(update, lv, us, pos);
      newNode := new SkipNode(lv, key, value, score);
      LinkInAll(newNode, update, lv, us);
    }

    /** The part of zadd that makes a node with levels 0..lv and links it in. */
    method PlaceNode(key: Text, value: Text, score: real, update: seq<SkipNode>, lv: nat, ghost us: seq<nat>, ghost pos: nat)
        returns (newNode: SkipNode)
      requires Valid() && lv <= SKIP_MAX_LEVEL && |update| == |us| == SKIP_MAX_LEVEL + 1 && pos < |all|
      requires forall l :: 0 <= l <= lv ==> Pred(Heights(all), pos + 1, l, us[l]) && update[l] == all[us[l]]
      requires forall p :: 0 < p <= pos ==> RankLess(RankOf(all[p]), (score, key))
      requires forall p :: pos < p < |all| ==> RankLess((score, key), RankOf(all[p]))
      modifies set p | 0 <= p < |all| :: all[p].forward
      ensures fresh(newNode) && fresh(newNode.forward)
      ensures var all' := Inserted(all, pos + 1, newNode);
              && Layout(all') && RankSorted(all') && Linked(all')
              && LevelRight(all', if lv > level then lv else level)
              && EntriesOf(all') == Inserted(old(Entries()), pos, ((score, key), value))
    {
      hide Valid, Within, Next, Ptr, RankLess, Pred, Heights, Layout, LevelRight, RankSorted, Linked, EntriesOf, Inserted, LinkedIn;
      AddReady(update, lv, us, pos);
      newNode := MakeNode(key, value, score, update, lv, us, pos);
      Placed(all, pos + 1, newNode, us, level);
    }

    /** The list with the new node in it. */
    static lemma Placed(all0: seq<SkipNode>, i: nat, node: SkipNode, us: seq<nat>, level: nat)
      requires 0 < i <= |all0| && |us| == SKIP_MAX_LEVEL + 1 && 0 < node.forward.Length <= |us|
      requires Layout(all0) && RankSorted(all0) && LevelRight(all0, level)
      requires forall p :: 0 <= p < |all0| ==> all0[p] != node && all0[p].forward != node.forward
      requires forall p :: 0 < p < i ==> RankLess(RankOf(all0[p]), RankOf(node))
      requires forall p :: i <= p < |all0| ==> RankLess(RankOf(node), RankOf(all0[p]))
      requires forall l :: 0 <= l < node.forward.Length ==> Pred(Heights(all0), i, l, us[l])
      requires LinkedIn(all0, node, us)
      ensures var all := Inserted(all0, i, node);
              && Layout(all) && RankSorted(all) && Linked(all)
              && LevelRight(all, if node.forward.Length > level + 1 then node.forward.Length - 1 else level)
              && EntriesOf(all) == Inserted(EntriesOf(all0), i - 1, (RankOf(node), node.value))
    {
      hide Next, Ptr, RankLess, Pred, Heights, Layout, LevelRight, RankSorted, Linked, EntriesOf, Inserted;
      LayoutAfterInsert(all0, i, node, level);
      SortedAfterInsert(all0, i, node);
      EntriesAfterInsert(all0, i, node);
      LinkedAfterInsert(all0, i, node, us);
    }

    /** The part of zadd after the search: the list gets a new node right after position pos. */
    method AddNode(key: Text, value: Text, score: real, update: seq<SkipNode>, lv: nat, ghost us: seq<nat>, ghost pos: nat)
      requires Valid() && lv <= SKIP_MAX_LEVEL && |update| == |us| == SKIP_MAX_LEVEL + 1 && pos < |all|
      requires forall l :: 0 <= l <= lv ==> Pred(Heights(all), pos + 1, l, us[l]) && update[l] == all[us[l]]
      requires forall p :: 0 < p <= pos ==> RankLess(RankOf(all[p]), (score, key))
      requires forall p :: pos < p < |all| ==> RankLess((score, key), RankOf(all[p]))
      modifies this, repr
      ensures Valid() && fresh(repr - old(repr)) && length == old(length) + 1
      ensures Entries() == Inserted(old(Entries()), pos, ((score, key), value))
    {
      hide Next, Ptr, RankLess, Pred, Heights, Layout, LevelRight, RankSorted, Linked, EntriesOf;
      var newNode := PlaceNode(key, value, score, update, lv, us, pos);
      if lv > level {
        level := lv;
      }
      length := length + 1;
      all := Inserted(all, pos + 1, newNode);
      repr := repr + {newNode, newNode.forward};
    }

    /** Levels that are not in use yet are left at the header. */
    static ghost function Padded(us: seq<nat>): (r: seq<nat>)
      requires |us| <= SKIP_MAX_LEVEL + 1
      ensures |r| == SKIP_MAX_LEVEL + 1
      ensures forall l :: 0 <= l <= SKIP_MAX_LEVEL ==> r[l] == if l < |us| then us[l] else 0
    {
      us + seq(SKIP_MAX_LEVEL + 1 - |us|, _ => 0)
    }

    /** What zadd knows when its search by rank has stopped. */
    lemma PlaceFound(rank: Rank, pos: nat, us: seq<nat>)
      requires Valid() && pos == Descend(BelowRank(all, rank), Heights(all), 0, level) && |us| == level + 1
      requires forall l :: 0 <= l <= level ==> Left(BelowRank(all, rank), Heights(all), pos, l, us[l])
      ensures pos < |all| && all[pos].forward.Length > 0 && all[pos].forward[0] == Ptr(all, pos + 1)
      ensures forall p :: 0 < p <= pos ==> RankLess(RankOf(all[p]), rank)
      ensures rank in Contents() <==> pos + 1 < |all| && RankOf(all[pos + 1]) == rank
      ensures rank !in Contents() ==>
                && !HasKey(Entries(), rank) && forall p :: pos < p < |all| ==> RankLess(rank, RankOf(all[p]))
      ensures level <= SKIP_MAX_LEVEL && header == all[0] && forall p :: 0 <= p < |all| ==> all[p] in repr
      ensures var us' := Padded(us);
              forall l :: 0 <= l <= SKIP_MAX_LEVEL ==> us'[l] < |all| && Pred(Heights(all), pos + 1, l, us'[l])
    {
      hide RankLess, Descend, Left, Next, Pred, Ptr;
      RankSplit(rank, pos);
      PlaceOrder(rank, pos);
      PlaceLevels(BelowRank(all, rank), pos, us);
    }

    lemma PlaceOrder(rank: Rank, pos: nat)
      requires |all| > 0 && pos < |all|
      requires forall p :: 0 < p <= pos ==> RankLess(RankOf(all[p]), rank)
      requires forall p :: pos < p < |all| ==> !RankLess(RankOf(all[p]), rank)
      requires RankSorted(all)
      ensures rank in Contents() <==> pos + 1 < |all| && RankOf(all[pos + 1]) == rank
      ensures rank !in Contents() ==>
                && !HasKey(Entries(), rank) && forall p :: pos < p < |all| ==> RankLess(rank, RankOf(all[p]))
    {
      MapKeys(Entries(), rank);
      if pos + 1 < |all| && RankOf(all[pos + 1]) == rank {
        assert Entries()[pos].0 == rank;
      } else {
        forall p | pos < p < |all| ensures RankLess(rank, RankOf(all[p])) {
          RankTrichotomy(rank, RankOf(all[p]));
        }
        forall i | 0 <= i < |Entries()| ensures Entries()[i].0 != rank {
          RankTrichotomy(rank, RankOf(all[i + 1]));
          RankTrichotomy(RankOf(all[i + 1]), rank);
        }
      }
    }

    lemma PlaceLevels(b: seq<bool>, pos: nat, us: seq<nat>)
      requires Valid() && |us| == level + 1 && |b| == |all| && pos < |all|
      requires forall l :: 0 <= l <= level ==> Left(b, Heights(all), pos, l, us[l])
      ensures all[pos].forward.Length > 0 && all[pos].forward[0] == Ptr(all, pos + 1)
      ensures var us' := Padded(us);
              forall l :: 0 <= l <= SKIP_MAX_LEVEL ==> us'[l] < |all| && Pred(Heights(all), pos + 1, l, us'[l])
    {
      var us' := Padded(us);
      NextIs(Heights(all), pos, 0, pos + 1);
      forall l | 0 <= l <= SKIP_MAX_LEVEL ensures us'[l] < |all| && Pred(Heights(all), pos + 1, l, us'[l]) {
        if l > level {
          NextIs(Heights(all), 0, l, |all|);
        }
      }
    }

    /** kvs_skiptable_zadd: 1 when (score, key) was there and its value is overwritten, 0 when
        it is new. The same key under another score stays where it is. */
    method Zadd(key: Text, value: Text, score: real) returns (r: int)
      requires Valid()
      modifies this, repr
      ensures Valid() && fresh(repr - old(repr))
      ensures r == if (score, key) in old(Contents()) then 1 else 0
      ensures Contents() == old(Contents())[(score, key) := value]
      ensures length == if r == 1 then old(length) else old(length) + 1
    {
      hide Valid, Layout, Linked, LevelRight, RankSorted, Next, Descend, EntriesOf, ToMap, RankLess, Left, HasKey, Pred;
      var last: SkipNode, update: seq<SkipNode>;
      ghost var us, pos;
      last, update, us, pos := DescendByRank(score, key);
      PlaceFound((score, key), pos, us);
      var current := last.forward[0];
      if current != null {
        StrcmpZero(current.key, key);
      }
      if current != null && current.score == score && Strcmp(current.key, key) == 0 {
        Overwrite(current, value, pos);
        return 1;
      }
      var lv := RandomLevel();
      us := Padded(us);
      if lv > level {
        for i := level + 1 to lv + 1
          invariant |update| == SKIP_MAX_LEVEL + 1
          invariant forall l :: 0 <= l < i ==> update[l] == all[us[l]]
        {
          update := update[i := header];
        }
      }
      ghost var es := Entries();
      AddNode(key, value, score, update, lv, us, pos);
      InsertedMap(es, pos, (score, key), value);
      r := 0;
    }

    /** zadd on a node that is there already. */
    method Overwrite(current: SkipNode, value: Text, ghost pos: nat)
      requires Valid() && pos + 1 < |all| && current == all[pos + 1]
      modifies current
      ensures Valid() && length == old(length)
      ensures Contents() == old(Contents())[RankOf(current) := value]
    {
      ghost var es := Entries();
      EntriesDistinct();
      current.value := value;
      assert Entries() == es[pos := (RankOf(current), value)] by {
        forall i | 0 <= i < |es| ensures Entries()[i] == es[pos := (RankOf(current), value)][i] {
          assert es[i].0 == RankOf(all[i + 1]);
        }
      }
      ReplaceAt(es, pos, value);
    }

    /** The unlinking loop of zrem: it stops at the first level that the node does not reach. */
    method Unlink(node: SkipNode, update: seq<SkipNode>, ghost us: seq<nat>, ghost i: nat)
      requires Layout(all) && i < |all| && node == all[i] && level < |update| && level < |us|
      requires node.forward.Length <= level + 1
      requires forall l :: 0 <= l <= level ==> us[l] < i && update[l] == all[us[l]] && all[us[l]].forward.Length > l
      requires forall l :: 0 <= l <= level ==> (all[us[l]].forward[l] == node <==> l < node.forward.Length)
      modifies set p | 0 <= p < |all| :: all[p].forward
      ensures forall p, l :: 0 <= p < |all| && 0 <= l < all[p].forward.Length ==>
                all[p].forward[l] ==
                if l < node.forward.Length && p == us[l] then old(node.forward[l]) else old(all[p].forward[l])
    {
      var l := 0;
      while l <= level
        invariant 0 <= l <= node.forward.Length
        invariant forall p, k :: 0 <= p < |all| && 0 <= k < all[p].forward.Length ==>
          all[p].forward[k] == if k < l && p == us[k] then old(node.forward[k]) else old(all[p].forward[k])
      {
        if update[l].forward[l] != node {
          break;
        }
        update[l].forward[l] := node.forward[l];
        l := l + 1;
      }
    }

    /** The last loop of zrem: levels that no node reaches any more are given up. */
    method DropLevels()
      requires Layout(all) && Linked(all) && header == all[0] && level <= SKIP_MAX_LEVEL
      requires forall p :: 0 < p < |all| ==> all[p].forward.Length <= level + 1
      modifies this`level
      ensures LevelRight(all, level)
    {
      while level > 0 && header.forward[level] == null
        invariant level <= SKIP_MAX_LEVEL
        invariant forall p :: 0 < p < |all| ==> all[p].forward.Length <= level + 1
      {
        level := level - 1;
      }
      if level > 0 {
        assert header.forward[level] == Ptr(all, Next(Heights(all), 0, level));
      }
    }

    /** What zrem knows when its search by key has stopped. */
    lemma KeyPlace(key: Text, pos: nat, us: seq<nat>)
      requires Valid() && pos == Descend(BelowKey(all, key), Heights(all), 0, level) && |us| == level + 1
      requires forall l :: 0 <= l <= level ==> Left(BelowKey(all, key), Heights(all), pos, l, us[l])
      ensures pos < |all| && all[pos].forward.Length > 0 && all[pos].forward[0] == Ptr(all, pos + 1)
      ensures level <= SKIP_MAX_LEVEL
      ensures pos + 1 < |all| ==> all[pos + 1].forward.Length <= level + 1
      ensures forall l :: 0 <= l <= level ==> Pred(Heights(all), pos + 1, l, us[l])
      ensures pos + 1 < |all| ==> forall l :: 0 <= l <= level ==>
                us[l] < pos + 1 && all[us[l]].forward.Length > l
                && (all[us[l]].forward[l] == all[pos + 1] <==> l < all[pos + 1].forward.Length)
    {
      hide Descend, Left, Next, Pred, Ptr;
      PlaceLevels(BelowKey(all, key), pos, us);
      LevelBound();
      forall l | 0 <= l <= level
        ensures us[l] < |all| && Pred(Heights(all), pos + 1, l, us[l])
        ensures pos + 1 < |all| ==>
                  us[l] < pos + 1 && all[us[l]].forward.Length > l
                  && (all[us[l]].forward[l] == all[pos + 1] <==> l < all[pos + 1].forward.Length)
      {
        assert Padded(us)[l] == us[l];
        LinkToPlace(pos + 1, l, us[l]);
      }
    }

    /** The predecessor's link leads to place i exactly on the levels that i reaches. */
    lemma LinkToPlace(i: nat, l: nat, u: nat)
      requires Valid() && u < |all| && Pred(Heights(all), i, l, u)
      ensures i < |all| ==>
                u < i && all[u].forward.Length > l && (all[u].forward[l] == all[i] <==> l < all[i].forward.Length)
    {
      if i < |all| {
        if l < all[i].forward.Length {
          PredLeads(Heights(all), i, l, u, u);
        } else {
          NextSkips(Heights(all), i, u, l);
        }
      }
    }

    /** Unlink, told in terms of where the links lead: the list without node i is well linked. */
    method UnlinkAll(node: SkipNode, update: seq<SkipNode>, ghost us: seq<nat>, ghost i: nat)
      requires Layout(all) && 0 < i < |all| && node == all[i] && level < |update| && level < |us|
      requires node.forward.Length <= level + 1
      requires forall l :: 0 <= l <= level ==> us[l] < i && update[l] == all[us[l]] && all[us[l]].forward.Length > l
      requires forall l :: 0 <= l <= level ==> (all[us[l]].forward[l] == node <==> l < node.forward.Length)
      requires forall l :: 0 <= l <= level ==> Pred(Heights(all), i, l, us[l])
      requires Linked(all)
      modifies set p | 0 <= p < |all| :: all[p].forward
      ensures Linked(Removed(all, i))
    {
      hide Layout, Next, Ptr, Pred, Heights;
      Unlink(node, update, us, i);
      LinkedWithout(all, i, us);
    }

    /** The part of zrem after the search: the node right after position pos leaves. */
    method RemoveNode(node: SkipNode, update: seq<SkipNode>, ghost us: seq<nat>, ghost pos: nat)
      requires Valid() && pos + 1 < |all| && node == all[pos + 1] && level < |update| && level < |us|
      requires node.forward.Length <= level + 1
      requires forall l :: 0 <= l <= level ==> us[l] < pos + 1 && update[l] == all[us[l]] && all[us[l]].forward.Length > l
      requires forall l :: 0 <= l <= level ==> (all[us[l]].forward[l] == node <==> l < node.forward.Length)
      requires forall l :: 0 <= l <= level ==> Pred(Heights(all), pos + 1, l, us[l])
      modifies this, repr
      ensures Valid() && repr <= old(repr) && all == Removed(old(all), pos + 1) && length == old(length) - 1
      ensures Entries() == Removed(old(Entries()), pos)
    {
      hide Next, Ptr, RankLess, Pred, Heights, RankSorted, Linked, EntriesOf, Layout;
      ghost var all0 := all;
      LevelBound();
      LayoutWithout(all0, pos + 1);
      UnlinkAll(node, update, us, pos + 1);
      EntriesWithout(all0, pos + 1);
      all := Removed(all0, pos + 1);
      DropLevels();
      length := length - 1;
    }

    lemma LevelBound()
      requires LevelRight(all, level)
      ensures level <= SKIP_MAX_LEVEL && forall p :: 0 < p < |all| ==> all[p].forward.Length <= level + 1
    {
    }

    /** The levels of a list in memory are towers as the searches need them. */
    lemma ValidTowers()
      requires Valid()
      ensures Towers(Heights(all), |all|, level)
    {
      if level > 0 {
        var p :| 0 < p < |all| && all[p].forward.Length == level + 1;
        assert Heights(all)[p] == level + 1;
      }
    }

    /** Where the keys lead to the key, removal finds it, whatever levels were drawn. */
    lemma ZremSucceeds(key: Text)
      requires Valid()
      ensures |all| > 0
      ensures KeyLeads(BelowKey(all, key), IsKey(all, key)) ==> Finds(BelowKey(all, key), IsKey(all, key), Heights(all), level)
    {
      hide KeyLeads, Finds, Towers;
      ValidTowers();
      FindsIffKeyLeads(BelowKey(all, key), IsKey(all, key));
    }

    /** kvs_skiptable_zrem: 0 when a node with the key was met and removed, -1 when nothing changed. */
    method Zrem(key: Text) returns (r: int)
      requires Valid()
      modifies this, repr
      ensures Valid() && repr <= old(repr)
      ensures r == if old(Finds(BelowKey(all, key), IsKey(all, key), Heights(all), level)) then 0 else -1
      ensures old(KeyLeads(BelowKey(all, key), IsKey(all, key))) ==> r == 0
      ensures r == 0 ==> var i := old(Descend(BelowKey(all, key), Heights(all), 0, level));
                         && i < |old(Entries())| && old(Entries())[i].0.1 == key
                         && Entries() == Removed(old(Entries()), i) && all == Removed(old(all), i + 1)
                         && Contents() == old(Contents()) - {old(Entries())[i].0}
                         && length == old(length) - 1
      ensures r == -1 ==> all == old(all) && Entries() == old(Entries()) && level == old(level) && length == old(length)
    {
      hide Valid, Layout, Linked, LevelRight, RankSorted, Next, Descend, EntriesOf, ToMap, RankLess, Left, Pred, KeyLeads;
      var last: SkipNode, update: seq<SkipNode>;
      ghost var us, pos;
      ZremSucceeds(key);
      last, update, us, pos := DescendByKey(key);
      KeyPlace(key, pos, us);
      var current := last.forward[0];
      if current != null {
        StrcmpZero(current.key, key);
      }
      if current != null && Strcmp(current.key, key) == 0 {
        ghost var es := Entries();
        EntriesDistinct();
        RemoveNode(current, update, us, pos);
        RemovedMap(es, pos);
        return 0;
      }
      r := -1;
    }

    /** On level 0 the next position is the next node. */
    lemma Forward0(p: nat)
      requires Valid() && p < |all|
      ensures all[p].forward.Length > 0 && all[p].forward[0] == Ptr(all, p + 1) && header == all[0]
    {
      NextIs(Heights(all), p, 0, p + 1);
    }

    lemma ScoreSorted(p: nat, q: nat)
      requires Valid() && 0 < p <= q < |all|
      ensures all[p].score <= all[q].score
    {
      if p < q {
        assert RankLess(RankOf(all[p]), RankOf(all[q]));
      }
    }

    /** The elements stand in the list by score, and with equal scores as strcmp orders the keys. */
    lemma EntriesInOrder(p: nat, q: nat)
      requires Valid() && p < q < |Entries()|
      ensures var (r, s) := (Entries()[p].0, Entries()[q].0);
              r.0 < s.0 || (r.0 == s.0 && Strcmp(r.1, s.1) < 0)
    {
      assert RankLess(RankOf(all[p + 1]), RankOf(all[q + 1]));
    }

    /** The first loop of zrange_entries: past the scores below min. */
    method SkipBelow(min: real, ghost max: real) returns (current: SkipNode?, ghost pos: nat)
      requires Valid()
      ensures 1 <= pos <= |all| && current == Ptr(all, pos) && (current != null ==> current.score >= min)
      ensures InRange(Entries()[..pos - 1], min, max) == []
      ensures forall k :: 0 <= k < pos - 1 ==> Entries()[k].0.0 < min
    {
      hide Linked, Layout, RankSorted, LevelRight, EntriesOf, Ptr;
      ghost var es := Entries();
      Forward0(0);
      current, pos := header.forward[0], 1;
      while current != null && current.score < min
        invariant 1 <= pos <= |all| && current == Ptr(all, pos)
        invariant InRange(es[..pos - 1], min, max) == [] && forall k :: 0 <= k < pos - 1 ==> es[k].0.0 < min
        decreases |all| - pos
      {
        PtrAt(all, pos);
        Forward0(pos);
        InRangeStep(es, pos - 1, min, max);
        current, pos := current.forward[0], pos + 1;
      }
    }

    /** What one step of the copying loop relies on. */
    lemma CopyStep(min: real, max: real, pos: nat)
      requires Valid() && 1 <= pos && Ptr(all, pos) != null && min <= Ptr(all, pos).score <= max
      ensures pos < |all| && Ptr(all, pos) == all[pos] && all[pos].forward.Length > 0
      ensures all[pos].forward[0] == Ptr(all, pos + 1)
      ensures Ptr(all, pos + 1) != null ==> Ptr(all, pos + 1).score >= min
      ensures InRange(Entries()[..pos], min, max) == InRange(Entries()[..pos - 1], min, max) + [EntryOf(all[pos])]
    {
      PtrAt(all, pos);
      Forward0(pos);
      if pos + 1 < |all| {
        ScoreSorted(pos, pos + 1);
      }
      InRangeStep(Entries(), pos - 1, min, max);
    }

    lemma CopyEnd(min: real, max: real, maxResults: int, pos: nat, count: nat)
      requires Valid() && 1 <= pos <= |all| && |InRange(Entries()[..pos - 1], min, max)| == count
      requires (count <= maxResults || count == 0)
      requires count >= maxResults || Ptr(all, pos) == null || Ptr(all, pos).score > max
      ensures Take(InRange(Entries(), min, max), maxResults) == InRange(Entries()[..pos - 1], min, max)
      ensures count >= maxResults || pos - 1 == |Entries()| || Entries()[pos - 1].0.0 > max
    {
      var es := Entries();
      if pos < |all| && all[pos].score > max {
        forall i | pos - 1 <= i < |es| ensures es[i].0.0 > max {
          ScoreSorted(pos, i + 1);
        }
      }
      TakeInRange(es, pos - 1, min, max, maxResults, count);
    }

    /** kvs_skiptable_zrange_entries: copies, in order, the first maxResults elements with a score in
        [min, max], without looking at the nodes after the first larger score. They stand together in the
        list, from `first` on: all scores before are too small, and behind them comes nothing, a score that
        is too large, or no room. */
    method ZrangeEntries(min: real, max: real, results: array<ZRangeEntry>, maxResults: int)
      returns (count: int, ghost first: nat)
      requires Valid() && maxResults <= results.Length && results !in repr
      modifies results
      ensures Valid() && Entries() == old(Entries())
      ensures 0 <= count <= results.Length
      ensures results[..count] == Copies(Take(InRange(Entries(), min, max), maxResults))
      ensures results[count..] == old(results[..])[count..]
      ensures first + count <= |Entries()| && forall k :: 0 <= k < first ==> Entries()[k].0.0 < min
      ensures forall i :: 0 <= i < count ==> CopiedFrom(results[i], Entries()[first + i], min, max)
      ensures count >= maxResults || first + count == |Entries()| || Entries()[first + count].0.0 > max
      ensures count <= maxResults || count == 0
    {
      hide Valid, EntriesOf, Ptr, InRange, Take, CopyOf, CopiedFrom;
      ghost var r0 := results[..];
      NonEmpty();
      ghost var es := Entries();
      var current;
      ghost var pos;
      current, pos := SkipBelow(min, max);
      count, first := 0, pos - 1;
      while current != null && current.score <= max && count < maxResults
        invariant 1 <= pos <= |all| && current == Ptr(all, pos) && 0 <= count <= results.Length
        invariant current != null ==> current.score >= min
        invariant results[..count] == Copies(InRange(es[..pos - 1], min, max))
        invariant forall k :: count <= k < results.Length ==> results[k] == r0[k]
        invariant Valid() && Entries() == es
        invariant count <= maxResults || count == 0
        invariant first + count == pos - 1 && forall i :: 0 <= i < count ==> CopiedFrom(results[i], es[first + i], min, max)
        decreases |all| - pos
      {
        CopyStep(min, max, pos);
        CopyMeans(EntryOf(current), min, max);
        results[count] := CopyOf(EntryOf(current));
        assert results[..count + 1] == results[..count] + [CopyOf(EntryOf(current))];
        count, current, pos := count + 1, current.forward[0], pos + 1;
      }
      CopyEnd(min, max, maxResults, pos, count);
    }

    lemma NonEmpty()
      requires Valid()
      ensures |all| > 0
    {
    }
  }

  lemma PtrAt(all: seq<SkipNode>, q: nat)
    ensures Ptr(all, q) == if q < |all| then all[q] else null
  {
  }

  lemma RemovedMap(es: seq<(Rank, Text)>, i: nat)
    requires i < |es| && DistinctKeys(es)
    ensures ToMap(Removed(es, i)) == ToMap(es) - {es[i].0}
  {
    assert es == es[..i] + [(es[i].0, es[i].1)] + es[i + 1..];
    assert Removed(es, i) == es[..i] + es[i + 1..];
    RemoveAt(es[..i], es[i].0, es[i].1, es[i + 1..]);
  }

  lemma InsertedMap(es: seq<(Rank, Text)>, i: nat, r: Rank, v: Text)
    requires i <= |es| && !HasKey(es, r)
    ensures ToMap(Inserted(es, i, (r, v))) == ToMap(es)[r := v]
  {
    assert es == es[..i] + es[i..];
    InsertAt(es[..i], r, v, es[i..]);
  }

  // ----- range queries

  const MAX_KEY_LEN := 128

  /** A result slot holds at most 127 bytes of key and of value. */
  datatype ZRangeEntry = ZRangeEntry(key: Text, value: Text, score: real)

  function Clip(s: Text): Text
  {
    if |s| > MAX_KEY_LEN - 1 then s[..MAX_KEY_LEN - 1] else s
  }

  function CopyOf(e: (Rank, Text)): ZRangeEntry
  {
    ZRangeEntry(Clip(e.0.1), Clip(e.1), e.0.0)
  }

  /** A result slot and the element it was made from: its score, and as much of key and value as fits. */
  predicate CopiedFrom(r: ZRangeEntry, e: (Rank, Text), min: real, max: real)
  {
    && r.score == e.0.0 && min <= r.score <= max
    && r.key <= e.0.1 && |r.key| == (if |e.0.1| <= 127 then |e.0.1| else 127)
    && r.value <= e.1 && |r.value| == (if |e.1| <= 127 then |e.1| else 127)
  }

  lemma CopyMeans(e: (Rank, Text), min: real, max: real)
    requires min <= e.0.0 <= max
    ensures CopiedFrom(CopyOf(e), e, min, max)
  {
  }

  function Copies(es: seq<(Rank, Text)>): (r: seq<ZRangeEntry>)
    ensures |r| == |es| && forall i :: 0 <= i < |es| ==> r[i] == CopyOf(es[i])
  {
    seq(|es|, i requires 0 <= i < |es| => CopyOf(es[i]))
  }

  function Take<T>(s: seq<T>, n: int): seq<T>
  {
    if n <= 0 then [] else if n < |s| then s[..n] else s
  }

  /** The elements with a score in [lo, hi], in order. */
  function InRange(es: seq<(Rank, Text)>, lo: real, hi: real): seq<(Rank, Text)>
  {
    if es == [] then []
    else
      var e := es[|es| - 1];
      InRange(es[..|es| - 1], lo, hi) + if lo <= e.0.0 <= hi then [e] else []
  }

  lemma InRangeStep(es: seq<(Rank, Text)>, i: nat, lo: real, hi: real)
    requires i < |es|
    ensures InRange(es[..i + 1], lo, hi) == InRange(es[..i], lo, hi) + if lo <= es[i].0.0 <= hi then [es[i]] else []
  {
    assert es[..i + 1][..i] == es[..i];
  }

  lemma {:induction false} InRangeSplit(es: seq<(Rank, Text)>, i: nat, lo: real, hi: real)
    requires i <= |es|
    ensures InRange(es[..i], lo, hi) <= InRange(es, lo, hi)
    ensures (forall k :: i <= k < |es| ==> es[k].0.0 > hi) ==> InRange(es[..i], lo, hi) == InRange(es, lo, hi)
  {
    if i == |es| {
      assert es[..i] == es;
    } else {
      var n := |es| - 1;
      InRangeSplit(es[..n], i, lo, hi);
      assert es[..n][..i] == es[..i];
    }
  }

  /** Stopping early is right: the range is exhausted, or enough has been taken. */
  lemma TakeInRange(es: seq<(Rank, Text)>, i: nat, lo: real, hi: real, n: int, count: nat)
    requires i <= |es| && |InRange(es[..i], lo, hi)| == count && (count <= n || count == 0)
    requires i == |es| || count >= n || forall k :: i <= k < |es| ==> es[k].0.0 > hi
    ensures Take(InRange(es, lo, hi), n) == InRange(es[..i], lo, hi)
  {
    InRangeSplit(es, i, lo, hi);
    assert i == |es| ==> es[..i] == es;
  }

  // ----- when removal by key finds its key

  /** For keys in the order of the list (position 0 is the header), zrem finds the key under every
      draw of random levels exactly when, wherever a smaller key (or the header) is followed by
      something else than a smaller key, it is followed by the key itself. */
  lemma ZremFinds(ks: seq<Text>, key: Text)
    requires |ks| > 0
    ensures (forall hs, l :: Towers(hs, |ks|, l) ==> Finds(BelowKeys(ks, key), AreKey(ks, key), hs, l))
            <==> KeyLeads(BelowKeys(ks, key), AreKey(ks, key))
  {
    var b, e := BelowKeys(ks, key), AreKey(ks, key);
    FindsIffKeyLeads(b, e);
  }

  /** Where keys are in key order too, for instance under equal scores, presence is enough. */
  lemma ZremFindsInKeyOrder(ks: seq<Text>, key: Text)
    requires |ks| > 0 && forall p, q :: 0 < p < q < |ks| ==> Less(ks[p], ks[q])
    ensures KeyLeads(BelowKeys(ks, key), AreKey(ks, key)) <==> key in ks[1..]
  {
    var b, e := BelowKeys(ks, key), AreKey(ks, key);
    if key in ks[1..] {
      var i :| 0 <= i < |ks| - 1 && ks[1..][i] == key;
      var k := i + 1;
      assert ks[k] == key;
      forall j | 0 <= j < |b| ensures KeyLeadsAt(b, e, j) {
        if b[j] {
          Trichotomy(ks[j], key);
          assert j < k;
          if j + 1 < k {
            assert Less(ks[j + 1], ks[k]);
          }
        }
      }
    } else if KeyLeads(b, e) {
      SmallerForEver(b, e, 0);
    }
  }

  lemma {:induction false} SmallerForEver(b: seq<bool>, e: seq<bool>, j: nat)
    requires |b| == |e| && j < |b| && b[j] && KeyLeads(b, e) && forall k :: 0 <= k < |e| ==> !e[k]
    ensures false
    decreases |b| - j
  {
    assert KeyLeadsAt(b, e, j);
    SmallerForEver(b, e, j + 1);
  }

  /** The smallest list on which removal of a present key fails: "b" scores less than "a". */
  lemma ZremMisses()
    ensures var ks: seq<Text> := [[], [98], [97]];
            && [97] in ks[1..] && !KeyLeads(BelowKeys(ks, [97]), AreKey(ks, [97]))
            && !Finds(BelowKeys(ks, [97]), AreKey(ks, [97]), [7, 1, 1], 0)
  {
    var ks: seq<Text> := [[], [98], [97]];
    assert ks[1..][1] == [97];
    var b, e := BelowKeys(ks, [97]), AreKey(ks, [97]);
    assert !b[1] && !e[1];
    assert !KeyLeadsAt(b, e, 0);
    NextIs([7, 1, 1], 0, 0, 1);
  }
}
