/** The mathematics of a skip list: positions 0 (the header) to n - 1, each with a
    height, its number of levels. Level l links the positions higher than l. */
module SkipTowers {

  /** The next position after p on level l, or |hs| when there is none. */
  function Next(hs: seq<nat>, p: nat, l: nat): (q: nat)
    requires p < |hs|
    ensures p < q <= |hs|
    ensures q < |hs| ==> hs[q] > l
    ensures forall k :: p < k < q ==> hs[k] <= l
    decreases |hs| - p
  {
    if p + 1 == |hs| || hs[p + 1] > l then p + 1 else Next(hs, p + 1, l)
  }

  lemma NextIs(hs: seq<nat>, p: nat, l: nat, q: nat)
    requires p < q <= |hs| && (q < |hs| ==> hs[q] > l)
    requires forall k :: p < k < q ==> hs[k] <= l
    ensures Next(hs, p, l) == q
  {
  }

  function Inserted<T>(s: seq<T>, i: nat, x: T): seq<T>
    requires i <= |s|
  {
    s[..i] + [x] + s[i..]
  }

  /** Where level l leads after a tower of height h has been put at position i. */
  lemma NextInserted(hs: seq<nat>, i: nat, h: nat, p: nat, l: nat)
    requires 0 < i <= |hs| && p < |hs|
    ensures p < i && Next(hs, p, l) < i ==> Next(Inserted(hs, i, h), p, l) == Next(hs, p, l)
    ensures p < i <= Next(hs, p, l) ==>
              Next(Inserted(hs, i, h), p, l) == if h > l then i else Next(hs, p, l) + 1
    ensures i <= p ==> Next(Inserted(hs, i, h), p + 1, l) == Next(hs, p, l) + 1
  {
    var hs', q := Inserted(hs, i, h), Next(hs, p, l);
    InsertedAt(hs, i, h);
    hide Inserted;
    var r := if p < i && q < i then q else if p < i && h > l then i else q + 1;
    NextIs(hs', if p < i then p else p + 1, l, r);
  }

  lemma InsertedAt(hs: seq<nat>, i: nat, h: nat)
    requires i <= |hs|
    ensures var s := Inserted(hs, i, h);
            |s| == |hs| + 1 && forall k :: 0 <= k < |s| ==> s[k] == if k < i then hs[k] else if k == i then h else hs[k - 1]
  {
  }

  lemma NextOfInserted(hs: seq<nat>, i: nat, h: nat, l: nat, u: nat)
    requires 0 < i <= |hs| && u < i <= Next(hs, u, l)
    ensures Next(Inserted(hs, i, h), i, l) == Next(hs, u, l) + 1
  {
    var hs', q := Inserted(hs, i, h), Next(hs, u, l);
    assert forall k :: i < k < |hs'| ==> hs'[k] == hs[k - 1];
    NextIs(hs', i, l, q + 1);
  }

  /** u is the last position before i that reaches level l. */
  predicate Pred(hs: seq<nat>, i: nat, l: nat, u: nat)
  {
    u < i <= |hs| && hs[u] > l && Next(hs, u, l) >= i
  }

  lemma PredPasses(hs: seq<nat>, i: nat, l: nat, u: nat, p: nat)
    requires Pred(hs, i, l, u) && p < |hs| && hs[p] > l
    ensures u < i && (p < i && Next(hs, p, l) >= i <==> p == u)
  {
  }

  function Removed<T>(s: seq<T>, i: nat): (r: seq<T>)
    requires i < |s|
    ensures |r| == |s| - 1 && forall k :: 0 <= k < |r| ==> r[k] == s[if k < i then k else k + 1]
  {
    s[..i] + s[i + 1..]
  }

  /** Where level l leads from p once the tower at i is gone; p inherits i's link if it led to i. */
  lemma NextRemoved(hs: seq<nat>, i: nat, p: nat, l: nat)
    requires 0 < i < |hs| && p < |hs| && p != i && hs[p] > l
    ensures var q := Next(hs, p, l);
            var q' := if q == i then Next(hs, i, l) else q;
            q' != i && Next(Removed(hs, i), if p < i then p else p - 1, l) == if q' < i then q' else q' - 1
  {
    var hs', q := Removed(hs, i), Next(hs, p, l);
    var q' := if q == i then Next(hs, i, l) else q;
    var p', r := if p < i then p else p - 1, if q' < i then q' else q' - 1;
    forall k | p' < k < r ensures hs'[k] <= l {
      var k' := if k < i then k else k + 1;
      assert hs'[k] == hs[k'] && p < k' < q' && k' != q;
    }
    NextIs(hs', p', l, r);
  }

  /** The level-l predecessor of i leads to i when i reaches level l, and no other position does. */
  lemma PredLeads(hs: seq<nat>, i: nat, l: nat, u: nat, p: nat)
    requires i < |hs| && hs[i] > l && Pred(hs, i, l, u) && p < |hs| && hs[p] > l
    ensures Next(hs, p, l) == i <==> p == u
  {
  }

  lemma NextSkips(hs: seq<nat>, i: nat, p: nat, l: nat)
    requires i < |hs| && hs[i] <= l && p < |hs|
    ensures Next(hs, p, l) != i
  {
  }

  // ----- searching from the top level down

  /** The loop on one level: advance while the next position is below the target. */
  function Walk(b: seq<bool>, hs: seq<nat>, p: nat, l: nat): (r: nat)
    requires |b| == |hs| && p < |hs|
    ensures p <= r < |hs|
    decreases |hs| - p
  {
    var q := Next(hs, p, l);
    if q < |hs| && b[q] then Walk(b, hs, q, l) else p
  }

  /** All levels from l down to 0. */
  function Descend(b: seq<bool>, hs: seq<nat>, p: nat, l: nat): (r: nat)
    requires |b| == |hs| && p < |hs|
    ensures p <= r < |hs|
    decreases l
  {
    var q := Walk(b, hs, p, l);
    if l == 0 then q else Descend(b, hs, q, l - 1)
  }

  lemma {:induction false} WalkStops(b: seq<bool>, hs: seq<nat>, p: nat, l: nat)
    requires |b| == |hs| && p < |hs| && b[p]
    ensures var r := Walk(b, hs, p, l);
            b[r] && (Next(hs, r, l) < |hs| ==> !b[Next(hs, r, l)])
    decreases |hs| - p
  {
    var q := Next(hs, p, l);
    if q < |hs| && b[q] {
      WalkStops(b, hs, q, l);
    }
  }

  /** u is where the search left level l, at or before p. */
  predicate Left(b: seq<bool>, hs: seq<nat>, p: nat, l: nat, u: nat)
    requires |b| == |hs|
  {
    Pred(hs, p + 1, l, u) && (Next(hs, u, l) < |hs| ==> !b[Next(hs, u, l)])
  }

  /** Walking on a lower level never passes the place where a higher level was left. */
  lemma {:induction false} WalkKeepsLeft(b: seq<bool>, hs: seq<nat>, p: nat, l: nat, l': nat, u: nat)
    requires |b| == |hs| && p < |hs| && l < l' && Left(b, hs, p, l', u)
    ensures Left(b, hs, Walk(b, hs, p, l), l', u)
    decreases |hs| - p
  {
    var q := Next(hs, p, l);
    if q < |hs| && b[q] {
      WalkKeepsLeft(b, hs, q, l, l', u);
    }
  }

  lemma {:induction false} WalkLeft(b: seq<bool>, hs: seq<nat>, p: nat, l: nat)
    requires |b| == |hs| && p < |hs| && hs[p] > l
    ensures var r := Walk(b, hs, p, l); hs[r] > l && Left(b, hs, r, l, r)
    decreases |hs| - p
  {
    var q := Next(hs, p, l);
    if q < |hs| && b[q] {
      WalkLeft(b, hs, q, l);
    }
  }

  /** One level of the search: it is left where its walk ends, and the levels above are left as before. */
  lemma DescendRound(b: seq<bool>, hs: seq<nat>, p: nat, i: nat, us: seq<nat>)
    requires |b| == |hs| && p < |hs| && hs[p] > i && i < |us|
    requires forall l :: i < l < |us| ==> Left(b, hs, p, l, us[l])
    ensures var r := Walk(b, hs, p, i);
            && hs[r] > i && Left(b, hs, r, i, r) && (forall l :: i < l < |us| ==> Left(b, hs, r, l, us[l]))
            && Descend(b, hs, p, i) == if i == 0 then r else Descend(b, hs, r, i - 1)
  {
    hide Left, Walk, Next;
    WalkLeft(b, hs, p, i);
    forall l | i < l < |us| ensures Left(b, hs, Walk(b, hs, p, i), l, us[l]) {
      WalkKeepsLeft(b, hs, p, i, l, us[l]);
    }
  }

  /** The search ends at a position below the target whose successor, if any, is not. */
  lemma {:induction false} DescendStops(b: seq<bool>, hs: seq<nat>, p: nat, l: nat)
    requires |b| == |hs| && p < |hs| && b[p] && (forall k :: 0 <= k < |hs| ==> hs[k] > 0)
    ensures var r := Descend(b, hs, p, l);
            b[r] && (r + 1 < |hs| ==> !b[r + 1])
    decreases l
  {
    WalkStops(b, hs, p, l);
    if l > 0 {
      DescendStops(b, hs, Walk(b, hs, p, l), l - 1);
    }
  }

  // ----- the levels are nested

  /** The positions that level l visits after p. */
  function Chain(hs: seq<nat>, p: nat, l: nat): seq<nat>
    requires p < |hs|
    decreases |hs| - p
  {
    var q := Next(hs, p, l);
    if q == |hs| then [] else [q] + Chain(hs, q, l)
  }

  /** A level visits, in increasing order, exactly the positions that reach it. */
  lemma {:induction false} ChainVisits(hs: seq<nat>, p: nat, l: nat)
    requires p < |hs|
    ensures forall k :: k in Chain(hs, p, l) <==> p < k < |hs| && hs[k] > l
    ensures forall i, j :: 0 <= i < j < |Chain(hs, p, l)| ==> Chain(hs, p, l)[i] < Chain(hs, p, l)[j]
    decreases |hs| - p
  {
    var q := Next(hs, p, l);
    if q < |hs| {
      ChainVisits(hs, q, l);
      var c := Chain(hs, q, l);
      forall i, j | 0 <= i < j < |[q] + c| ensures ([q] + c)[i] < ([q] + c)[j] {
        assert ([q] + c)[j] in c;
      }
    }
  }

  /** Level l + 1 visits some of the positions of level l. */
  lemma LevelsNested(hs: seq<nat>, l: nat)
    requires |hs| > 0
    ensures forall k :: k in Chain(hs, 0, l + 1) ==> k in Chain(hs, 0, l)
  {
    ChainVisits(hs, 0, l);
    ChainVisits(hs, 0, l + 1);
  }

  // ----- searching by key in a list that another order sorts

  /** Towers that some run of random levels builds: l is the highest level in use, or 0. */
  ghost predicate Towers(hs: seq<nat>, n: nat, l: nat)
  {
    && |hs| == n > 0 && l <= 6 && hs[0] == 7
    && (forall k :: 0 < k < n ==> 0 < hs[k] <= l + 1)
    && (l > 0 ==> exists k :: 0 < k < n && hs[k] == l + 1)
  }

  /** The search by key meets a node with the key: e marks those nodes, b the smaller keys. */
  predicate Finds(b: seq<bool>, e: seq<bool>, hs: seq<nat>, l: nat)
    requires |b| == |e| == |hs| > 0
  {
    var r := Descend(b, hs, 0, l) + 1;
    r < |hs| && e[r]
  }

  /** After the header and after every smaller key there is a smaller key again, or the key itself. */
  ghost predicate KeyLeads(b: seq<bool>, e: seq<bool>)
    requires |b| == |e|
  {
    forall j :: 0 <= j < |b| ==> KeyLeadsAt(b, e, j)
  }

  predicate KeyLeadsAt(b: seq<bool>, e: seq<bool>, j: nat)
    requires j < |b| == |e|
  {
    b[j] ==> j + 1 < |b| && (b[j + 1] || e[j + 1])
  }

  /** Heights that make the search stop right after position j. */
  function Spike(n: nat, j: nat): seq<nat>
  {
    seq(n, k => if k == 0 then 7 else if k == j then 2 else 1)
  }

  lemma SpikeStops(b: seq<bool>, j: nat)
    requires j < |b| && b[0] && b[j] && (j + 1 < |b| ==> !b[j + 1])
    ensures var hs, l := Spike(|b|, j), if j == 0 then 0 else 1;
            Towers(hs, |b|, l) && Descend(b, hs, 0, l) == j
  {
    var hs := Spike(|b|, j);
    NextIs(hs, j, 0, j + 1);
    assert Walk(b, hs, j, 0) == j;
    if j > 0 {
      NextIs(hs, 0, 1, j);
      NextIs(hs, j, 1, |hs|);
      assert hs[j] == 2;
      assert Walk(b, hs, 0, 1) == Walk(b, hs, j, 1) == j;
    }
  }

  /** Removal by key succeeds whatever levels were drawn, exactly when the keys lead to it. */
  lemma FindsIffKeyLeads(b: seq<bool>, e: seq<bool>)
    requires |b| == |e| > 0 && b[0]
    ensures (forall hs, l :: Towers(hs, |b|, l) ==> Finds(b, e, hs, l)) <==> KeyLeads(b, e)
  {
    if KeyLeads(b, e) {
      forall hs, l | Towers(hs, |b|, l) ensures Finds(b, e, hs, l) {
        assert forall k :: 0 <= k < |hs| ==> hs[k] > 0;
        DescendStops(b, hs, 0, l);
        var j := Descend(b, hs, 0, l);
        assert KeyLeadsAt(b, e, j);
      }
    } else {
      var j :| 0 <= j < |b| && !KeyLeadsAt(b, e, j);
      SpikeStops(b, j);
      assert !Finds(b, e, Spike(|b|, j), if j == 0 then 0 else 1);
    }
  }
}
