/** The mathematics of red-black trees: functional trees, one-hole contexts, and
    what recolouring and rotating them keeps. The node identities carried here tie
    a tree to the heap; see RedBlackTree. */
module RedBlackShape {
  import opened Text
  import opened Assoc

  datatype Color = Red | Black

  /** A tree whose inner nodes are labelled with an identity of type Id. */
  datatype Tree<Id> =
    | E
    | N(l: Tree<Id>, id: Id, c: Color, k: Text, v: Text, r: Tree<Id>)
  {
    function Col(): Color { if E? then Black else c }
  }

  /** A tree with a hole, seen from the hole: the hole is the left (or right) child
      of `id`, and `up` is the rest of the way to the root. */
  datatype Ctx<Id> =
    | Top
    | Lft(up: Ctx<Id>, id: Id, c: Color, k: Text, v: Text, r: Tree<Id>)
    | Rgt(up: Ctx<Id>, l: Tree<Id>, id: Id, c: Color, k: Text, v: Text)
  {
    /** The colour of the hole's parent; the sentinel above the root is black. */
    function Col(): Color { if Top? then Black else c }

    ghost function Depth(): nat { if Top? then 0 else 1 + up.Depth() }
  }

  /** The subtree one level up, once the hole is filled with t. */
  function Lift<Id>(c: Ctx<Id>, t: Tree<Id>): Tree<Id>
    requires !c.Top?
  {
    match c
    case Lft(_, id, col, k, v, r) => N(t, id, col, k, v, r)
    case Rgt(_, l, id, col, k, v) => N(l, id, col, k, v, t)
  }

  /** One level down: the context of the left (right) subtree of t. */
  function GoLeft<Id>(c: Ctx<Id>, t: Tree<Id>): Ctx<Id>
    requires t.N?
  {
    Lft(c, t.id, t.c, t.k, t.v, t.r)
  }

  function GoRight<Id>(c: Ctx<Id>, t: Tree<Id>): Ctx<Id>
    requires t.N?
  {
    Rgt(c, t.l, t.id, t.c, t.k, t.v)
  }

  function Fill<Id>(c: Ctx<Id>, t: Tree<Id>): Tree<Id>
    decreases c
  {
    if c.Top? then t else Fill(c.up, Lift(c, t))
  }

  // ----- contents, in order

  function Inorder<Id>(t: Tree<Id>): seq<Pair>
  {
    if t.E? then [] else Inorder(t.l) + [(t.k, t.v)] + Inorder(t.r)
  }

  function Before<Id>(c: Ctx<Id>): seq<Pair>
  {
    match c
    case Top => []
    case Lft(up, _, _, _, _, _) => Before(up)
    case Rgt(up, l, _, _, k, v) => Before(up) + Inorder(l) + [(k, v)]
  }

  function After<Id>(c: Ctx<Id>): seq<Pair>
  {
    match c
    case Top => []
    case Lft(up, _, _, k, v, r) => [(k, v)] + Inorder(r) + After(up)
    case Rgt(up, _, _, _, _, _) => After(up)
  }

  function Items<Id>(c: Ctx<Id>, t: Tree<Id>): seq<Pair>
  {
    Before(c) + Inorder(t) + After(c)
  }

  lemma LiftItems<Id>(c: Ctx<Id>, t: Tree<Id>)
    requires !c.Top?
    ensures Items(c.up, Lift(c, t)) == Items(c, t)
  {
  }

  lemma {:induction false} FillItems<Id>(c: Ctx<Id>, t: Tree<Id>)
    ensures Inorder(Fill(c, t)) == Items(c, t)
    decreases c
  {
    if c.Top? {
      assert Items(c, t) == Inorder(t);
    } else {
      FillItems(c.up, Lift(c, t));
      LiftItems(c, t);
    }
  }

  // ----- balance

  function Blacks(c: Color): nat { if c.Black? then 1 else 0 }

  function Bh<Id>(t: Tree<Id>): nat
  {
    if t.E? then 0 else Bh(t.l) + Blacks(t.c)
  }

  /** Equal black heights everywhere, and no red node with a red child. */
  predicate Rb<Id>(t: Tree<Id>)
  {
    t.N? ==>
      && Rb(t.l) && Rb(t.r) && Bh(t.l) == Bh(t.r)
      && (t.c.Red? ==> t.l.Col().Black? && t.r.Col().Black?)
  }

  /** Everything outside the hole is as it should be, provided that the hole is
      filled with a tree of black height h; the root, if outside, is black. */
  predicate CtxRb<Id>(c: Ctx<Id>, h: nat)
  {
    match c
    case Top => true
    case Lft(up, _, col, _, _, r) =>
      && Rb(r) && Bh(r) == h
      && (col.Red? ==> !up.Top? && up.Col().Black? && r.Col().Black?)
      && CtxRb(up, h + Blacks(col))
    case Rgt(up, l, _, col, _, _) =>
      && Rb(l) && Bh(l) == h
      && (col.Red? ==> !up.Top? && up.Col().Black? && l.Col().Black?)
      && CtxRb(up, h + Blacks(col))
  }

  predicate RedBlack<Id>(t: Tree<Id>)
  {
    Rb(t) && t.Col().Black?
  }

  /** A subtree of the right black height closes the context, if no two reds meet at the seam. */
  lemma {:induction false} FillRb<Id>(c: Ctx<Id>, t: Tree<Id>)
    requires Rb(t) && CtxRb(c, Bh(t))
    requires t.Col().Black? || c.Col().Black?
    ensures Rb(Fill(c, t))
    ensures !c.Top? ==> Fill(c, t).Col().Black?
    decreases c
  {
    if !c.Top? {
      FillRb(c.up, Lift(c, t));
    }
  }

  /** t sits in c without any breach of the rules. */
  predicate Fits<Id>(c: Ctx<Id>, t: Tree<Id>)
  {
    Rb(t) && CtxRb(c, Bh(t)) && (t.Col().Red? ==> !c.Top? && c.Col().Black?)
  }

  lemma FitsBelow<Id>(c: Ctx<Id>, t: Tree<Id>)
    requires Fits(c, t) && t.N?
    ensures Fits(GoLeft(c, t), t.l) && Fits(GoRight(c, t), t.r)
  {
  }

  // ----- order

  ghost predicate Sorted(s: seq<Pair>)
  {
    forall i, j :: 0 <= i < j < |s| ==> Less(s[i].0, s[j].0)
  }

  ghost predicate AllLess(s: seq<Pair>, k: Text)
  {
    forall i :: 0 <= i < |s| ==> Less(s[i].0, k)
  }

  ghost predicate AllGreater(k: Text, s: seq<Pair>)
  {
    forall i :: 0 <= i < |s| ==> Less(k, s[i].0)
  }

  lemma SortedDistinct(s: seq<Pair>)
    requires Sorted(s)
    ensures DistinctKeys(s)
  {
    forall i, j | 0 <= i < j < |s| ensures s[i].0 != s[j].0 {
      Trichotomy(s[i].0, s[j].0);
    }
  }

  /** What the descent of a search knows: going left of k bounds everything from k on. */
  lemma BoundRight(a: seq<Pair>, k: Text, v: Text, b: seq<Pair>, key: Text)
    requires Sorted(a + [(k, v)] + b) && Less(key, k)
    ensures AllGreater(key, [(k, v)] + b)
  {
    var s := a + [(k, v)] + b;
    forall i | 0 <= i < |b| ensures Less(key, b[i].0) {
      assert s[|a|].0 == k && s[|a| + 1 + i] == b[i];
      LessTransitive(key, k, b[i].0);
    }
  }

  lemma BoundLeft(a: seq<Pair>, k: Text, v: Text, b: seq<Pair>, key: Text)
    requires Sorted(a + [(k, v)] + b) && Less(k, key)
    ensures AllLess(a + [(k, v)], key)
  {
    var s := a + [(k, v)] + b;
    forall i | 0 <= i < |a| ensures Less(a[i].0, key) {
      assert s[|a|].0 == k && s[i] == a[i];
      LessTransitive(a[i].0, k, key);
    }
  }

  lemma SortedInsert(a: seq<Pair>, k: Text, v: Text, b: seq<Pair>)
    requires Sorted(a + b) && AllLess(a, k) && AllGreater(k, b)
    ensures Sorted(a + [(k, v)] + b)
    ensures !HasKey(a + b, k)
    ensures ToMap(a + [(k, v)] + b) == ToMap(a + b)[k := v]
  {
    var s := a + [(k, v)] + b;
    forall i, j | 0 <= i < j < |s| ensures Less(s[i].0, s[j].0) {
      if i != |a| && j != |a| {
        var i', j' := if i < |a| then i else i - 1, if j < |a| then j else j - 1;
        assert s[i] == (a + b)[i'] && s[j] == (a + b)[j'];
      }
    }
    forall i | 0 <= i < |a + b| ensures (a + b)[i].0 != k {
      Trichotomy((a + b)[i].0, k);
      Trichotomy(k, (a + b)[i].0);
    }
    InsertAt(a, k, v, b);
  }

  lemma SortedRemove(a: seq<Pair>, k: Text, v: Text, b: seq<Pair>)
    requires Sorted(a + [(k, v)] + b)
    ensures Sorted(a + b)
    ensures ToMap(a + b) == ToMap(a + [(k, v)] + b) - {k}
  {
    var s := a + [(k, v)] + b;
    forall i, j | 0 <= i < j < |a + b| ensures Less((a + b)[i].0, (a + b)[j].0) {
      var i', j' := if i < |a| then i else i + 1, if j < |a| then j else j + 1;
      assert s[i'] == (a + b)[i] && s[j'] == (a + b)[j];
    }
    SortedDistinct(s);
    RemoveAt(a, k, v, b);
  }

  // ----- rotations

  function RotateLeft<Id>(t: Tree<Id>): Tree<Id>
    requires t.N? && t.r.N?
  {
    N(N(t.l, t.id, t.c, t.k, t.v, t.r.l), t.r.id, t.r.c, t.r.k, t.r.v, t.r.r)
  }

  function RotateRight<Id>(t: Tree<Id>): Tree<Id>
    requires t.N? && t.l.N?
  {
    N(t.l.l, t.l.id, t.l.c, t.l.k, t.l.v, N(t.l.r, t.id, t.c, t.k, t.v, t.r))
  }

  /** Rotations are inverse to each other and keep the in-order contents. */
  lemma RotateLeftKeeps<Id>(t: Tree<Id>)
    requires t.N? && t.r.N?
    ensures Inorder(RotateLeft(t)) == Inorder(t)
    ensures RotateRight(RotateLeft(t)) == t
  {
  }

  lemma RotateRightKeeps<Id>(t: Tree<Id>)
    requires t.N? && t.l.N?
    ensures Inorder(RotateRight(t)) == Inorder(t)
    ensures RotateLeft(RotateRight(t)) == t
  {
    RotateLeftKeeps(RotateRight(t));
  }

  // ----- height

  ghost function Pow2(n: nat): nat { if n == 0 then 1 else 2 * Pow2(n - 1) }

  ghost function Size<Id>(t: Tree<Id>): nat
  {
    if t.E? then 0 else Size(t.l) + 1 + Size(t.r)
  }

  ghost function Height<Id>(t: Tree<Id>): nat
  {
    if t.E? then 0 else 1 + if Height(t.l) > Height(t.r) then Height(t.l) else Height(t.r)
  }

  lemma {:induction false} SizeIsLength<Id>(t: Tree<Id>)
    ensures Size(t) == |Inorder(t)|
  {
    if t.N? {
      SizeIsLength(t.l);
      SizeIsLength(t.r);
    }
  }

  lemma {:induction false} BhBounds<Id>(t: Tree<Id>)
    requires Rb(t)
    ensures Height(t) <= 2 * Bh(t) + (1 - Blacks(t.Col()))
    ensures Pow2(Bh(t)) <= Size(t) + 1
  {
    if t.N? {
      BhBounds(t.l);
      BhBounds(t.r);
    }
  }

  lemma {:induction false} Pow2Double(n: nat)
    ensures Pow2(2 * n) == Pow2(n) * Pow2(n)
  {
    if n > 0 {
      Pow2Double(n - 1);
      assert Pow2(2 * n) == 2 * Pow2(2 * n - 1) == 4 * Pow2(2 * (n - 1));
    }
  }

  lemma {:induction false} Pow2Monotone(m: nat, n: nat)
    requires m <= n
    ensures Pow2(m) <= Pow2(n)
  {
    if m < n {
      Pow2Monotone(m, n - 1);
    }
  }

  lemma SquareMonotone(p: nat, n: nat)
    requires p <= n
    ensures p * p <= n * n
  {
    assert p * p <= p * n <= n * n;
  }

  /** Height is at most twice the logarithm of the number of keys plus one. */
  lemma HeightBound<Id>(t: Tree<Id>)
    requires RedBlack(t)
    ensures Pow2(Height(t)) <= (Size(t) + 1) * (Size(t) + 1)
  {
    BhBounds(t);
    Pow2Monotone(Height(t), 2 * Bh(t));
    Pow2Double(Bh(t));
    SquareMonotone(Pow2(Bh(t)), Size(t) + 1);
  }

  // ----- what the insertion fixup does to shapes

  /** The sibling of the hole's parent. */
  function Uncle<Id>(c: Ctx<Id>): Tree<Id>
    requires !c.Top? && !c.up.Top?
  {
    if c.up.Lft? then c.up.r else c.up.l
  }

  function Paint<Id>(c: Ctx<Id>, col: Color): Ctx<Id>
    requires !c.Top?
  {
    match c
    case Lft(up, id, _, k, v, r) => Lft(up, id, col, k, v, r)
    case Rgt(up, l, id, _, k, v) => Rgt(up, l, id, col, k, v)
  }

  /** The hole's sibling with its root painted. */
  function PaintSibling<Id>(c: Ctx<Id>, col: Color): Ctx<Id>
    requires !c.Top? && (if c.Lft? then c.r else c.l).N?
  {
    match c
    case Lft(up, id, cc, k, v, r) => Lft(up, id, cc, k, v, r.(c := col))
    case Rgt(up, l, id, cc, k, v) => Rgt(up, l.(c := col), id, cc, k, v)
  }

  /** Loop invariant of the fixup: everything is in order except that the red
      root of t may hang under a red parent. */
  ghost predicate RedPending<Id>(c: Ctx<Id>, t: Tree<Id>)
  {
    t.N? && t.c.Red? && Rb(t) && CtxRb(c, Bh(t))
  }

  /** Above a red parent there is a black grandparent with another subtree of the same black height. */
  lemma AboveRed<Id>(c: Ctx<Id>, h: nat)
    requires CtxRb(c, h) && c.Col().Red?
    ensures !c.up.Top? && c.up.c.Black? && CtxRb(c.up, h) && CtxRb(c.up.up, h + 1)
    ensures Rb(Uncle(c)) && Bh(Uncle(c)) == h
    ensures var s := if c.Lft? then c.r else c.l; Rb(s) && Bh(s) == h && s.Col().Black?
  {
    assert CtxRb(c.up, h);
  }

  /** A new red leaf leaves at most a red parent out of order. */
  lemma LeafPending<Id>(c: Ctx<Id>, t: Tree<Id>)
    requires Fits(c, E) && t.N? && t.l == t.r == E && t.c.Red?
    ensures RedPending(c, t) && Items(c, t) == Before(c) + [(t.k, t.v)] + After(c)
  {
    assert Inorder(t) == [] + [(t.k, t.v)] + [];
  }

  /** Parent and uncle red: both turn black, the grandparent turns red. */
  function RecolorUp<Id>(c: Ctx<Id>, t: Tree<Id>): Tree<Id>
    requires !c.Top? && !c.up.Top? && Uncle(c).N?
  {
    Lift(Paint(PaintSibling(c.up, Black), Red), Lift(Paint(c, Black), t))
  }

  lemma RecolorUpKeeps<Id>(c: Ctx<Id>, t: Tree<Id>)
    requires RedPending(c, t) && c.Col().Red? && Uncle(c).Col().Red?
    ensures RedPending(c.up.up, RecolorUp(c, t))
    ensures Items(c.up.up, RecolorUp(c, t)) == Items(c, t)
  {
    AboveRed(c, Bh(t));
    LiftItems(c, t);
    LiftItems(c.up, Lift(c, t));
    var p, u := Lift(Paint(c, Black), t), Uncle(c).(c := Black);
    assert Rb(p) && Rb(u) && Bh(p) == Bh(u) == Bh(t) + 1;
    assert Inorder(p) == Inorder(Lift(c, t)) && Inorder(u) == Inorder(Uncle(c));
  }

  /** Inner grandchild: one rotation at the parent makes it an outer one. */
  lemma InnerLeftKeeps<Id>(c: Ctx<Id>, t: Tree<Id>)
    requires RedPending(c, t) && c.Rgt? && c.c.Red? && c.up.Lft?
    ensures var t' := RotateLeft(Lift(c, t));
            RedPending(GoLeft(c.up, t'), t'.l) && Items(GoLeft(c.up, t'), t'.l) == Items(c, t)
  {
    var t' := RotateLeft(Lift(c, t));
    LiftItems(c, t);
    RotateLeftKeeps(Lift(c, t));
    LiftItems(GoLeft(c.up, t'), t'.l);
  }

  lemma InnerRightKeeps<Id>(c: Ctx<Id>, t: Tree<Id>)
    requires RedPending(c, t) && c.Lft? && c.c.Red? && c.up.Rgt?
    ensures var t' := RotateRight(Lift(c, t));
            RedPending(GoRight(c.up, t'), t'.r) && Items(GoRight(c.up, t'), t'.r) == Items(c, t)
  {
    var t' := RotateRight(Lift(c, t));
    LiftItems(c, t);
    RotateRightKeeps(Lift(c, t));
    LiftItems(GoRight(c.up, t'), t'.r);
  }

  /** Outer grandchild: parent black, grandparent red, one rotation at the grandparent. */
  lemma OuterLeftKeeps<Id>(c: Ctx<Id>, t: Tree<Id>)
    requires RedPending(c, t) && c.Lft? && c.c.Red? && c.up.Lft? && c.up.r.Col().Black?
    ensures var t' := RotateRight(Lift(Paint(c.up, Red), Lift(Paint(c, Black), t)));
            && t'.l == t && RedPending(GoLeft(c.up.up, t'), t)
            && t'.c.Black? && Items(GoLeft(c.up.up, t'), t) == Items(c, t)
  {
    var g := Lift(Paint(c.up, Red), Lift(Paint(c, Black), t));
    AboveRed(c, Bh(t));
    LiftItems(c, t);
    LiftItems(c.up, Lift(c, t));
    assert Inorder(g) == Inorder(Lift(c.up, Lift(c, t)));
    RotateRightKeeps(g);
    LiftItems(GoLeft(c.up.up, RotateRight(g)), t);
  }

  lemma OuterRightKeeps<Id>(c: Ctx<Id>, t: Tree<Id>)
    requires RedPending(c, t) && c.Rgt? && c.c.Red? && c.up.Rgt? && c.up.l.Col().Black?
    ensures var t' := RotateLeft(Lift(Paint(c.up, Red), Lift(Paint(c, Black), t)));
            && t'.r == t && RedPending(GoRight(c.up.up, t'), t)
            && t'.c.Black? && Items(GoRight(c.up.up, t'), t) == Items(c, t)
  {
    var g := Lift(Paint(c.up, Red), Lift(Paint(c, Black), t));
    AboveRed(c, Bh(t));
    LiftItems(c, t);
    LiftItems(c.up, Lift(c, t));
    assert Inorder(g) == Inorder(Lift(c.up, Lift(c, t)));
    RotateLeftKeeps(g);
    LiftItems(GoRight(c.up.up, RotateLeft(g)), t);
  }

  // ----- what the deletion fixup does to shapes

  function Sibling<Id>(c: Ctx<Id>): Tree<Id>
    requires !c.Top?
  {
    if c.Lft? then c.r else c.l
  }

  /** The context with another tree in the sibling's place. */
  function WithSibling<Id>(c: Ctx<Id>, s: Tree<Id>): Ctx<Id>
    requires !c.Top?
  {
    match c
    case Lft(up, id, cc, k, v, _) => Lft(up, id, cc, k, v, s)
    case Rgt(up, _, id, cc, k, v) => Rgt(up, s, id, cc, k, v)
  }

  /** Loop invariant of the fixup: paths through t are one black node short, and
      t may have a red root with a red child or under a red parent. */
  ghost predicate BlackDue<Id>(c: Ctx<Id>, t: Tree<Id>)
  {
    (t.N? ==> Rb(t.(c := Black))) && CtxRb(c, Bh(t) + 1)
  }

  /** The sibling is never the sentinel. */
  lemma DueSibling<Id>(c: Ctx<Id>, t: Tree<Id>)
    requires BlackDue(c, t) && !c.Top?
    ensures Sibling(c).N? && Rb(Sibling(c)) && Bh(Sibling(c)) == Bh(t) + 1
    ensures Sibling(c).c.Black? ==> Bh(Sibling(c).l) == Bh(Sibling(c).r) == Bh(t)
    ensures Sibling(c).c.Red? ==>
              c.c.Black? && Sibling(c).l.N? && Sibling(c).r.N? && Sibling(c).l.c.Black? && Sibling(c).r.c.Black?
  {
  }

  /** The seven lines with a red sibling: it turns black, the parent red, the sibling
      moves above the parent; t has a black sibling afterwards, one level deeper. */
  lemma RedSiblingLeft<Id>(c: Ctx<Id>, t: Tree<Id>)
    requires BlackDue(c, t) && t.Col().Black? && c.Lft? && c.r.Col().Red?
    ensures c.r.N?
    ensures var u := RotateLeft(Lift(PaintSibling(Paint(c, Red), Black), t));
            var c' := GoLeft(GoLeft(c.up, u), u.l);
            && u.l.N? && u.l.l == t && BlackDue(c', t) && c'.r.Col().Black? && c'.c.Red?
            && Items(c', t) == Items(c, t)
  {
    DueSibling(c, t);
    var v := Lift(PaintSibling(Paint(c, Red), Black), t);
    var u := RotateLeft(v);
    LiftItems(c, t);
    RotateLeftKeeps(v);
    LiftItems(GoLeft(c.up, u), u.l);
    LiftItems(GoLeft(GoLeft(c.up, u), u.l), t);
  }

  lemma RedSiblingRight<Id>(c: Ctx<Id>, t: Tree<Id>)
    requires BlackDue(c, t) && t.Col().Black? && c.Rgt? && c.l.Col().Red?
    ensures c.l.N?
    ensures var u := RotateRight(Lift(PaintSibling(Paint(c, Red), Black), t));
            var c' := GoRight(GoRight(c.up, u), u.r);
            && u.r.N? && u.r.r == t && BlackDue(c', t) && c'.l.Col().Black? && c'.c.Red?
            && Items(c', t) == Items(c, t)
  {
    DueSibling(c, t);
    var v := Lift(PaintSibling(Paint(c, Red), Black), t);
    var u := RotateRight(v);
    LiftItems(c, t);
    RotateRightKeeps(v);
    LiftItems(GoRight(c.up, u), u.r);
    LiftItems(GoRight(GoRight(c.up, u), u.r), t);
  }

  /** Black sibling with black children: it turns red and the debt moves to the parent. */
  lemma BlackNephews<Id>(c: Ctx<Id>, t: Tree<Id>)
    requires BlackDue(c, t) && t.Col().Black? && !c.Top? && Sibling(c).Col().Black?
    requires Sibling(c).N? && Sibling(c).l.Col().Black? && Sibling(c).r.Col().Black?
    ensures BlackDue(c.up, Lift(PaintSibling(c, Red), t))
    ensures Items(c.up, Lift(PaintSibling(c, Red), t)) == Items(c, t)
  {
    hide Before, After;
    DueSibling(c, t);
    LiftItems(c, t);
    PaintedRed(Sibling(c));
  }

  lemma PaintedRed<Id>(u: Tree<Id>)
    requires u.N? && u.c.Black? && Rb(u) && u.l.Col().Black? && u.r.Col().Black?
    ensures var v := u.(c := Red); Rb(v) && Bh(v) == Bh(u) - 1 && Inorder(v) == Inorder(u)
  {
  }

  /** Near nephew red, far one black: a rotation at the sibling makes the far one red. */
  lemma NearNephewLeft<Id>(c: Ctx<Id>, t: Tree<Id>)
    requires BlackDue(c, t) && c.Lft? && c.r.N? && c.r.c.Black? && c.r.l.Col().Red? && c.r.r.Col().Black?
    ensures var s := RotateRight(c.r.(c := Red, l := c.r.l.(c := Black)));
            && BlackDue(WithSibling(c, s), t) && s.c.Black? && s.r.Col().Red?
            && Items(WithSibling(c, s), t) == Items(c, t)
  {
    var v := c.r.(c := Red, l := c.r.l.(c := Black));
    assert Inorder(v) == Inorder(c.r);
    RotateRightKeeps(v);
    assert Rb(c.r.l);
  }

  lemma NearNephewRight<Id>(c: Ctx<Id>, t: Tree<Id>)
    requires BlackDue(c, t) && c.Rgt? && c.l.N? && c.l.c.Black? && c.l.r.Col().Red? && c.l.l.Col().Black?
    ensures var s := RotateLeft(c.l.(c := Red, r := c.l.r.(c := Black)));
            && BlackDue(WithSibling(c, s), t) && s.c.Black? && s.l.Col().Red?
            && Items(WithSibling(c, s), t) == Items(c, t)
  {
    var v := c.l.(c := Red, r := c.l.r.(c := Black));
    assert Inorder(v) == Inorder(c.l);
    RotateLeftKeeps(v);
    assert Rb(c.l.r);
  }

  /** Far nephew red: one rotation at the parent pays the debt. */
  lemma FarNephewLeft<Id>(c: Ctx<Id>, t: Tree<Id>)
    requires BlackDue(c, t) && t.Col().Black? && c.Lft? && c.r.N? && c.r.c.Black? && c.r.r.Col().Red?
    ensures var u := RotateLeft(Lift(WithSibling(Paint(c, Black), c.r.(c := c.c, r := c.r.r.(c := Black))), t));
            Fits(c.up, u) && Items(c.up, u) == Items(c, t)
  {
    DueSibling(c, t);
    var s := c.r.(c := c.c, r := c.r.r.(c := Black));
    assert Inorder(s) == Inorder(c.r);
    RotateLeftKeeps(Lift(WithSibling(Paint(c, Black), s), t));
    LiftItems(c, t);
    assert Rb(s.r) && Bh(s.r) == Bh(t) + 1;
  }

  lemma FarNephewRight<Id>(c: Ctx<Id>, t: Tree<Id>)
    requires BlackDue(c, t) && t.Col().Black? && c.Rgt? && c.l.N? && c.l.c.Black? && c.l.l.Col().Red?
    ensures var u := RotateRight(Lift(WithSibling(Paint(c, Black), c.l.(c := c.c, l := c.l.l.(c := Black))), t));
            Fits(c.up, u) && Items(c.up, u) == Items(c, t)
  {
    DueSibling(c, t);
    var s := c.l.(c := c.c, l := c.l.l.(c := Black));
    assert Inorder(s) == Inorder(c.l);
    RotateRightKeeps(Lift(WithSibling(Paint(c, Black), s), t));
    LiftItems(c, t);
    assert Rb(s.l) && Bh(s.l) == Bh(t) + 1;
  }

  /** A legal subtree in a legal context makes a legal tree. */
  lemma FitsWhole<Id>(c: Ctx<Id>, t: Tree<Id>)
    requires Fits(c, t)
    ensures RedBlack(Fill(c, t)) && Inorder(Fill(c, t)) == Items(c, t)
  {
    FillRb(c, t);
    FillItems(c, t);
  }

  /** At the root, or at a red node, painting it black pays the debt. */
  lemma DuePaid<Id>(c: Ctx<Id>, t: Tree<Id>)
    requires BlackDue(c, t) && (c.Top? || t.Col().Red?)
    ensures var t' := if t.E? then t else t.(c := Black);
            Fits(c, t') && Items(c, t') == Items(c, t)
  {
  }

  lemma WholeDue<Id>(t: Tree<Id>)
    requires RedBlack(t)
    ensures BlackDue(Top, t) && Items(Top, t) == Inorder(t)
  {
  }

  // ----- the leftmost node

  function MinCtx<Id>(c: Ctx<Id>, t: Tree<Id>): Ctx<Id>
    requires t.N?
    decreases t
  {
    if t.l.E? then c else MinCtx(GoLeft(c, t), t.l)
  }

  function MinTree<Id>(t: Tree<Id>): Tree<Id>
    requires t.N?
    ensures MinTree(t).N? && MinTree(t).l.E?
  {
    if t.l.E? then t else MinTree(t.l)
  }

  lemma {:induction false} MinKeeps<Id>(c: Ctx<Id>, t: Tree<Id>)
    requires t.N?
    ensures Before(MinCtx(c, t)) == Before(c)
    ensures Inorder(MinTree(t)) + After(MinCtx(c, t)) == Inorder(t) + After(c)
    decreases t
  {
    if t.l.N? {
      MinKeeps(GoLeft(c, t), t.l);
      assert Inorder(t.l) + After(GoLeft(c, t)) == Inorder(t) + After(c);
    }
  }

  lemma {:induction false} MinFits<Id>(c: Ctx<Id>, t: Tree<Id>)
    requires t.N? && Fits(c, t)
    ensures Fits(MinCtx(c, t), MinTree(t))
    decreases t
  {
    if t.l.N? {
      FitsBelow(c, t);
      MinFits(GoLeft(c, t), t.l);
    }
  }

  /** What takes the place of a node that has at most one child. */
  function OnlyChild<Id>(t: Tree<Id>): Tree<Id>
    requires t.N?
  {
    if t.l.N? then t.l else t.r
  }

  lemma SpliceBalance<Id>(c: Ctx<Id>, t: Tree<Id>)
    requires Fits(c, t) && t.N? && (t.l.E? || t.r.E?)
    ensures t.c.Black? ==> BlackDue(c, OnlyChild(t))
    ensures t.c.Red? ==> Fits(c, OnlyChild(t))
  {
    var u := OnlyChild(t);
    assert Bh(t.l) == Bh(t.r) == Bh(u) == 0 && Rb(u);
    if u.N? {
      var u' := u.(c := Black);
      assert u'.l == u.l && u'.r == u.r && Rb(u');
    }
  }

  lemma SpliceInorder<Id>(t: Tree<Id>)
    requires t.N? && t.l.E?
    ensures Inorder(t) == [(t.k, t.v)] + Inorder(OnlyChild(t))
  {
  }

  /** Deleting a node with at most one child drops its pair. */
  lemma SpliceItems<Id>(c: Ctx<Id>, t: Tree<Id>)
    requires t.N? && (t.l.E? || t.r.E?) && Sorted(Items(c, t))
    ensures Sorted(Items(c, OnlyChild(t)))
    ensures ToMap(Items(c, OnlyChild(t))) == ToMap(Items(c, t)) - {t.k}
  {
    var a, b := Before(c) + Inorder(t.l), Inorder(t.r) + After(c);
    assert Items(c, t) == a + [(t.k, t.v)] + b;
    assert Items(c, OnlyChild(t)) == a + b;
    SortedRemove(a, t.k, t.v, b);
  }

  /** The successor's place once its pair has moved up into t. */
  function SuccessorCtx<Id>(c: Ctx<Id>, t: Tree<Id>): Ctx<Id>
    requires t.N? && t.r.N?
  {
    var y := MinTree(t.r);
    MinCtx(Rgt(c, t.l, t.id, t.c, y.k, y.v), t.r)
  }

  lemma SuccessorFits<Id>(c: Ctx<Id>, t: Tree<Id>)
    requires t.N? && t.r.N? && Fits(c, t)
    ensures Fits(SuccessorCtx(c, t), MinTree(t.r))
    ensures Before(SuccessorCtx(c, t)) == Before(c) + Inorder(t.l) + [(MinTree(t.r).k, MinTree(t.r).v)]
    ensures Inorder(t.r) + After(c) == Inorder(MinTree(t.r)) + After(SuccessorCtx(c, t))
  {
    var d := Rgt(c, t.l, t.id, t.c, MinTree(t.r).k, MinTree(t.r).v);
    FitsBelow(c, t);
    MinFits(d, t.r);
    MinKeeps(d, t.r);
  }

  /** Deleting a node with two children: its successor's pair moves up in its place,
      the successor leaves, and just the node's own pair is gone. */
  lemma SwapItems<Id>(c: Ctx<Id>, t: Tree<Id>)
    requires t.N? && t.r.N? && Sorted(Items(c, t)) && Fits(c, t)
    ensures var d, u := SuccessorCtx(c, t), OnlyChild(MinTree(t.r));
            Sorted(Items(d, u)) && ToMap(Items(d, u)) == ToMap(Items(c, t)) - {t.k}
  {
    hide Sorted, Fits, Inorder;
    var y, d := MinTree(t.r), SuccessorCtx(c, t);
    SuccessorFits(c, t);
    SpliceInorder(y);
    var a, b := Before(c) + Inorder(t.l), Inorder(t.r) + After(c);
    ItemsAround(c, t);
    assert Items(d, OnlyChild(y)) == a + b;
    SortedRemove(a, t.k, t.v, b);
  }

  /** What is left to repair after the successor has left, by its colour. */
  lemma SuccessorLeaves<Id>(c: Ctx<Id>, t: Tree<Id>)
    requires t.N? && t.r.N? && Sorted(Items(c, t)) && Fits(c, t)
    ensures var d, u := SuccessorCtx(c, t), OnlyChild(MinTree(t.r));
            && Sorted(Items(d, u)) && ToMap(Items(d, u)) == ToMap(Items(c, t)) - {t.k}
            && (MinTree(t.r).c.Black? ==> BlackDue(d, u)) && (MinTree(t.r).c.Red? ==> Fits(d, u))
  {
    SuccessorFits(c, t);
    SpliceBalance(SuccessorCtx(c, t), MinTree(t.r));
    SwapItems(c, t);
  }

  /** Overwriting one value in place overwrites it in the map, and nothing else. */
  lemma RevalueKeeps<Id>(c: Ctx<Id>, t: Tree<Id>, v: Text)
    requires t.N? && Sorted(Items(c, t)) && Fits(c, t)
    ensures var u := t.(v := v);
            && Fits(c, u) && Sorted(Items(c, u)) && ToMap(Items(c, u)) == ToMap(Items(c, t))[t.k := v]
  {
    RevalueItems(c, t, v);
    var s, i := Items(c, t), |Before(c)| + |Inorder(t.l)|;
    SortedDistinct(s);
    ReplaceAt(s, i, v);
  }

  lemma RevalueItems<Id>(c: Ctx<Id>, t: Tree<Id>, v: Text)
    requires t.N?
    ensures var i := |Before(c)| + |Inorder(t.l)|;
            i < |Items(c, t)| && Items(c, t)[i] == (t.k, t.v) && Items(c, t.(v := v)) == Items(c, t)[i := (t.k, v)]
  {
    hide Items, Inorder, Before, After;
    ItemsAround(c, t);
    ItemsAround(c, t.(v := v));
  }

  /** The pair at the root of t, between what comes before and what comes after it. */
  lemma ItemsAround<Id>(c: Ctx<Id>, t: Tree<Id>)
    requires t.N?
    ensures Items(c, t) == (Before(c) + Inorder(t.l)) + [(t.k, t.v)] + (Inorder(t.r) + After(c))
  {
    hide Before, After;
  }
}
