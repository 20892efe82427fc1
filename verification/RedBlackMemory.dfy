/** Red-black trees laid out in memory: which finite memories hold which tree,
    and what the link surgery of kvs_rbtree.c does to them. */
module RedBlackMemory {
  import opened Text
  import opened RedBlackShape

  /** The fields of one node. */
  datatype Rec<Id> = Rec(color: Color, left: Id, right: Id, parent: Id, key: Text, value: Text)

  type Mem<Id(==)> = map<Id, Rec<Id>>

  ghost function Ids<Id>(t: Tree<Id>): set<Id>
  {
    if t.E? then {} else {t.id} + Ids(t.l) + Ids(t.r)
  }

  ghost function PathIds<Id>(c: Ctx<Id>): set<Id>
  {
    match c
    case Top => {}
    case Lft(up, id, _, _, _, r) => {id} + Ids(r) + PathIds(up)
    case Rgt(up, l, id, _, _, _) => {id} + Ids(l) + PathIds(up)
  }

  /** No node occurs twice. */
  ghost predicate Once<Id>(t: Tree<Id>)
  {
    t.N? ==>
      t.id !in Ids(t.l) && t.id !in Ids(t.r) && Ids(t.l) !! Ids(t.r) && Once(t.l) && Once(t.r)
  }

  ghost predicate PathOnce<Id>(c: Ctx<Id>)
  {
    match c
    case Top => true
    case Lft(up, id, _, _, _, r) =>
      id !in Ids(r) && id !in PathIds(up) && Ids(r) !! PathIds(up) && Once(r) && PathOnce(up)
    case Rgt(up, l, id, _, _, _) =>
      id !in Ids(l) && id !in PathIds(up) && Ids(l) !! PathIds(up) && Once(l) && PathOnce(up)
  }

  /** What is reachable from x is t, with x's parent link at p. */
  ghost predicate Rep<Id>(m: Mem<Id>, t: Tree<Id>, x: Id, p: Id, nil: Id)
  {
    if t.E? then x == nil
    else
      && x == t.id && x != nil && x in m
      && m[x].parent == p && m[x].color == t.c && m[x].key == t.k && m[x].value == t.v
      && Rep(m, t.l, m[x].left, x, nil) && Rep(m, t.r, m[x].right, x, nil)
  }

  /** What surrounds the subtree at x, from its parent p up to the root, is c. */
  ghost predicate PathRep<Id>(m: Mem<Id>, c: Ctx<Id>, x: Id, p: Id, root: Id, nil: Id)
  {
    if c.Top? then x == root && p == nil
    else
      && p == c.id && p != nil && p in m
      && m[p].color == c.c && m[p].key == c.k && m[p].value == c.v
      && (if c.Lft? then m[p].left == x && Rep(m, c.r, m[p].right, p, nil)
          else m[p].right == x && Rep(m, c.l, m[p].left, p, nil))
      && PathRep(m, c.up, p, m[p].parent, root, nil)
  }

  /** Memory m holds the tree c[t], with t's root at x and x's parent at p. */
  ghost predicate At<Id>(m: Mem<Id>, c: Ctx<Id>, t: Tree<Id>, x: Id, p: Id, root: Id, nil: Id)
  {
    && Rep(m, t, x, p, nil) && PathRep(m, c, x, p, root, nil)
    && Once(t) && PathOnce(c) && Ids(t) !! PathIds(c)
    && nil in m && m[nil].color.Black? && m[nil].left == m[nil].right == nil
  }

  // ----- what a change of memory leaves alone

  ghost predicate Same<Id>(m: Mem<Id>, m': Mem<Id>, s: set<Id>)
  {
    forall n :: n in s && n in m ==> n in m' && m'[n] == m[n]
  }

  lemma {:induction false} RepFrame<Id>(m: Mem<Id>, m': Mem<Id>, t: Tree<Id>, x: Id, p: Id, nil: Id)
    requires Rep(m, t, x, p, nil) && Same(m, m', Ids(t))
    ensures Rep(m', t, x, p, nil)
  {
    if t.N? {
      RepFrame(m, m', t.l, m[x].left, x, nil);
      RepFrame(m, m', t.r, m[x].right, x, nil);
    }
  }

  lemma {:induction false} PathFrame<Id>(m: Mem<Id>, m': Mem<Id>, c: Ctx<Id>, x: Id, p: Id, root: Id, nil: Id)
    requires PathRep(m, c, x, p, root, nil) && Same(m, m', PathIds(c))
    ensures PathRep(m', c, x, p, root, nil)
  {
    if !c.Top? {
      var s := if c.Lft? then c.r else c.l;
      RepFrame(m, m', s, if c.Lft? then m[p].right else m[p].left, p, nil);
      PathFrame(m, m', c.up, p, m[p].parent, root, nil);
    }
  }

  lemma {:induction false} RepIds<Id>(m: Mem<Id>, t: Tree<Id>, x: Id, p: Id, nil: Id)
    requires Rep(m, t, x, p, nil)
    ensures nil !in Ids(t) && Ids(t) <= m.Keys
  {
    if t.N? {
      RepIds(m, t.l, m[x].left, x, nil);
      RepIds(m, t.r, m[x].right, x, nil);
    }
  }

  lemma {:induction false} PathRepIds<Id>(m: Mem<Id>, c: Ctx<Id>, x: Id, p: Id, root: Id, nil: Id)
    requires PathRep(m, c, x, p, root, nil)
    ensures nil !in PathIds(c) && PathIds(c) <= m.Keys
  {
    if !c.Top? {
      RepIds(m, if c.Lft? then c.r else c.l, if c.Lft? then m[p].right else m[p].left, p, nil);
      PathRepIds(m, c.up, p, m[p].parent, root, nil);
    }
  }

  /** The root of a subtree may change its colour and its parent link. */
  lemma RootFrame<Id>(m: Mem<Id>, m': Mem<Id>, t: Tree<Id>, t': Tree<Id>, x: Id, p: Id, p': Id, nil: Id)
    requires t.N? && t' == t.(c := t'.Col()) && Once(t)
    requires Rep(m, t, x, p, nil) && Same(m, m', Ids(t.l) + Ids(t.r))
    requires x in m' && m'[x] == m[x].(color := t'.c, parent := p')
    ensures Rep(m', t', x, p', nil)
  {
    RepFrame(m, m', t.l, m[x].left, x, nil);
    RepFrame(m, m', t.r, m[x].right, x, nil);
  }

  // ----- moving the focus

  lemma Ascend<Id>(m: Mem<Id>, c: Ctx<Id>, t: Tree<Id>, x: Id, p: Id, root: Id, nil: Id)
    requires At(m, c, t, x, p, root, nil) && !c.Top?
    ensures p in m && At(m, c.up, Lift(c, t), p, m[p].parent, root, nil)
    ensures Ids(Lift(c, t)) + PathIds(c.up) == Ids(t) + PathIds(c)
  {
  }

  lemma Descend<Id>(m: Mem<Id>, c: Ctx<Id>, t: Tree<Id>, x: Id, p: Id, root: Id, nil: Id)
    requires At(m, c, t, x, p, root, nil) && t.N?
    ensures At(m, GoLeft(c, t), t.l, m[x].left, x, root, nil)
    ensures At(m, GoRight(c, t), t.r, m[x].right, x, root, nil)
    ensures Ids(t.l) + PathIds(GoLeft(c, t)) == Ids(t) + PathIds(c)
    ensures Ids(t.r) + PathIds(GoRight(c, t)) == Ids(t) + PathIds(c)
    ensures Lift(GoLeft(c, t), t.l) == t == Lift(GoRight(c, t), t.r)
  {
  }

  /** All the way up. */
  lemma {:induction false} AscendAll<Id>(m: Mem<Id>, c: Ctx<Id>, t: Tree<Id>, x: Id, p: Id, root: Id, nil: Id)
    requires At(m, c, t, x, p, root, nil)
    ensures At(m, Top, Fill(c, t), root, nil, root, nil)
    ensures Ids(Fill(c, t)) == Ids(t) + PathIds(c)
    decreases c
  {
    if !c.Top? {
      Ascend(m, c, t, x, p, root, nil);
      AscendAll(m, c.up, Lift(c, t), p, m[p].parent, root, nil);
    }
  }

  // ----- writes

  lemma Recolor<Id>(m: Mem<Id>, c: Ctx<Id>, t: Tree<Id>, x: Id, p: Id, root: Id, nil: Id, col: Color)
    requires At(m, c, t, x, p, root, nil) && t.N?
    ensures At(m[x := m[x].(color := col)], c, t.(c := col), x, p, root, nil)
    ensures Ids(t.(c := col)) == Ids(t)
  {
    var m' := m[x := m[x].(color := col)];
    RootFrame(m, m', t, t.(c := col), x, p, p, nil);
    PathFrame(m, m', c, x, p, root, nil);
  }

  /** A parent's record once y has taken x's place among its children. */
  function Relink<Id(==)>(r: Rec<Id>, x: Id, y: Id): Rec<Id>
  {
    if r.left == x then r.(left := y) else r.(right := y)
  }

  /** A new child y at the hole. */
  lemma PathPlug<Id>(m: Mem<Id>, m': Mem<Id>, c: Ctx<Id>, x: Id, y: Id, p: Id, root: Id, nil: Id)
    requires PathRep(m, c, x, p, root, nil) && PathOnce(c)
    requires p != nil ==> p in m && p in m' && m'[p] == if c.Lft? then m[p].(left := y) else m[p].(right := y)
    requires Same(m, m', PathIds(c) - {p})
    ensures PathRep(m', c, y, p, if p == nil then y else root, nil)
  {
    if !c.Top? {
      var s, a := if c.Lft? then c.r else c.l, if c.Lft? then m[p].right else m[p].left;
      RepFrame(m, m', s, a, p, nil);
      PathFrame(m, m', c.up, p, m[p].parent, root, nil);
    }
  }

  lemma PathRelink<Id>(m: Mem<Id>, m': Mem<Id>, c: Ctx<Id>, x: Id, y: Id, p: Id, root: Id, nil: Id)
    requires x != nil && PathRep(m, c, x, p, root, nil) && PathOnce(c) && x !in PathIds(c)
    requires p != nil ==> p in m && p in m' && m'[p] == Relink(m[p], x, y)
    requires Same(m, m', PathIds(c) - {p})
    ensures PathRep(m', c, y, p, if p == nil then y else root, nil)
  {
    if c.Rgt? {
      RepIds(m, c.l, m[p].left, p, nil);
    }
    PathPlug(m, m', c, x, y, p, root, nil);
  }

  /** The writes of a rotation that moves y above x: b changes sides, p gets y for x. */
  ghost predicate Rotated<Id>(m: Mem<Id>, m': Mem<Id>, x: Id, x': Rec<Id>, y: Id, y': Rec<Id>, b: Id, p: Id, nil: Id)
  {
    && {x, y} <= m.Keys && m'.Keys == m.Keys
    && m'[x] == x' && m'[y] == y'
    && (b != nil ==> b in m && m'[b] == m[b].(parent := x))
    && (p != nil ==> p in m && m'[p] == Relink(m[p], x, y))
    && forall n :: n in m && n != x && n != y && (n == nil || (n != b && n != p)) ==> m'[n] == m[n]
  }

  lemma RotatedSame<Id>(m: Mem<Id>, m': Mem<Id>, x: Id, x': Rec<Id>, y: Id, y': Rec<Id>, b: Id, p: Id, nil: Id, s: set<Id>)
    requires Rotated(m, m', x, x', y, y', b, p, nil)
    requires s !! {x, y, b, p} - {nil} && nil !in s
    ensures Same(m, m', s)
  {
  }

  /** A node with a right child: its three subtrees and where they hang. */
  lemma RightParts<Id>(m: Mem<Id>, t: Tree<Id>, x: Id, p: Id, nil: Id)
    requires Rep(m, t, x, p, nil) && Once(t) && t.N? && t.r.N?
    ensures x == t.id && x in m && m[x].right == t.r.id && t.r.id in m && m[x].parent == p
    ensures Rep(m, t.l, m[x].left, x, nil) && Once(t.l) && Once(t.r.l) && Once(t.r.r)
    ensures m[t.r.id].color == t.r.c && m[t.r.id].key == t.r.k && m[t.r.id].value == t.r.v
    ensures Rep(m, t.r.l, m[t.r.id].left, t.r.id, nil) && Rep(m, t.r.r, m[t.r.id].right, t.r.id, nil)
    ensures x != nil && t.r.id != nil && x != t.r.id && nil !in Ids(t.l) + Ids(t.r.l) + Ids(t.r.r)
    ensures Ids(t.l) !! {x, t.r.id} && Ids(t.r.l) !! {x, t.r.id} && Ids(t.r.r) !! {x, t.r.id}
    ensures Ids(t.l) !! Ids(t.r.l) && Ids(t.l) !! Ids(t.r.r) && Ids(t.r.l) !! Ids(t.r.r)
    ensures Ids(t) == {x, t.r.id} + Ids(t.l) + Ids(t.r.l) + Ids(t.r.r)
    ensures t.r.l.N? ==> m[t.r.id].left == t.r.l.id && t.r.l.id in Ids(t.r.l)
  {
    RepIds(m, t, x, p, nil);
    var y := t.r.id;
    assert Rep(m, t.r, y, x, nil);
    assert Ids(t.r) == {y} + Ids(t.r.l) + Ids(t.r.r);
  }

  lemma PaintParentAt<Id>(m: Mem<Id>, c: Ctx<Id>, t: Tree<Id>, x: Id, p: Id, root: Id, nil: Id, col: Color)
    requires At(m, c, t, x, p, root, nil) && !c.Top?
    ensures p in m && p != nil && p == c.id
    ensures At(m[p := m[p].(color := col)], Paint(c, col), t, x, p, root, nil)
    ensures PathIds(Paint(c, col)) == PathIds(c)
  {
    var m' := m[p := m[p].(color := col)];
    RepFrame(m, m', t, x, p, nil);
    RepFrame(m, m', Sibling(c), if c.Lft? then m[p].right else m[p].left, p, nil);
    PathFrame(m, m', c.up, p, m[p].parent, root, nil);
  }

  lemma PaintSiblingAt<Id>(m: Mem<Id>, c: Ctx<Id>, t: Tree<Id>, x: Id, p: Id, root: Id, nil: Id, col: Color)
    requires At(m, c, t, x, p, root, nil) && !c.Top? && Sibling(c).N?
    ensures var s := Sibling(c).id;
            && s in m && s != nil && p in m && s == (if c.Lft? then m[p].right else m[p].left)
            && At(m[s := m[s].(color := col)], PaintSibling(c, col), t, x, p, root, nil)
    ensures PathIds(PaintSibling(c, col)) == PathIds(c)
  {
    var s := Sibling(c);
    var m' := m[s.id := m[s.id].(color := col)];
    RepFrame(m, m', t, x, p, nil);
    RootFrame(m, m', s, s.(c := col), s.id, p, p, nil);
    PathFrame(m, m', c.up, p, m[p].parent, root, nil);
  }

  lemma LeftRotateAt<Id>(m: Mem<Id>, m': Mem<Id>, c: Ctx<Id>, t: Tree<Id>, x: Id, p: Id, root: Id, nil: Id)
    requires At(m, c, t, x, p, root, nil) && t.N? && t.r.N? && x in m && t.r.id in m
    requires Rotated(m, m', x, m[x].(right := m[t.r.id].left, parent := t.r.id),
                     t.r.id, m[t.r.id].(left := x, parent := p), m[t.r.id].left, p, nil)
    ensures At(m', c, RotateLeft(t), t.r.id, p, if p == nil then t.r.id else root, nil)
    ensures Ids(RotateLeft(t)) == Ids(t)
  {
    var y, b := t.r.id, t.r.l;
    var x', y', bx := m[x].(right := m[y].left, parent := y), m[y].(left := x, parent := p), m[y].left;
    RightParts(m, t, x, p, nil);
    PathRepIds(m, c, x, p, root, nil);
    RotatedTree(m, m', x, x', y, y', bx, p, nil, t.l, m[x].left, x);
    RotatedTree(m, m', x, x', y, y', bx, p, nil, t.r.r, m[y].right, y);
    RotatedMiddle(m, m', x, x', y, y', b, bx, p, nil);
    RotatedPath(m, m', x, x', y, y', bx, p, nil, c, root);
    RotateLeftOnce(t);
    assert Rep(m', RotateLeft(t).l, x, y, nil);
  }

  lemma RotatedTree<Id>(m: Mem<Id>, m': Mem<Id>, x: Id, x': Rec<Id>, y: Id, y': Rec<Id>, b: Id, p: Id, nil: Id,
                        t: Tree<Id>, a: Id, pa: Id)
    requires Rotated(m, m', x, x', y, y', b, p, nil) && Rep(m, t, a, pa, nil)
    requires Ids(t) !! {x, y, b, p} - {nil}
    ensures Rep(m', t, a, pa, nil)
  {
    RepIds(m, t, a, pa, nil);
    RotatedSame(m, m', x, x', y, y', b, p, nil, Ids(t));
    RepFrame(m, m', t, a, pa, nil);
  }

  lemma RotatedMiddle<Id>(m: Mem<Id>, m': Mem<Id>, x: Id, x': Rec<Id>, y: Id, y': Rec<Id>, b: Tree<Id>, bx: Id, p: Id, nil: Id)
    requires Rotated(m, m', x, x', y, y', bx, p, nil) && Rep(m, b, bx, y, nil) && Once(b)
    requires Ids(b) !! {x, y, p} - {nil}
    ensures Rep(m', b, bx, x, nil)
  {
    if b.N? {
      RepIds(m, b, bx, y, nil);
      RotatedSame(m, m', x, x', y, y', bx, p, nil, Ids(b.l) + Ids(b.r));
      RootFrame(m, m', b, b, bx, y, x, nil);
    }
  }

  lemma RotatedPath<Id>(m: Mem<Id>, m': Mem<Id>, x: Id, x': Rec<Id>, y: Id, y': Rec<Id>, b: Id, p: Id, nil: Id,
                        c: Ctx<Id>, root: Id)
    requires Rotated(m, m', x, x', y, y', b, p, nil) && PathRep(m, c, x, p, root, nil) && PathOnce(c)
    requires PathIds(c) !! {x, y, b} - {nil} && x != nil
    ensures PathRep(m', c, y, p, if p == nil then y else root, nil)
  {
    PathRepIds(m, c, x, p, root, nil);
    RotatedSame(m, m', x, x', y, y', b, p, nil, PathIds(c) - {p});
    PathRelink(m, m', c, x, y, p, root, nil);
  }

  lemma RotateLeftOnce<Id>(t: Tree<Id>)
    requires t.N? && t.r.N? && Once(t)
    ensures Once(RotateLeft(t)) && Ids(RotateLeft(t)) == Ids(t)
  {
    var a, b, d := t.l, t.r.l, t.r.r;
    assert Ids(t.r) == {t.r.id} + Ids(b) + Ids(d);
    assert Ids(RotateLeft(t).l) == {t.id} + Ids(a) + Ids(b);
  }

  /** The mirror image: a node with a left child. */
  lemma LeftParts<Id>(m: Mem<Id>, t: Tree<Id>, y: Id, p: Id, nil: Id)
    requires Rep(m, t, y, p, nil) && Once(t) && t.N? && t.l.N?
    ensures y == t.id && y in m && m[y].left == t.l.id && t.l.id in m && m[y].parent == p
    ensures Rep(m, t.r, m[y].right, y, nil) && Once(t.r) && Once(t.l.l) && Once(t.l.r)
    ensures m[t.l.id].color == t.l.c && m[t.l.id].key == t.l.k && m[t.l.id].value == t.l.v
    ensures Rep(m, t.l.l, m[t.l.id].left, t.l.id, nil) && Rep(m, t.l.r, m[t.l.id].right, t.l.id, nil)
    ensures y != nil && t.l.id != nil && y != t.l.id && nil !in Ids(t.r) + Ids(t.l.l) + Ids(t.l.r)
    ensures Ids(t.r) !! {y, t.l.id} && Ids(t.l.l) !! {y, t.l.id} && Ids(t.l.r) !! {y, t.l.id}
    ensures Ids(t.r) !! Ids(t.l.l) && Ids(t.r) !! Ids(t.l.r) && Ids(t.l.l) !! Ids(t.l.r)
    ensures Ids(t) == {y, t.l.id} + Ids(t.r) + Ids(t.l.l) + Ids(t.l.r)
    ensures t.l.r.N? ==> m[t.l.id].right == t.l.r.id && t.l.r.id in Ids(t.l.r)
  {
    RepIds(m, t, y, p, nil);
    var x := t.l.id;
    assert Rep(m, t.l, x, y, nil);
    assert Ids(t.l) == {x} + Ids(t.l.l) + Ids(t.l.r);
  }

  lemma RightRotateAt<Id>(m: Mem<Id>, m': Mem<Id>, c: Ctx<Id>, t: Tree<Id>, y: Id, p: Id, root: Id, nil: Id)
    requires At(m, c, t, y, p, root, nil) && t.N? && t.l.N? && y in m && t.l.id in m
    requires Rotated(m, m', y, m[y].(left := m[t.l.id].right, parent := t.l.id),
                     t.l.id, m[t.l.id].(right := y, parent := p), m[t.l.id].right, p, nil)
    ensures At(m', c, RotateRight(t), t.l.id, p, if p == nil then t.l.id else root, nil)
    ensures Ids(RotateRight(t)) == Ids(t)
  {
    var x, b := t.l.id, t.l.r;
    var y', x', bx := m[y].(left := m[x].right, parent := x), m[x].(right := y, parent := p), m[x].right;
    LeftParts(m, t, y, p, nil);
    PathRepIds(m, c, y, p, root, nil);
    RotatedTree(m, m', y, y', x, x', bx, p, nil, t.r, m[y].right, y);
    RotatedTree(m, m', y, y', x, x', bx, p, nil, t.l.l, m[x].left, x);
    RotatedMiddle(m, m', y, y', x, x', b, bx, p, nil);
    RotatedPath(m, m', y, y', x, x', bx, p, nil, c, root);
    RotateRightOnce(t);
    assert Rep(m', RotateRight(t).r, y, x, nil);
  }

  lemma RotateRightOnce<Id>(t: Tree<Id>)
    requires t.N? && t.l.N? && Once(t)
    ensures Once(RotateRight(t)) && Ids(RotateRight(t)) == Ids(t)
  {
    var a, b, d := t.l.l, t.l.r, t.r;
    assert Ids(t.l) == {t.l.id} + Ids(a) + Ids(b);
    assert Ids(RotateRight(t).r) == {t.id} + Ids(b) + Ids(d);
  }

  function Painted<Id(==)>(m: Mem<Id>, n: Id, col: Color): Mem<Id>
    requires n in m
  {
    m[n := m[n].(color := col)]
  }

  /** The memory after both fixup recolourings of an insertion, seen from the grandparent g. */
  lemma RecolorUpAt<Id>(m: Mem<Id>, c: Ctx<Id>, t: Tree<Id>, x: Id, p: Id, g: Id, root: Id, nil: Id)
    requires At(m, c, t, x, p, root, nil) && !c.Top? && !c.up.Top? && Uncle(c).N?
    requires p in m && g == m[p].parent
    ensures g in m && Uncle(c).id in m
    ensures var m' := Painted(Painted(Painted(m, p, Black), Uncle(c).id, Black), g, Red);
            m'[g].parent == m[g].parent && At(m', c.up.up, RecolorUp(c, t), g, m[g].parent, root, nil)
    ensures Ids(RecolorUp(c, t)) + PathIds(c.up.up) == Ids(t) + PathIds(c)
  {
    PaintParentAt(m, c, t, x, p, root, nil, Black);
    var m1, p' := Painted(m, p, Black), Lift(Paint(c, Black), t);
    Ascend(m1, Paint(c, Black), t, x, p, root, nil);
    PaintSiblingAt(m1, c.up, p', p, g, root, nil, Black);
    var m2 := Painted(m1, Uncle(c).id, Black);
    PaintParentAt(m2, PaintSibling(c.up, Black), p', p, g, root, nil, Red);
    Ascend(Painted(m2, g, Red), Paint(PaintSibling(c.up, Black), Red), p', p, g, root, nil);
  }

  lemma PaintUpAt<Id>(m: Mem<Id>, c: Ctx<Id>, t: Tree<Id>, x: Id, p: Id, g: Id, root: Id, nil: Id, pc: Color, gc: Color)
    requires At(m, c, t, x, p, root, nil) && !c.Top? && !c.up.Top?
    requires p in m && g == m[p].parent
    ensures g in m
    ensures var m' := Painted(Painted(m, p, pc), g, gc);
            && m'[g].parent == m[g].parent
            && At(m', c.up.up, Lift(Paint(c.up, gc), Lift(Paint(c, pc), t)), g, m[g].parent, root, nil)
    ensures Ids(Lift(Paint(c.up, gc), Lift(Paint(c, pc), t))) + PathIds(c.up.up) == Ids(t) + PathIds(c)
  {
    PaintParentAt(m, c, t, x, p, root, nil, pc);
    var m1, p' := Painted(m, p, pc), Lift(Paint(c, pc), t);
    Ascend(m1, Paint(c, pc), t, x, p, root, nil);
    PaintParentAt(m1, c.up, p', p, g, root, nil, gc);
    Ascend(Painted(m1, g, gc), Paint(c.up, gc), p', p, g, root, nil);
  }

  /** A red leaf z hung at an empty place under y. */
  lemma AttachAt<Id>(m: Mem<Id>, m': Mem<Id>, c: Ctx<Id>, z: Id, y: Id, root: Id, nil: Id)
    requires At(m, c, E, nil, y, root, nil) && z !in PathIds(c) + {nil} && z in m'
    requires m'[z].left == m'[z].right == nil && m'[z].parent == y && m'[z].color.Red?
    requires y != nil ==> y in m && y in m' && m'[y] == if c.Lft? then m[y].(left := z) else m[y].(right := z)
    requires Same(m, m', PathIds(c) - {y} + {nil})
    ensures At(m', c, N(E, z, Red, m'[z].key, m'[z].value, E), z, y, if y == nil then z else root, nil)
  {
    PathPlug(m, m', c, nil, z, y, root, nil);
  }

  // ----- the deletion fixup's paintings

  /** The sibling's context: the hole and its sibling change roles. */
  function Other<Id>(c: Ctx<Id>, t: Tree<Id>): Ctx<Id>
    requires !c.Top?
  {
    match c
    case Lft(up, id, cc, k, v, _) => Rgt(up, t, id, cc, k, v)
    case Rgt(up, _, id, cc, k, v) => Lft(up, id, cc, k, v, t)
  }

  lemma ToSibling<Id>(m: Mem<Id>, c: Ctx<Id>, t: Tree<Id>, x: Id, p: Id, root: Id, nil: Id)
    requires At(m, c, t, x, p, root, nil) && !c.Top?
    ensures p in m && p == c.id && p != nil
    ensures At(m, Other(c, t), Sibling(c), if c.Lft? then m[p].right else m[p].left, p, root, nil)
    ensures Ids(Sibling(c)) + PathIds(Other(c, t)) == Ids(t) + PathIds(c)
  {
  }

  /** Near nephew black, sibling red, seen from the sibling. */
  lemma NearPaintLeftAt<Id>(m: Mem<Id>, c: Ctx<Id>, t: Tree<Id>, x: Id, p: Id, root: Id, nil: Id)
    requires At(m, c, t, x, p, root, nil) && c.Lft? && c.r.N? && c.r.l.N?
    ensures p in m && c.r.id in m && c.r.l.id in m && m[p].right == c.r.id && m[c.r.id].left == c.r.l.id
    ensures At(Painted(Painted(m, c.r.l.id, Black), c.r.id, Red), Other(c, t),
               c.r.(c := Red, l := c.r.l.(c := Black)), c.r.id, p, root, nil)
    ensures Ids(c.r.(c := Red, l := c.r.l.(c := Black))) == Ids(c.r)
  {
    var w, s, o := c.r.id, c.r, Other(c, t);
    ToSibling(m, c, t, x, p, root, nil);
    Descend(m, o, s, w, p, root, nil);
    Recolor(m, GoLeft(o, s), s.l, s.l.id, w, root, nil, Black);
    var m1 := Painted(m, s.l.id, Black);
    Ascend(m1, GoLeft(o, s), s.l.(c := Black), s.l.id, w, root, nil);
    Recolor(m1, o, s.(l := s.l.(c := Black)), w, p, root, nil, Red);
  }

  lemma NearPaintRightAt<Id>(m: Mem<Id>, c: Ctx<Id>, t: Tree<Id>, x: Id, p: Id, root: Id, nil: Id)
    requires At(m, c, t, x, p, root, nil) && c.Rgt? && c.l.N? && c.l.r.N?
    ensures p in m && c.l.id in m && c.l.r.id in m && m[p].left == c.l.id && m[c.l.id].right == c.l.r.id
    ensures At(Painted(Painted(m, c.l.r.id, Black), c.l.id, Red), Other(c, t),
               c.l.(c := Red, r := c.l.r.(c := Black)), c.l.id, p, root, nil)
    ensures Ids(c.l.(c := Red, r := c.l.r.(c := Black))) == Ids(c.l)
  {
    var w, s, o := c.l.id, c.l, Other(c, t);
    ToSibling(m, c, t, x, p, root, nil);
    Descend(m, o, s, w, p, root, nil);
    Recolor(m, GoRight(o, s), s.r, s.r.id, w, root, nil, Black);
    var m1 := Painted(m, s.r.id, Black);
    Ascend(m1, GoRight(o, s), s.r.(c := Black), s.r.id, w, root, nil);
    Recolor(m1, o, s.(r := s.r.(c := Black)), w, p, root, nil, Red);
  }

  /** Sibling in the parent's colour, parent and far nephew black, seen from the parent. */
  lemma FarPaintLeftAt<Id>(m: Mem<Id>, c: Ctx<Id>, t: Tree<Id>, x: Id, p: Id, root: Id, nil: Id)
    requires At(m, c, t, x, p, root, nil) && c.Lft? && c.r.N? && c.r.r.N?
    ensures p in m && c.r.id in m && c.r.r.id in m && m[p].right == c.r.id && m[c.r.id].right == c.r.r.id
    ensures m[p].color == c.c
    ensures var m' := Painted(Painted(Painted(m, c.r.id, c.c), p, Black), c.r.r.id, Black);
            var u := Lift(WithSibling(Paint(c, Black), c.r.(c := c.c, r := c.r.r.(c := Black))), t);
            m'[p].parent == m[p].parent && At(m', c.up, u, p, m[p].parent, root, nil)
            && Ids(u) + PathIds(c.up) == Ids(t) + PathIds(c)
  {
    var w, s, o := c.r.id, c.r, Other(c, t);
    ToSibling(m, c, t, x, p, root, nil);
    Recolor(m, o, s, w, p, root, nil, c.c);
    var m1, s1 := Painted(m, w, c.c), s.(c := c.c);
    PaintParentAt(m1, o, s1, w, p, root, nil, Black);
    var m2, o2 := Painted(m1, p, Black), Paint(o, Black);
    Descend(m2, o2, s1, w, p, root, nil);
    Recolor(m2, GoRight(o2, s1), s1.r, s1.r.id, w, root, nil, Black);
    var m3 := Painted(m2, s.r.id, Black);
    Ascend(m3, GoRight(o2, s1), s1.r.(c := Black), s.r.id, w, root, nil);
    Ascend(m3, o2, s1.(r := s.r.(c := Black)), w, p, root, nil);
  }

  lemma FarPaintRightAt<Id>(m: Mem<Id>, c: Ctx<Id>, t: Tree<Id>, x: Id, p: Id, root: Id, nil: Id)
    requires At(m, c, t, x, p, root, nil) && c.Rgt? && c.l.N? && c.l.l.N?
    ensures p in m && c.l.id in m && c.l.l.id in m && m[p].left == c.l.id && m[c.l.id].left == c.l.l.id
    ensures m[p].color == c.c
    ensures var m' := Painted(Painted(Painted(m, c.l.id, c.c), p, Black), c.l.l.id, Black);
            var u := Lift(WithSibling(Paint(c, Black), c.l.(c := c.c, l := c.l.l.(c := Black))), t);
            m'[p].parent == m[p].parent && At(m', c.up, u, p, m[p].parent, root, nil)
            && Ids(u) + PathIds(c.up) == Ids(t) + PathIds(c)
  {
    var w, s, o := c.l.id, c.l, Other(c, t);
    ToSibling(m, c, t, x, p, root, nil);
    Recolor(m, o, s, w, p, root, nil, c.c);
    var m1, s1 := Painted(m, w, c.c), s.(c := c.c);
    PaintParentAt(m1, o, s1, w, p, root, nil, Black);
    var m2, o2 := Painted(m1, p, Black), Paint(o, Black);
    Descend(m2, o2, s1, w, p, root, nil);
    Recolor(m2, GoLeft(o2, s1), s1.l, s1.l.id, w, root, nil, Black);
    var m3 := Painted(m2, s.l.id, Black);
    Ascend(m3, GoLeft(o2, s1), s1.l.(c := Black), s.l.id, w, root, nil);
    Ascend(m3, o2, s1.(l := s.l.(c := Black)), w, p, root, nil);
  }

  /** Sibling black and parent red (for a red sibling), seen from the parent. */
  lemma SiblingParentPaintAt<Id>(m: Mem<Id>, c: Ctx<Id>, t: Tree<Id>, x: Id, p: Id, root: Id, nil: Id)
    requires At(m, c, t, x, p, root, nil) && !c.Top? && Sibling(c).N?
    ensures p in m && p == c.id && Sibling(c).id in m
    ensures var m' := Painted(Painted(m, Sibling(c).id, Black), p, Red);
            var v := Lift(PaintSibling(Paint(c, Red), Black), t);
            m'[p].parent == m[p].parent && At(m', c.up, v, p, m[p].parent, root, nil)
            && Ids(v) + PathIds(c.up) == Ids(t) + PathIds(c)
  {
    PaintSiblingAt(m, c, t, x, p, root, nil, Black);
    var m1 := Painted(m, Sibling(c).id, Black);
    PaintParentAt(m1, PaintSibling(c, Black), t, x, p, root, nil, Red);
    Ascend(Painted(m1, p, Red), Paint(PaintSibling(c, Black), Red), t, x, p, root, nil);
  }

  lemma {:induction false} RootInPath<Id>(m: Mem<Id>, c: Ctx<Id>, x: Id, p: Id, root: Id, nil: Id)
    requires PathRep(m, c, x, p, root, nil)
    ensures if c.Top? then root == x else root in PathIds(c)
  {
    if !c.Top? {
      RootInPath(m, c.up, p, m[p].parent, root, nil);
    }
  }

  // ----- deletion

  function Rekeyed<Id(==)>(m: Mem<Id>, n: Id, k: Text, v: Text): Mem<Id>
    requires n in m
  {
    m[n := m[n].(key := k, value := v)]
  }

  lemma RekeyAt<Id>(m: Mem<Id>, c: Ctx<Id>, t: Tree<Id>, x: Id, p: Id, root: Id, nil: Id, k: Text, v: Text)
    requires At(m, c, t, x, p, root, nil) && t.N?
    ensures At(Rekeyed(m, x, k, v), c, t.(k := k, v := v), x, p, root, nil)
    ensures Ids(t.(k := k, v := v)) == Ids(t)
  {
    var m' := Rekeyed(m, x, k, v);
    RepFrame(m, m', t.l, m[x].left, x, nil);
    RepFrame(m, m', t.r, m[x].right, x, nil);
    PathFrame(m, m', c, x, p, root, nil);
  }

  lemma {:induction false} MinAt<Id>(m: Mem<Id>, c: Ctx<Id>, t: Tree<Id>, x: Id, p: Id, root: Id, nil: Id)
    requires At(m, c, t, x, p, root, nil) && t.N?
    ensures var y := MinTree(t).id;
            y in m && y in Ids(t) && At(m, MinCtx(c, t), MinTree(t), y, m[y].parent, root, nil)
    ensures Ids(MinTree(t)) + PathIds(MinCtx(c, t)) == Ids(t) + PathIds(c)
    decreases t
  {
    if t.l.N? {
      Descend(m, c, t, x, p, root, nil);
      MinAt(m, GoLeft(c, t), t.l, m[x].left, x, root, nil);
    }
  }

  /** The pairs of z and of its successor change places. */
  lemma SwapAt<Id>(m: Mem<Id>, c: Ctx<Id>, t: Tree<Id>, z: Id, p: Id, root: Id, nil: Id)
    requires At(m, c, t, z, p, root, nil) && t.N? && t.r.N?
    ensures var y := MinTree(t.r);
            && y.id in m && y.id != z && y.id != nil && z in m
            && m[y.id].key == y.k && m[y.id].value == y.v && m[z].key == t.k && m[z].value == t.v
            && At(Swapped(m, z, y.id), SuccessorCtx(c, t), y.(k := t.k, v := t.v),
                  y.id, m[y.id].parent, root, nil)
    ensures Ids(MinTree(t.r).(k := t.k, v := t.v)) + PathIds(SuccessorCtx(c, t)) == Ids(t) + PathIds(c)
  {
    var y := MinTree(t.r);
    Descend(m, c, t, z, p, root, nil);
    MinAt(m, GoRight(c, t), t.r, m[z].right, z, root, nil);
    var m1, t1 := Rekeyed(m, z, y.k, y.v), t.(k := y.k, v := y.v);
    RekeyAt(m, c, t, z, p, root, nil, y.k, y.v);
    Descend(m1, c, t1, z, p, root, nil);
    MinAt(m1, GoRight(c, t1), t1.r, m1[z].right, z, root, nil);
    assert Ids(t1.r) + PathIds(GoRight(c, t1)) == Ids(t) + PathIds(c);
    RekeyAt(m1, SuccessorCtx(c, t), y, y.id, m1[y.id].parent, root, nil, t.k, t.v);
  }

  /** The writes that take y, whose only child (or the sentinel) is x, out from under p. */
  ghost predicate Spliced<Id>(m: Mem<Id>, m': Mem<Id>, y: Id, x: Id, p: Id, nil: Id)
  {
    && {x, y} <= m.Keys && m'.Keys == m.Keys
    && m'[x] == m[x].(parent := p)
    && (p != nil ==> p in m && m'[p] == Relink(m[p], y, x))
    && forall n :: n in m && n != x && (n == nil || n != p) ==> m'[n] == m[n]
  }

  /** The pairs of two nodes change places. */
  function Swapped<Id(==)>(m: Mem<Id>, z: Id, y: Id): Mem<Id>
    requires z in m && y in m
  {
    Rekeyed(Rekeyed(m, z, m[y].key, m[y].value), y, m[z].key, m[z].value)
  }

  lemma SpliceSwapped<Id>(m: Mem<Id>, m': Mem<Id>, z: Id, y: Id, x: Id, p: Id, nil: Id)
    requires Spliced(m, m', y, x, p, nil) && z in m && z != y && (p != nil ==> p != x)
    ensures Spliced(Swapped(m, z, y), Swapped(m', z, y), y, x, p, nil)
  {
  }

  lemma SplicedParent<Id>(m: Mem<Id>, m': Mem<Id>, y: Id, x: Id, p: Id, nil: Id)
    requires Spliced(m, m', y, x, p, nil)
    ensures x in m' && m'[x].parent == p
  {
  }

  lemma SpliceAt<Id>(m: Mem<Id>, m': Mem<Id>, c: Ctx<Id>, t: Tree<Id>, y: Id, p: Id, x: Id, root: Id, nil: Id)
    requires At(m, c, t, y, p, root, nil) && t.N? && (t.l.E? || t.r.E?)
    requires x == (if t.l.N? then t.l.id else if t.r.N? then t.r.id else nil)
    requires Spliced(m, m', y, x, p, nil)
    ensures At(m', c, OnlyChild(t), x, p, if p == nil then x else root, nil)
    ensures Ids(OnlyChild(t)) + PathIds(c) == Ids(t) + PathIds(c) - {y}
  {
    var u := OnlyChild(t);
    PathRepIds(m, c, y, p, root, nil);
    RepIds(m, t, y, p, nil);
    if u.N? {
      assert Rep(m, u, if t.l.N? then m[y].left else m[y].right, y, nil);
      RootFrame(m, m', u, u, x, y, p, nil);
    }
    PathRelink(m, m', c, y, x, p, root, nil);
  }

  /** Splicing out the successor y of z and then swapping their pairs. */
  lemma SuccessorSplicedAt<Id>(m: Mem<Id>, m': Mem<Id>, c: Ctx<Id>, t: Tree<Id>, z: Id, pz: Id, y: Id, p: Id, x: Id, root: Id, nil: Id)
    requires At(m, c, t, z, pz, root, nil) && t.N? && t.r.N? && y == MinTree(t.r).id
    requires y in m && p == m[y].parent
    requires x == if MinTree(t.r).r.N? then MinTree(t.r).r.id else nil
    requires Spliced(m, m', y, x, p, nil) && (p != nil ==> p != x)
    ensures z in m' && y in m' && z != y
    ensures At(Swapped(m', z, y), SuccessorCtx(c, t), OnlyChild(MinTree(t.r)), x, p, if p == nil then x else root, nil)
    ensures Swapped(m', z, y)[x].parent == p
    ensures Ids(OnlyChild(MinTree(t.r))) + PathIds(SuccessorCtx(c, t)) == Ids(t) + PathIds(c) - {y}
  {
    var u := MinTree(t.r);
    SwapAt(m, c, t, z, pz, root, nil);
    hide Swapped, SuccessorCtx;
    SpliceSwapped(m, m', z, y, x, p, nil);
    SpliceAt(Swapped(m, z, y), Swapped(m', z, y), SuccessorCtx(c, t), u.(k := t.k, v := t.v), y, p, x, root, nil);
  }

  /** Memory that the tree does not reach may be given up. */
  lemma ForgetAt<Id>(m: Mem<Id>, m': Mem<Id>, t: Tree<Id>, root: Id, nil: Id)
    requires At(m, Top, t, root, nil, root, nil) && Same(m, m', Ids(t) + {nil})
    ensures At(m', Top, t, root, nil, root, nil)
  {
    RepFrame(m, m', t, root, nil, nil);
  }
}
