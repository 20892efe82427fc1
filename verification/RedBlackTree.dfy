/** The pointer tree of kvs_rbtree.c: parent links, one shared black sentinel. */
module RedBlackTree {
  import opened Text
  import opened Assoc
  import opened RedBlackShape
  import opened RedBlackMemory
  import opened Wrappers

  class Node {
    var color: Color
    var left: Node
    var right: Node
    var parent: Node
    var key: Text
    var value: Text

    /** The links of memory fresh from malloc mean nothing; here they lead back to the node. */
    constructor (k: Text, v: Text)
      ensures key == k && value == v && color == Black
      ensures left == right == parent == this
    {
      key, value, color := k, v, Black;
      left, right, parent := this, this, this;
    }
  }

  type Shape = Tree<Node>
  type Path = Ctx<Node>

  class RbTree {
    var root: Node
    var nil: Node
    /** The tree's nodes and the sentinel: all memory that an operation may touch. */
    ghost var nodes: set<Node>
    ghost var shape: Shape
    /** The nodes that went back to the C library. */
    ghost var freed: set<Node>

    /** A red-black tree in rank order, in memory that nobody has freed. */
    ghost predicate Valid()
      reads this, nodes
    {
      && nodes == Ids(shape) + {nil} && freed !! nodes && Holds(Top, shape, root, nil)
      && RedBlack(shape) && Sorted(Inorder(shape))
    }

    lemma Validated()
      requires nodes == Ids(shape) + {nil} && freed !! nodes && Holds(Top, shape, root, nil)
      requires RedBlack(shape) && Sorted(Inorder(shape))
      ensures Valid() && Contents() == ToMap(Inorder(shape))
    {
    }

    lemma HeldWhole(s: Shape)
      requires nodes == Ids(s) + {nil} && At(Memory(), Top, s, root, nil, root, nil)
      ensures Holds(Top, s, root, nil)
    {
    }

    ghost function Contents(): map<Text, Text>
      reads this`shape
    {
      ToMap(Inorder(shape))
    }

    constructor ()
      ensures Valid() && fresh(nodes) && Contents() == map[] && freed == {}
    {
      var sentinel := new Node([], []);
      nil, root, shape, nodes, freed := sentinel, sentinel, E, {sentinel}, {};
    }

    /** The fields of all nodes, as they are now. */
    ghost function Memory(): Mem<Node>
      reads this`nodes, nodes
    {
      map n | n in nodes :: Rec(n.color, n.left, n.right, n.parent, n.key, n.value)
    }

    /** Memory holds the tree c[t], with t at x under the parent p. */
    ghost predicate Holds(c: Path, t: Shape, x: Node, p: Node)
      reads this`root, this`nil, this`nodes, nodes
    {
      At(Memory(), c, t, x, p, root, nil) && Ids(t) + PathIds(c) <= nodes && nil in nodes
    }

    /** p's record points at x exactly once, or x is the root. */
    ghost predicate Hangs(x: Node, p: Node)
      reads this, p
    {
      if p == nil then x == root else p.left == x <==> p.right != x
    }

    method LeftRotate(x: Node)
      requires {x, x.right, x.parent, x.right.left, nil} <= nodes
      requires nil != x && nil != x.right && x != x.right && Hangs(x, x.parent)
      requires x.parent != nil ==> x.parent !in {x, x.right, x.right.left}
      requires x.right.left != nil ==> x.right.left !in {x, x.right}
      modifies this`root, nodes`color, nodes`left, nodes`right, nodes`parent
      ensures old(x.right in nodes) && Rotated(old(Memory()), Memory(),
                x, old(Memory()[x].(right := x.right.left, parent := x.right)),
                old(x.right), old(Memory()[x.right].(left := x, parent := x.parent)),
                old(x.right.left), old(x.parent), nil)
      ensures root == if old(x.parent) == nil then old(x.right) else old(root)
    {
      var y := x.right;

      x.right := y.left;
      if y.left != nil {
        y.left.parent := x;
      }

      y.parent := x.parent;
      if x.parent == nil {
        root := y;
      } else if x == x.parent.left {
        x.parent.left := y;
      } else {
        x.parent.right := y;
      }

      y.left := x;
      x.parent := y;
    }

    method RightRotate(y: Node)
      requires {y, y.left, y.parent, y.left.right, nil} <= nodes
      requires nil != y && nil != y.left && y != y.left && Hangs(y, y.parent)
      requires y.parent != nil ==> y.parent !in {y, y.left, y.left.right}
      requires y.left.right != nil ==> y.left.right !in {y, y.left}
      modifies this`root, nodes`color, nodes`left, nodes`right, nodes`parent
      ensures old(y.left in nodes) && Rotated(old(Memory()), Memory(),
                y, old(Memory()[y].(left := y.left.right, parent := y.left)),
                old(y.left), old(Memory()[y.left].(right := y, parent := y.parent)),
                old(y.left.right), old(y.parent), nil)
      ensures root == if old(y.parent) == nil then old(y.left) else old(root)
    {
      var x := y.left;

      y.left := x.right;
      if x.right != nil {
        x.right.parent := y;
      }

      x.parent := y.parent;
      if y.parent == nil {
        root := x;
      } else if y == y.parent.right {
        y.parent.right := x;
      } else {
        y.parent.left := x;
      }

      x.right := y;
      y.parent := x;
    }

    method RotateLeftAt(x: Node, ghost c: Path, ghost t: Shape)
      requires x in nodes && Holds(c, t, x, x.parent) && t.N? && t.r.N?
      modifies this`root, nodes`color, nodes`left, nodes`right, nodes`parent
      ensures Holds(c, RotateLeft(t), t.r.id, old(x.parent))
      ensures t.r.id in nodes && t.r.id.parent == old(x.parent)
      ensures Ids(RotateLeft(t)) == Ids(t) && nil in Memory() && Memory()[nil] == old(Memory()[nil])
    {
      ghost var m, p := Memory(), x.parent;
      RightParts(m, t, x, p, nil);
      PathRepIds(m, c, x, p, root, nil);
      HangsAt(c, t, x, p);
      LeftRotate(x);
      LeftRotateAt(m, Memory(), c, t, x, p, old(root), nil);
      assert Memory()[t.r.id].parent == t.r.id.parent;
    }

    method RotateRightAt(y: Node, ghost c: Path, ghost t: Shape)
      requires y in nodes && Holds(c, t, y, y.parent) && t.N? && t.l.N?
      modifies this`root, nodes`color, nodes`left, nodes`right, nodes`parent
      ensures Holds(c, RotateRight(t), t.l.id, old(y.parent))
      ensures t.l.id in nodes && t.l.id.parent == old(y.parent)
      ensures Ids(RotateRight(t)) == Ids(t) && nil in Memory() && Memory()[nil] == old(Memory()[nil])
    {
      ghost var m, p := Memory(), y.parent;
      LeftParts(m, t, y, p, nil);
      PathRepIds(m, c, y, p, root, nil);
      HangsAt(c, t, y, p);
      RightRotate(y);
      RightRotateAt(m, Memory(), c, t, y, p, old(root), nil);
      assert Memory()[t.l.id].parent == t.l.id.parent;
    }

    lemma HangsAt(c: Path, t: Shape, x: Node, p: Node)
      requires Holds(c, t, x, p) && t.N?
      ensures Hangs(x, p) && p in nodes
      ensures p != nil ==> p in PathIds(c)
    {
      if !c.Top? {
        var m := Memory();
        PathRepIds(m, c, x, p, root, nil);
        assert m[p].left == p.left && m[p].right == p.right;
      }
    }

    /** Holds, told in terms of the memory alone. */
    lemma Held(c: Path, u: Shape, x: Node, p: Node)
      requires {x, nil} <= nodes && At(Memory(), c, u, x, p, root, nil) && Memory()[x].parent == p
      requires Ids(u) + PathIds(c) <= nodes
      ensures Holds(c, u, x, x.parent)
    {
    }

    method SetColor(n: Node, col: Color)
      requires n in nodes
      modifies n`color
      ensures Memory() == Painted(old(Memory()), n, col)
    {
      n.color := col;
    }

    // ----- insertion

    /** Invariant of the insertion fixup: z roots the red subtree t under c, and nothing
        but a red parent of z is out of order. */
    ghost predicate Inserting(c: Path, t: Shape, z: Node, items: seq<Pair>, ids: set<Node>)
      reads this, nodes
    {
      && z in nodes && Holds(c, t, z, z.parent) && RedPending(c, t)
      && Items(c, t) == items && Ids(t) + PathIds(c) == ids
    }

    /** Under a red parent, the pointers that the fixup follows lead where the shape says. */
    lemma Grandparent(c: Path, t: Shape, z: Node)
      requires z in nodes && Holds(c, t, z, z.parent) && RedPending(c, t) && c.Col().Red?
      ensures !c.Top? && !c.up.Top? && z.parent == c.id && z.parent in nodes
      ensures z.parent.parent == c.up.id && z.parent.parent in nodes && z.parent.parent != nil
      ensures c.up.Lft? <==> z.parent == z.parent.parent.left
      ensures var y := if c.up.Lft? then z.parent.parent.right else z.parent.parent.left;
              y in nodes && y.color == Uncle(c).Col() && (Uncle(c).N? ==> y == Uncle(c).id)
      ensures z != nil && (c.Lft? <==> z == z.parent.left) && (c.Rgt? <==> z == z.parent.right)
    {
      AboveRed(c, Bh(t));
      var m, p := Memory(), z.parent;
      RepIds(m, t, z, p, nil);
      PathRepIds(m, c, z, p, root, nil);
      Ascend(m, c, t, z, p, root, nil);
      var g := m[p].parent;
      assert g in m && m[p].parent == p.parent && m[g].left == g.left && m[g].right == g.right;
      assert m[p].left == p.left && m[p].right == p.right;
      var y := if c.up.Lft? then g.right else g.left;
      RepIds(m, Uncle(c), y, g, nil);
      assert y in nodes && m[y].color == y.color;
    }

    method RecolorUncle(z: Node, y: Node, ghost c: Path, ghost t: Shape, ghost items: seq<Pair>, ghost ids: set<Node>)
        returns (z': Node)
      requires Inserting(c, t, z, items, ids) && c.Col().Red? && Uncle(c).Col().Red?
      requires !c.up.Top? && y == Uncle(c).id
      modifies nodes`color
      ensures Inserting(c.up.up, RecolorUp(c, t), z', items, ids)
    {
      hide Rep, PathRep, At, RedPending, Items, Ids, PathIds, RecolorUp;
      Grandparent(c, t, z);
      RecolorUpAt(Memory(), c, t, z, z.parent, z.parent.parent, root, nil);
      RecolorUpKeeps(c, t);
      SetColor(z.parent, Black);
      SetColor(y, Black);
      SetColor(z.parent.parent, Red);
      z' := z.parent.parent;
    }

    /** Left-left: parent black, grandparent red, and the parent moves above the grandparent. */
    method OuterLeft(z: Node, ghost c: Path, ghost t: Shape, ghost items: seq<Pair>, ghost ids: set<Node>)
        returns (ghost c': Path)
      requires Inserting(c, t, z, items, ids) && c.Lft? && c.c.Red? && c.up.Lft? && c.up.r.Col().Black?
      modifies this`root, nodes`color, nodes`left, nodes`right, nodes`parent
      ensures Inserting(c', t, z, items, ids) && c'.Depth() < c.Depth() && c'.Col().Black?
    {
      Grandparent(c, t, z);
      ghost var g := z.parent.parent;
      PaintUpAt(Memory(), c, t, z, z.parent, g, root, nil, Black, Red);
      OuterLeftKeeps(c, t);
      ghost var u := Lift(Paint(c.up, Red), Lift(Paint(c, Black), t));
      SetColor(z.parent, Black);
      SetColor(z.parent.parent, Red);
      RotateRightAt(z.parent.parent, c.up.up, u);
      ghost var top := RotateRight(u);
      Descend(Memory(), c.up.up, top, top.id, Memory()[top.id].parent, root, nil);
      c' := GoLeft(c.up.up, top);
    }

    method OuterRight(z: Node, ghost c: Path, ghost t: Shape, ghost items: seq<Pair>, ghost ids: set<Node>)
        returns (ghost c': Path)
      requires Inserting(c, t, z, items, ids) && c.Rgt? && c.c.Red? && c.up.Rgt? && c.up.l.Col().Black?
      modifies this`root, nodes`color, nodes`left, nodes`right, nodes`parent
      ensures Inserting(c', t, z, items, ids) && c'.Depth() < c.Depth() && c'.Col().Black?
    {
      Grandparent(c, t, z);
      ghost var g := z.parent.parent;
      PaintUpAt(Memory(), c, t, z, z.parent, g, root, nil, Black, Red);
      OuterRightKeeps(c, t);
      ghost var u := Lift(Paint(c.up, Red), Lift(Paint(c, Black), t));
      SetColor(z.parent, Black);
      SetColor(z.parent.parent, Red);
      RotateLeftAt(z.parent.parent, c.up.up, u);
      ghost var top := RotateLeft(u);
      Descend(Memory(), c.up.up, top, top.id, Memory()[top.id].parent, root, nil);
      c' := GoRight(c.up.up, top);
    }

    /** The inner grandchild case: one rotation at the parent, and z steps down to it. */
    method InnerLeft(z: Node, ghost c: Path, ghost t: Shape, ghost items: seq<Pair>, ghost ids: set<Node>)
        returns (z': Node, ghost c': Path, ghost t': Shape)
      requires Inserting(c, t, z, items, ids) && c.Rgt? && c.c.Red? && c.up.Lft?
      modifies this`root, nodes`color, nodes`left, nodes`right, nodes`parent
      ensures Inserting(c', t', z', items, ids) && c'.Lft? && c'.c.Red? && c'.up == c.up && c'.Depth() == c.Depth()
    {
      Grandparent(c, t, z);
      InnerLeftKeeps(c, t);
      Ascend(Memory(), c, t, z, z.parent, root, nil);
      z' := z.parent;
      RotateLeftAt(z', c.up, Lift(c, t));
      ghost var top := RotateLeft(Lift(c, t));
      Descend(Memory(), c.up, top, top.id, Memory()[top.id].parent, root, nil);
      c', t' := GoLeft(c.up, top), top.l;
    }

    method InnerRight(z: Node, ghost c: Path, ghost t: Shape, ghost items: seq<Pair>, ghost ids: set<Node>)
        returns (z': Node, ghost c': Path, ghost t': Shape)
      requires Inserting(c, t, z, items, ids) && c.Lft? && c.c.Red? && c.up.Rgt?
      modifies this`root, nodes`color, nodes`left, nodes`right, nodes`parent
      ensures Inserting(c', t', z', items, ids) && c'.Rgt? && c'.c.Red? && c'.up == c.up && c'.Depth() == c.Depth()
    {
      Grandparent(c, t, z);
      InnerRightKeeps(c, t);
      Ascend(Memory(), c, t, z, z.parent, root, nil);
      z' := z.parent;
      RotateRightAt(z', c.up, Lift(c, t));
      ghost var top := RotateRight(Lift(c, t));
      Descend(Memory(), c.up, top, top.id, Memory()[top.id].parent, root, nil);
      c', t' := GoRight(c.up, top), top.r;
    }

    lemma ParentColor(c: Path, t: Shape, z: Node)
      requires z in nodes && Holds(c, t, z, z.parent)
      ensures z.parent in nodes && z.parent.color == c.Col()
    {
      PathRepIds(Memory(), c, z, z.parent, root, nil);
      assert Memory()[z.parent].color == z.parent.color;
    }

    /** One round of the fixup when z's parent is a left child. */
    method InsertRoundLeft(z: Node, ghost c: Path, ghost t: Shape, ghost items: seq<Pair>, ghost ids: set<Node>)
        returns (z': Node, ghost c': Path, ghost t': Shape)
      requires Inserting(c, t, z, items, ids) && c.Col().Red? && c.up.Lft?
      modifies this`root, nodes`color, nodes`left, nodes`right, nodes`parent
      ensures Inserting(c', t', z', items, ids) && c'.Depth() < c.Depth()
    {
      Grandparent(c, t, z);
      z', c', t' := z, c, t;
      var y := z.parent.parent.right;
      if y.color.Red? {
        z' := RecolorUncle(z, y, c, t, items, ids);
        c', t' := c.up.up, RecolorUp(c, t);
      } else {
        if z == z.parent.right {
          z', c', t' := InnerLeft(z, c, t, items, ids);
        }
        c' := OuterLeft(z', c', t', items, ids);
      }
    }

    /** The mirrored round, when z's parent is a right child. */
    method InsertRoundRight(z: Node, ghost c: Path, ghost t: Shape, ghost items: seq<Pair>, ghost ids: set<Node>)
        returns (z': Node, ghost c': Path, ghost t': Shape)
      requires Inserting(c, t, z, items, ids) && c.Col().Red? && c.up.Rgt?
      modifies this`root, nodes`color, nodes`left, nodes`right, nodes`parent
      ensures Inserting(c', t', z', items, ids) && c'.Depth() < c.Depth()
    {
      Grandparent(c, t, z);
      z', c', t' := z, c, t;
      var y := z.parent.parent.left;
      if y.color.Red? {
        z' := RecolorUncle(z, y, c, t, items, ids);
        c', t' := c.up.up, RecolorUp(c, t);
      } else {
        if z == z.parent.left {
          z', c', t' := InnerRight(z, c, t, items, ids);
        }
        c' := OuterRight(z', c', t', items, ids);
      }
    }

    method InsertFixup(z0: Node, ghost c0: Path, ghost t0: Shape) returns (ghost t': Shape)
      requires z0 in nodes && Holds(c0, t0, z0, z0.parent) && RedPending(c0, t0)
      modifies this`root, nodes`color, nodes`left, nodes`right, nodes`parent
      ensures Holds(Top, t', root, nil) && RedBlack(t')
      ensures Inorder(t') == Items(c0, t0) && Ids(t') == Ids(t0) + PathIds(c0)
    {
      var z := z0;
      ghost var c, t, items, ids := c0, t0, Items(c0, t0), Ids(t0) + PathIds(c0);
      ParentColor(c, t, z);
      while z.parent.color.Red?
        invariant Inserting(c, t, z, items, ids)
        invariant z.parent in nodes && z.parent.color == c.Col()
        decreases c.Depth()
      {
        Grandparent(c, t, z);
        if z.parent == z.parent.parent.left {
          z, c, t := InsertRoundLeft(z, c, t, items, ids);
        } else {
          z, c, t := InsertRoundRight(z, c, t, items, ids);
        }
        ParentColor(c, t, z);
      }
      t' := InsertFinish(z, c, t, items, ids);
    }

    /** The last line of the fixup: the root, wherever z stopped, becomes black. */
    method InsertFinish(ghost z: Node, ghost c: Path, ghost t: Shape, ghost items: seq<Pair>, ghost ids: set<Node>)
        returns (ghost t': Shape)
      requires Inserting(c, t, z, items, ids) && c.Col().Black?
      modifies nodes`color
      ensures Holds(Top, t', root, nil) && RedBlack(t') && Inorder(t') == items && Ids(t') == ids
    {
      ghost var u, m := Fill(c, t), Memory();
      AscendAll(m, c, t, z, z.parent, root, nil);
      FillRb(c, t);
      FillItems(c, t);
      assert u.N? && u.id == root by {
        RepIds(m, t, z, z.parent, nil);
      }
      Recolor(m, Top, u, root, nil, root, nil, Black);
      SetColor(root, Black);
      t' := u.(c := Black);
    }

    /** Where a search for key has got to: everything outside t lies on the other side of key. */
    ghost predicate Searching(c: Path, t: Shape, x: Node, p: Node, key: Text)
      reads this, nodes
    {
      && x in nodes && Holds(c, t, x, p) && Ids(t) + PathIds(c) == Ids(shape)
      && Items(c, t) == Inorder(shape) && Sorted(Inorder(shape))
      && AllLess(Before(c), key) && AllGreater(key, After(c))
    }

    lemma SearchStarts(key: Text)
      requires Valid()
      ensures Searching(Top, shape, root, nil, key) && nil in nodes && RedBlack(shape)
      ensures Fits(Top, shape)
    {
    }

    /** A search that ends at an empty place has found where key belongs. */
    lemma SearchPlace(c: Path, t: Shape, x: Node, p: Node, key: Text)
      requires Valid() && Searching(c, t, x, p, key) && t.E?
      ensures At(Memory(), c, E, nil, p, root, nil) && PathIds(c) + {nil} == nodes
      ensures Before(c) + After(c) == Inorder(shape) && Sorted(Inorder(shape))
      ensures AllLess(Before(c), key) && AllGreater(key, After(c))
    {
    }

    lemma SearchStep(c: Path, t: Shape, x: Node, p: Node, key: Text)
      requires Searching(c, t, x, p, key)
      ensures x in nodes && (x != nil <==> t.N?)
      ensures t.N? ==> x.key == t.k
      ensures t.N? && Less(key, t.k) ==> Searching(GoLeft(c, t), t.l, x.left, x, key)
      ensures t.N? && Less(t.k, key) ==> Searching(GoRight(c, t), t.r, x.right, x, key)
    {
      hide Rep, PathRep, Before, After, Inorder, Items, Sorted, AllLess, AllGreater, Less;
      if t.N? {
        var m := Memory();
        RepRoot(m, t, x, p);
        RepIds(m, t, x, p, nil);
        Descend(m, c, t, x, p, root, nil);
        assert m[x].left == x.left && m[x].right == x.right && m[x].key == x.key;
        RepRoot(m, t.l, x.left, x);
        RepRoot(m, t.r, x.right, x);
        SearchBounds(c, t, key);
      } else {
        RepRoot(Memory(), t, x, p);
      }
    }

    lemma RepRoot(m: Mem<Node>, t: Shape, x: Node, p: Node)
      requires Rep(m, t, x, p, nil)
      ensures (x != nil <==> t.N?) && (t.N? ==> x == t.id && x in m && m[x].key == t.k && m[x].parent == p)
    {
    }

    /** What lies around the subtree that a search goes on in still bounds the key. */
    static lemma SearchBounds(c: Path, t: Shape, key: Text)
      requires t.N? && Sorted(Items(c, t)) && AllLess(Before(c), key) && AllGreater(key, After(c))
      ensures Items(GoLeft(c, t), t.l) == Items(c, t) == Items(GoRight(c, t), t.r)
      ensures Less(key, t.k) ==> AllLess(Before(GoLeft(c, t)), key) && AllGreater(key, After(GoLeft(c, t)))
      ensures Less(t.k, key) ==> AllLess(Before(GoRight(c, t)), key) && AllGreater(key, After(GoRight(c, t)))
    {
      hide Sorted, AllLess, AllGreater, Less;
      var a, b := Before(c) + Inorder(t.l), Inorder(t.r) + After(c);
      assert Items(c, t) == a + [(t.k, t.v)] + b;
      LiftItems(GoLeft(c, t), t.l);
      LiftItems(GoRight(c, t), t.r);
      if Less(key, t.k) {
        BoundRight(a, t.k, t.v, b, key);
        assert After(GoLeft(c, t)) == [(t.k, t.v)] + b;
      }
      if Less(t.k, key) {
        BoundLeft(a, t.k, t.v, b, key);
        assert Before(GoRight(c, t)) == a + [(t.k, t.v)];
      }
    }

    lemma SearchEnds(c: Path, t: Shape, x: Node, p: Node, key: Text)
      requires Searching(c, t, x, p, key)
      ensures t.E? ==> key !in Contents()
      ensures t.N? && t.k == key ==> key in Contents() && Contents()[key] == t.v == x.value && x.parent == p
    {
      if t.E? {
        assert Inorder(shape) == Before(c) + After(c);
        forall i | 0 <= i < |Inorder(shape)| ensures Inorder(shape)[i].0 != key {
          Trichotomy(Inorder(shape)[i].0, key);
        }
        MapKeys(Inorder(shape), key);
      } else {
        var i := |Before(c)| + |Inorder(t.l)|;
        assert Inorder(shape)[i] == (t.k, t.v);
        SortedDistinct(Inorder(shape));
        MapAt(Inorder(shape), i);
        assert Memory()[x].parent == x.parent && Memory()[x].value == x.value;
      }
    }

    method Search(key: Text) returns (node: Node, ghost c: Path, ghost t: Shape, ghost steps: nat)
      requires Valid()
      ensures key in Contents() <==> node != nil
      ensures node != nil ==>
                && node in nodes && t.N? && Holds(c, t, node, node.parent) && Ids(t) + PathIds(c) == Ids(shape)
                && Items(c, t) == Inorder(shape) && Fits(c, t)
                && node.key == t.k == key && node.value == t.v == Contents()[key]
      ensures Pow2(steps) <= (|Inorder(shape)| + 1) * (|Inorder(shape)| + 1)
    {
      hide Holds, RedBlack, Searching, Valid, Contents, Fits;
      node := root;
      ghost var p := nil;
      c, t, steps := Top, shape, 0;
      SearchStarts(key);
      while node != nil
        invariant Searching(c, t, node, p, key) && Fits(c, t)
        invariant steps + Height(t) <= Height(shape)
        decreases t
      {
        SearchStep(c, t, node, p, key);
        FitsBelow(c, t);
        steps := steps + 1;
        if Strcmp(key, node.key) < 0 {
          c, t, p, node := GoLeft(c, t), t.l, node, node.left;
        } else if Strcmp(key, node.key) > 0 {
          Trichotomy(key, node.key);
          c, t, p, node := GoRight(c, t), t.r, node, node.right;
        } else {
          StrcmpZero(key, node.key);
          SearchEnds(c, t, node, p, key);
          SearchFound(c, t, node, p, key);
          StepBound(steps);
          return;
        }
      }
      SearchStep(c, t, node, p, key);
      SearchEnds(c, t, node, p, key);
      StepBound(steps);
    }

    lemma SearchFound(c: Path, t: Shape, x: Node, p: Node, key: Text)
      requires Searching(c, t, x, p, key) && t.N?
      ensures x in nodes && Holds(c, t, x, x.parent) && Ids(t) + PathIds(c) == Ids(shape)
      ensures Items(c, t) == Inorder(shape)
    {
      assert Memory()[x].parent == x.parent;
    }

    lemma StepBound(steps: nat)
      requires RedBlack(shape) && steps <= Height(shape)
      ensures Pow2(steps) <= (|Inorder(shape)| + 1) * (|Inorder(shape)| + 1)
    {
      HeightBound(shape);
      SizeIsLength(shape);
      Pow2Monotone(steps, Height(shape));
    }

    /** The descent of rbtree_insert: the node to hang key under, unless key is present. */
    method Locate(key: Text) returns (y: Node, found: bool, ghost c: Path)
      requires Valid()
      ensures found <==> key in Contents()
      ensures !found ==>
                && y in nodes && At(Memory(), c, E, nil, y, root, nil) && PathIds(c) + {nil} == nodes
                && Before(c) + After(c) == Inorder(shape) && Sorted(Inorder(shape))
                && AllLess(Before(c), key) && AllGreater(key, After(c))
                && Fits(c, E) && (c.Lft? ==> Less(key, c.k)) && (c.Rgt? ==> Less(c.k, key))
    {
      hide Holds, Searching, Valid, Contents, Fits, Strcmp;
      y := nil;
      var x := root;
      ghost var t;
      c, t := Top, shape;
      SearchStarts(key);
      while x != nil
        invariant Searching(c, t, x, y, key) && y in nodes && Fits(c, t)
        invariant (c.Lft? ==> Less(key, c.k)) && (c.Rgt? ==> Less(c.k, key))
        decreases t
      {
        SearchStep(c, t, x, y, key);
        FitsBelow(c, t);
        ghost var p := y;
        y := x;
        if Strcmp(key, x.key) < 0 {
          c, t, x := GoLeft(c, t), t.l, x.left;
        } else if Strcmp(key, x.key) > 0 {
          Trichotomy(key, x.key);
          c, t, x := GoRight(c, t), t.r, x.right;
        } else {
          StrcmpZero(key, x.key);
          SearchEnds(c, t, x, p, key);
          return y, true, c;
        }
      }
      SearchStep(c, t, x, y, key);
      SearchEnds(c, t, x, y, key);
      SearchPlace(c, t, x, y, key);
      found := false;
    }

    /** rbtree_insert: z enters the tree, unless its key is there already. */
    method Insert(z: Node)
      requires Valid() && z !in nodes + freed
      modifies this`root, this`nodes, this`shape, nodes, z
      ensures Valid() && z.key == old(z.key) && z.value == old(z.value) && nil == old(nil)
      ensures old(z.key in Contents()) ==>
                shape == old(shape) && nodes == old(nodes) && Memory() == old(Memory()) && root == old(root)
      ensures old(z.key !in Contents()) ==>
                Contents() == old(Contents())[z.key := z.value] && nodes == old(nodes) + {z}
    {
      hide Holds, Fits, Valid, RedPending, Sorted, AllLess, AllGreater, Items, At, Before, After, Inorder, PathIds, ToMap, Less, RedBlack;
      NodesOf();
      var y, found;
      ghost var c;
      y, found, c := Locate(z.key);
      if found {
        return;
      }
      ghost var t: Shape := N(E, z, Red, z.key, z.value, E);
      SortedInsert(Before(c), z.key, z.value, After(c));
      LeafPending(c, t);
      Attach(z, y, c);
      shape := InsertFixup(z, c, t);
      assert nodes == Ids(shape) + {nil};
      Validated();
    }

    lemma AttachReady(z: Node, y: Node, c: Path)
      requires nil in nodes && y in nodes && At(Memory(), c, E, nil, y, root, nil) && PathIds(c) + {nil} == nodes
      requires z !in nodes
      requires (c.Lft? ==> Less(z.key, c.k)) && (c.Rgt? ==> Less(c.k, z.key))
      ensures y == nil <==> c.Top?
      ensures y != nil ==> (Strcmp(z.key, y.key) < 0 <==> c.Lft?)
      ensures z !in PathIds(c) + {nil} && nil !in PathIds(c) && y in Memory()
    {
      PathRepIds(Memory(), c, nil, y, root, nil);
      if !c.Top? {
        assert Memory()[y].key == y.key;
        Trichotomy(z.key, c.k);
        Trichotomy(c.k, z.key);
      }
    }

    /** The writes that link z in below y as a red leaf, on the side that the keys say. */
    method WriteLinks(z: Node, y: Node, left: bool)
      requires z != y && z != nil && (y != nil ==> (Strcmp(z.key, y.key) < 0 <==> left))
      modifies this`root, z`parent, z`left, z`right, z`color, y`left, y`right
      ensures root == if y == nil then z else old(root)
      ensures z.parent == y && z.left == nil && z.right == nil && z.color == Red
      ensures y.left == (if y != nil && left then z else old(y.left)) && y.right == (if y != nil && !left then z else old(y.right))
    {
      hide Strcmp;
      z.parent := y;
      if y == nil {
        root := z;
      } else if Strcmp(z.key, y.key) < 0 {
        y.left := z;
      } else {
        y.right := z;
      }
      z.left := nil;
      z.right := nil;
      z.color := Red;
    }

    /** The middle of rbtree_insert: z is linked in below y as a red leaf. */
    method Attach(z: Node, y: Node, ghost c: Path)
      requires nil in nodes && y in nodes && At(Memory(), c, E, nil, y, root, nil) && PathIds(c) + {nil} == nodes
      requires z !in nodes
      requires (c.Lft? ==> Less(z.key, c.k)) && (c.Rgt? ==> Less(c.k, z.key))
      modifies this`root, this`nodes, nodes, z
      ensures nodes == old(nodes) + {z}
      ensures z.key == old(z.key) && z.value == old(z.value) && z.parent == y
      ensures Holds(c, N(E, z, Red, z.key, z.value, E), z, y)
    {
      hide Rep, PathRep, Once, PathOnce, Strcmp, Holds, At, Ids, PathIds;
      ghost var m := Memory();
      AttachReady(z, y, c);
      WriteLinks(z, y, Strcmp(z.key, y.key) < 0);
      nodes := nodes + {z};
      AttachAt(m, Memory(), c, z, y, old(root), nil);
      Attached(c, z, y);
    }

    lemma Attached(c: Path, z: Node, y: Node)
      requires z in nodes && nil in nodes && PathIds(c) <= nodes
      requires At(Memory(), c, N(E, z, Red, z.key, z.value, E), z, y, root, nil)
      ensures Holds(c, N(E, z, Red, z.key, z.value, E), z, y)
    {
    }

    // ----- deletion

    /** Invariant of the deletion fixup: x, possibly the sentinel with its scratch parent
        link, roots t under c, and paths through t are one black node short. */
    ghost predicate Deleting(c: Path, t: Shape, x: Node, items: seq<Pair>, ids: set<Node>)
      reads this`root, this`nil, this`nodes, nodes
    {
      && x in nodes && Holds(c, t, x, x.parent) && BlackDue(c, t)
      && Items(c, t) == items && Ids(t) + PathIds(c) == ids
    }

    lemma AtRoot(c: Path, t: Shape, x: Node)
      requires x in nodes && Holds(c, t, x, x.parent)
      ensures x == root <==> c.Top?
      ensures x.color == t.Col()
    {
      var m := Memory();
      RootInPath(m, c, x, x.parent, root, nil);
      PathRepIds(m, c, x, x.parent, root, nil);
      assert m[x].color == x.color;
    }

    /** The relatives of x that a round looks at; the sibling is a real node. */
    lemma Relatives(c: Path, t: Shape, x: Node)
      requires x in nodes && Holds(c, t, x, x.parent) && BlackDue(c, t) && !c.Top?
      ensures Sibling(c).N? && Sibling(c).id in nodes && Sibling(c).id != nil
      ensures x.parent in nodes && x.parent != nil && x.parent == c.id && x.parent.color == c.c
      ensures c.Lft? <==> x == x.parent.left
      ensures Sibling(c).id == if c.Lft? then x.parent.right else x.parent.left
      ensures var w := Sibling(c).id;
              && w.parent == x.parent && w.color == Sibling(c).c && w.left in nodes && w.right in nodes
              && w.left.color == Sibling(c).l.Col() && w.right.color == Sibling(c).r.Col()
              && (Sibling(c).l.N? ==> w.left == Sibling(c).l.id)
              && (Sibling(c).r.N? ==> w.right == Sibling(c).r.id)
    {
      DueSibling(c, t);
      var m, p := Memory(), x.parent;
      PathRepIds(m, c, x, p, root, nil);
      ToSibling(m, c, t, x, p, root, nil);
      RepIds(m, t, x, p, nil);
      var s := Sibling(c);
      var w := s.id;
      assert m[p].left == p.left && m[p].right == p.right && m[p].color == p.color;
      RepIds(m, s, w, p, nil);
      assert m[w].left == w.left && m[w].right == w.right && m[w].color == w.color;
      RepIds(m, s.l, w.left, w, nil);
      RepIds(m, s.r, w.right, w, nil);
      assert m[w.left].color == w.left.color && m[w.right].color == w.right.color;
    }

    /** The parent's subtree after a red sibling has turned black and the parent red. */
    static ghost function SiblingRaised(c: Path, t: Shape): Shape
      requires !c.Top? && Sibling(c).N?
    {
      Lift(PaintSibling(Paint(c, Red), Black), t)
    }

    lemma RedLeftReady(c: Path, t: Shape, x: Node, w: Node, items: seq<Pair>, ids: set<Node>)
      requires Deleting(c, t, x, items, ids) && t.Col().Black? && c.Lft? && c.r.Col().Red? && w == c.r.id
      ensures Sibling(c).N? && {w, x.parent, nil, x} <= nodes && ids <= nodes
      ensures (t.E? ==> x == nil) && (t.N? ==> x == t.id)
      ensures var m, p, v := Memory(), x.parent, SiblingRaised(c, t);
              && {w, p} <= m.Keys && v.N? && v.r.N? && v.id == p && v.r.id == w && p != nil
              && var m' := Painted(Painted(m, w, Black), p, Red);
              && m'[p].parent == m[p].parent && At(m', c.up, v, p, m[p].parent, root, nil)
              && nil in m && m'[nil] == m[nil] && (t.E? ==> m[nil].parent == p)
              && Ids(v) + PathIds(c.up) == ids
              && var u := RotateLeft(v);
              && u.N? && u.l.N? && u.id == w && u.l.id == p && u.l.l == t && Ids(v) == Ids(u)
              && var c' := GoLeft(GoLeft(c.up, u), u.l);
              && BlackDue(c', t) && c'.Lft? && c'.r.Col().Black? && c'.c.Red? && c'.Depth() == c.Depth() + 1
              && Items(c', t) == items
    {
      Relatives(c, t, x);
      RedSiblingLeft(c, t);
      SiblingParentPaintAt(Memory(), c, t, x, x.parent, root, nil);
      RotateLeftOnce(SiblingRaised(c, t));
      assert Memory()[x].parent == x.parent;
    }

    /** Two steps down from u is where x now hangs. */
    lemma SunkLeft(up: Path, u: Shape, t: Shape, x: Node, items: seq<Pair>, ids: set<Node>)
      requires u.N? && u.l.N? && u.l.l == t && u.id in nodes && Holds(up, u, u.id, u.id.parent)
      requires x in nodes && (t.E? ==> x == nil && x in Memory() && Memory()[x].parent == u.l.id) && (t.N? ==> x == t.id)
      requires Ids(u) + PathIds(up) == ids
      requires var c' := GoLeft(GoLeft(up, u), u.l); BlackDue(c', t) && Items(c', t) == items
      ensures Deleting(GoLeft(GoLeft(up, u), u.l), t, x, items, ids)
    {
      var m := Memory();
      Descend(m, up, u, u.id, u.id.parent, root, nil);
      Descend(m, GoLeft(up, u), u.l, u.l.id, u.id, root, nil);
      assert m[x].parent == x.parent;
    }

    method RedSiblingOfLeft(x: Node, w: Node, ghost c: Path, ghost t: Shape, ghost items: seq<Pair>, ghost ids: set<Node>)
        returns (ghost c': Path)
      requires Deleting(c, t, x, items, ids) && t.Col().Black? && c.Lft? && c.r.Col().Red? && w == c.r.id
      modifies this`root, nodes`color, nodes`left, nodes`right, nodes`parent
      ensures Deleting(c', t, x, items, ids) && c'.Lft? && c'.r.Col().Black?
      ensures c'.c.Red? && c'.Depth() == c.Depth() + 1
    {
      hide *;
      RedLeftReady(c, t, x, w, items, ids);
      ghost var m, p, v := Memory(), x.parent, SiblingRaised(c, t);
      SetColor(w, Black);
      SetColor(x.parent, Red);
      Held(c.up, v, p, m[p].parent);
      RotateLeftAt(x.parent, c.up, v);
      SunkLeft(c.up, RotateLeft(v), t, x, items, ids);
      c' := GoLeft(GoLeft(c.up, RotateLeft(v)), RotateLeft(v).l);
    }

    lemma RedRightReady(c: Path, t: Shape, x: Node, w: Node, items: seq<Pair>, ids: set<Node>)
      requires Deleting(c, t, x, items, ids) && t.Col().Black? && c.Rgt? && c.l.Col().Red? && w == c.l.id
      ensures Sibling(c).N? && {w, x.parent, nil, x} <= nodes && ids <= nodes
      ensures (t.E? ==> x == nil) && (t.N? ==> x == t.id)
      ensures var m, p, v := Memory(), x.parent, SiblingRaised(c, t);
              && {w, p} <= m.Keys && v.N? && v.l.N? && v.id == p && v.l.id == w && p != nil
              && var m' := Painted(Painted(m, w, Black), p, Red);
              && m'[p].parent == m[p].parent && At(m', c.up, v, p, m[p].parent, root, nil)
              && nil in m && m'[nil] == m[nil] && (t.E? ==> m[nil].parent == p)
              && Ids(v) + PathIds(c.up) == ids
              && var u := RotateRight(v);
              && u.N? && u.r.N? && u.id == w && u.r.id == p && u.r.r == t && Ids(v) == Ids(u)
              && var c' := GoRight(GoRight(c.up, u), u.r);
              && BlackDue(c', t) && c'.Rgt? && c'.l.Col().Black? && c'.c.Red? && c'.Depth() == c.Depth() + 1
              && Items(c', t) == items
    {
      Relatives(c, t, x);
      RedSiblingRight(c, t);
      SiblingParentPaintAt(Memory(), c, t, x, x.parent, root, nil);
      RotateRightOnce(SiblingRaised(c, t));
      assert Memory()[x].parent == x.parent;
    }

    /** Two steps down from u is where x now hangs. */
    lemma SunkRight(up: Path, u: Shape, t: Shape, x: Node, items: seq<Pair>, ids: set<Node>)
      requires u.N? && u.r.N? && u.r.r == t && u.id in nodes && Holds(up, u, u.id, u.id.parent)
      requires x in nodes && (t.E? ==> x == nil && x in Memory() && Memory()[x].parent == u.r.id) && (t.N? ==> x == t.id)
      requires Ids(u) + PathIds(up) == ids
      requires var c' := GoRight(GoRight(up, u), u.r); BlackDue(c', t) && Items(c', t) == items
      ensures Deleting(GoRight(GoRight(up, u), u.r), t, x, items, ids)
    {
      var m := Memory();
      Descend(m, up, u, u.id, u.id.parent, root, nil);
      Descend(m, GoRight(up, u), u.r, u.r.id, u.id, root, nil);
      assert m[x].parent == x.parent;
    }

    method RedSiblingOfRight(x: Node, w: Node, ghost c: Path, ghost t: Shape, ghost items: seq<Pair>, ghost ids: set<Node>)
        returns (ghost c': Path)
      requires Deleting(c, t, x, items, ids) && t.Col().Black? && c.Rgt? && c.l.Col().Red? && w == c.l.id
      modifies this`root, nodes`color, nodes`left, nodes`right, nodes`parent
      ensures Deleting(c', t, x, items, ids) && c'.Rgt? && c'.l.Col().Black?
      ensures c'.c.Red? && c'.Depth() == c.Depth() + 1
    {
      hide *;
      RedRightReady(c, t, x, w, items, ids);
      ghost var m, p, v := Memory(), x.parent, SiblingRaised(c, t);
      SetColor(w, Black);
      SetColor(x.parent, Red);
      Held(c.up, v, p, m[p].parent);
      RotateRightAt(x.parent, c.up, v);
      SunkRight(c.up, RotateRight(v), t, x, items, ids);
      c' := GoRight(GoRight(c.up, RotateRight(v)), RotateRight(v).r);
    }

    method RedSibling(x: Node, w: Node, ghost c: Path, ghost t: Shape, ghost items: seq<Pair>, ghost ids: set<Node>)
        returns (x': Node)
      requires Deleting(c, t, x, items, ids) && t.Col().Black? && !c.Top? && Sibling(c).N? && w == Sibling(c).id
      requires Sibling(c).c.Black? && Sibling(c).l.Col().Black? && Sibling(c).r.Col().Black?
      modifies nodes`color
      ensures Deleting(c.up, Lift(PaintSibling(c, Red), t), x', items, ids)
      ensures x'.color == c.c
    {
      Relatives(c, t, x);
      BlackNephews(c, t);
      PaintSiblingAt(Memory(), c, t, x, x.parent, root, nil, Red);
      SetColor(w, Red);
      x' := x.parent;
      Ascend(Memory(), PaintSibling(c, Red), t, x, x', root, nil);
    }

    method NearNephewOfLeft(x: Node, w: Node, ghost c: Path, ghost t: Shape, ghost items: seq<Pair>, ghost ids: set<Node>)
        returns (ghost c': Path)
      requires Deleting(c, t, x, items, ids) && t.Col().Black? && c.Lft? && c.r.N? && w == c.r.id
      requires c.r.c.Black? && c.r.l.Col().Red? && c.r.r.Col().Black?
      modifies this`root, nodes`color, nodes`left, nodes`right, nodes`parent
      ensures Deleting(c', t, x, items, ids) && c'.Lft? && c'.r.N? && c'.r.c.Black? && c'.r.r.Col().Red?
      ensures c'.Depth() == c.Depth() && c'.up == c.up
    {
      Relatives(c, t, x);
      NearNephewLeft(c, t);
      NearPaintLeftAt(Memory(), c, t, x, x.parent, root, nil);
      ghost var p, v := x.parent, c.r.(c := Red, l := c.r.l.(c := Black));
      SetColor(w.left, Black);
      SetColor(w, Red);
      RotateRightAt(w, Other(c, t), v);
      ghost var s := RotateRight(v);
      ToSibling(Memory(), Other(c, t), s, s.id, p, root, nil);
      c' := WithSibling(c, s);
      assert x.parent == p && Memory()[x].parent == x.parent;
    }

    method NearNephewOfRight(x: Node, w: Node, ghost c: Path, ghost t: Shape, ghost items: seq<Pair>, ghost ids: set<Node>)
        returns (ghost c': Path)
      requires Deleting(c, t, x, items, ids) && t.Col().Black? && c.Rgt? && c.l.N? && w == c.l.id
      requires c.l.c.Black? && c.l.r.Col().Red? && c.l.l.Col().Black?
      modifies this`root, nodes`color, nodes`left, nodes`right, nodes`parent
      ensures Deleting(c', t, x, items, ids) && c'.Rgt? && c'.l.N? && c'.l.c.Black? && c'.l.l.Col().Red?
      ensures c'.Depth() == c.Depth() && c'.up == c.up
    {
      Relatives(c, t, x);
      NearNephewRight(c, t);
      NearPaintRightAt(Memory(), c, t, x, x.parent, root, nil);
      ghost var p, v := x.parent, c.l.(c := Red, r := c.l.r.(c := Black));
      SetColor(w.right, Black);
      SetColor(w, Red);
      RotateLeftAt(w, Other(c, t), v);
      ghost var s := RotateLeft(v);
      ToSibling(Memory(), Other(c, t), s, s.id, p, root, nil);
      c' := WithSibling(c, s);
      assert x.parent == p && Memory()[x].parent == x.parent;
    }

    /** The parent's subtree when a far red nephew lets the debt be paid. */
    static ghost function FarPainted(c: Path, t: Shape): Shape
      requires !c.Top? && Sibling(c).N? && (if c.Lft? then c.r.r else c.l.l).N?
    {
      if c.Lft? then Lift(WithSibling(Paint(c, Black), c.r.(c := c.c, r := c.r.r.(c := Black))), t)
      else Lift(WithSibling(Paint(c, Black), c.l.(c := c.c, l := c.l.l.(c := Black))), t)
    }

    lemma FarLeftReady(c: Path, t: Shape, x: Node, w: Node, items: seq<Pair>, ids: set<Node>)
      requires Deleting(c, t, x, items, ids) && t.Col().Black? && c.Lft? && c.r.N? && w == c.r.id
      requires c.r.c.Black? && c.r.r.Col().Red?
      ensures Sibling(c).N? && c.r.r.N? && {w, x.parent, w.right} <= nodes && w != x.parent && x.parent.color == c.c
      ensures var m, p, v := Memory(), x.parent, FarPainted(c, t);
              && {w, p, w.right} <= m.Keys && v.N? && v.r.N? && v.id == p && v.r.id == w && p != nil
              && var m' := Painted(Painted(Painted(m, w, c.c), p, Black), w.right, Black);
              && m'[p].parent == m[p].parent && At(m', c.up, v, p, m[p].parent, root, nil)
              && Ids(v) + PathIds(c.up) == ids && ids <= nodes && nil in nodes
              && var u := RotateLeft(v);
              Ids(v) == Ids(u) && u.N? && u.id == w && Fits(c.up, u) && Items(c.up, u) == items
    {
      Relatives(c, t, x);
      FarNephewLeft(c, t);
      FarPaintLeftAt(Memory(), c, t, x, x.parent, root, nil);
      RotateLeftOnce(FarPainted(c, t));
    }

    method FarNephewOfLeft(x: Node, w: Node, ghost c: Path, ghost t: Shape, ghost items: seq<Pair>, ghost ids: set<Node>)
        returns (x': Node, ghost t': Shape)
      requires Deleting(c, t, x, items, ids) && t.Col().Black? && c.Lft? && c.r.N? && w == c.r.id
      requires c.r.c.Black? && c.r.r.Col().Red?
      modifies this`root, nodes`color, nodes`left, nodes`right, nodes`parent
      ensures Deleting(Top, t', x', items, ids) && x' == root
    {
      hide *;
      ghost var m, p := Memory(), x.parent;
      FarLeftReady(c, t, x, w, items, ids);
      ghost var v := FarPainted(c, t);
      SetColor(w, x.parent.color);
      SetColor(x.parent, Black);
      SetColor(w.right, Black);
      Held(c.up, v, p, m[p].parent);
      RotateLeftAt(x.parent, c.up, v);
      x', t' := DebtPaid(c.up, RotateLeft(v), items, ids);
    }

    lemma FarRightReady(c: Path, t: Shape, x: Node, w: Node, items: seq<Pair>, ids: set<Node>)
      requires Deleting(c, t, x, items, ids) && t.Col().Black? && c.Rgt? && c.l.N? && w == c.l.id
      requires c.l.c.Black? && c.l.l.Col().Red?
      ensures Sibling(c).N? && c.l.l.N? && {w, x.parent, w.left} <= nodes && w != x.parent && x.parent.color == c.c
      ensures var m, p, v := Memory(), x.parent, FarPainted(c, t);
              && {w, p, w.left} <= m.Keys && v.N? && v.l.N? && v.id == p && v.l.id == w && p != nil
              && var m' := Painted(Painted(Painted(m, w, c.c), p, Black), w.left, Black);
              && m'[p].parent == m[p].parent && At(m', c.up, v, p, m[p].parent, root, nil)
              && Ids(v) + PathIds(c.up) == ids && ids <= nodes && nil in nodes
              && var u := RotateRight(v);
              Ids(v) == Ids(u) && u.N? && u.id == w && Fits(c.up, u) && Items(c.up, u) == items
    {
      Relatives(c, t, x);
      FarNephewRight(c, t);
      FarPaintRightAt(Memory(), c, t, x, x.parent, root, nil);
      RotateRightOnce(FarPainted(c, t));
    }

    method FarNephewOfRight(x: Node, w: Node, ghost c: Path, ghost t: Shape, ghost items: seq<Pair>, ghost ids: set<Node>)
        returns (x': Node, ghost t': Shape)
      requires Deleting(c, t, x, items, ids) && t.Col().Black? && c.Rgt? && c.l.N? && w == c.l.id
      requires c.l.c.Black? && c.l.l.Col().Red?
      modifies this`root, nodes`color, nodes`left, nodes`right, nodes`parent
      ensures Deleting(Top, t', x', items, ids) && x' == root
    {
      hide *;
      ghost var m, p := Memory(), x.parent;
      FarRightReady(c, t, x, w, items, ids);
      ghost var v := FarPainted(c, t);
      SetColor(w, x.parent.color);
      SetColor(x.parent, Black);
      SetColor(w.left, Black);
      Held(c.up, v, p, m[p].parent);
      RotateRightAt(x.parent, c.up, v);
      x', t' := DebtPaid(c.up, RotateRight(v), items, ids);
    }

    /** "x = T->root": the loop is over, because the whole tree is in order. */
    method DebtPaid(ghost c: Path, ghost u: Shape, ghost items: seq<Pair>, ghost ids: set<Node>)
        returns (x': Node, ghost t': Shape)
      requires u.N? && u.id in nodes && Holds(c, u, u.id, u.id.parent) && Fits(c, u)
      requires Items(c, u) == items && Ids(u) + PathIds(c) == ids
      ensures Deleting(Top, t', x', items, ids) && x' == root
    {
      AscendAll(Memory(), c, u, u.id, u.id.parent, root, nil);
      FitsWhole(c, u);
      x', t' := root, Fill(c, u);
      RepIds(Memory(), t', root, nil, nil);
      WholeDue(t');
      assert x' in nodes && Memory()[x'].parent == x'.parent;
    }

    lemma Round(c: Path, t: Shape, x: Node, items: seq<Pair>, ids: set<Node>)
      requires Deleting(c, t, x, items, ids) && !c.Top?
      ensures Sibling(c).N? && x.parent in nodes && c.Depth() == c.up.Depth() + 1
      ensures Sibling(c).id == if c.Lft? then x.parent.right else x.parent.left
      ensures var w := Sibling(c).id;
              && w.color == Sibling(c).c && w.left in nodes && w.right in nodes
              && w.left.color == Sibling(c).l.Col() && w.right.color == Sibling(c).r.Col()
    {
      Relatives(c, t, x);
    }

    /** One round of the fixup when x is a left child. */
    method DeleteRoundLeft(x: Node, ghost c: Path, ghost t: Shape, ghost items: seq<Pair>, ghost ids: set<Node>)
        returns (x': Node, ghost c': Path, ghost t': Shape)
      requires Deleting(c, t, x, items, ids) && t.Col().Black? && c.Lft?
      modifies this`root, nodes`color, nodes`left, nodes`right, nodes`parent
      ensures Deleting(c', t', x', items, ids)
      ensures c'.Depth() < c.Depth() || (c'.Depth() == c.Depth() && t'.Col().Red?)
    {
      hide Deleting, Holds, BlackDue;
      x', c', t' := x, c, t;
      Round(c', t', x, items, ids);
      var w := x.parent.right;
      if w.color.Red? {
        c' := RedSiblingOfLeft(x, w, c', t', items, ids);
        Round(c', t', x, items, ids);
        w := x.parent.right;
      }
      if w.left.color.Black? && w.right.color.Black? {
        x' := RedSibling(x, w, c', t', items, ids);
        c', t' := c'.up, Lift(PaintSibling(c', Red), t');
      } else {
        if w.right.color.Black? {
          c' := NearNephewOfLeft(x, w, c', t', items, ids);
          Round(c', t', x, items, ids);
          w := x.parent.right;
        }
        x', t' := FarNephewOfLeft(x, w, c', t', items, ids);
        c' := Top;
      }
    }

    /** One round of the fixup when x is a right child. */
    method DeleteRoundRight(x: Node, ghost c: Path, ghost t: Shape, ghost items: seq<Pair>, ghost ids: set<Node>)
        returns (x': Node, ghost c': Path, ghost t': Shape)
      requires Deleting(c, t, x, items, ids) && t.Col().Black? && c.Rgt?
      modifies this`root, nodes`color, nodes`left, nodes`right, nodes`parent
      ensures Deleting(c', t', x', items, ids)
      ensures c'.Depth() < c.Depth() || (c'.Depth() == c.Depth() && t'.Col().Red?)
    {
      hide Deleting, Holds, BlackDue;
      x', c', t' := x, c, t;
      Round(c', t', x, items, ids);
      var w := x.parent.left;
      if w.color.Red? {
        c' := RedSiblingOfRight(x, w, c', t', items, ids);
        Round(c', t', x, items, ids);
        w := x.parent.left;
      }
      if w.left.color.Black? && w.right.color.Black? {
        x' := RedSibling(x, w, c', t', items, ids);
        c', t' := c'.up, Lift(PaintSibling(c', Red), t');
      } else {
        if w.left.color.Black? {
          c' := NearNephewOfRight(x, w, c', t', items, ids);
          Round(c', t', x, items, ids);
          w := x.parent.left;
        }
        x', t' := FarNephewOfRight(x, w, c', t', items, ids);
        c' := Top;
      }
    }

    /** rbtree_delete_fixup: pays the missing black node back. */
    method DeleteFixup(x0: Node, ghost c0: Path, ghost t0: Shape, ghost items: seq<Pair>, ghost ids: set<Node>)
        returns (ghost t': Shape)
      requires Deleting(c0, t0, x0, items, ids)
      modifies this`root, nodes`color, nodes`left, nodes`right, nodes`parent
      ensures Holds(Top, t', root, nil) && RedBlack(t') && Inorder(t') == items && Ids(t') == ids
    {
      var x := x0;
      ghost var c, t := c0, t0;
      AtRoot(c, t, x);
      while x != root && x.color.Black?
        invariant Deleting(c, t, x, items, ids)
        invariant (x == root <==> c.Top?) && x.color == t.Col()
        decreases c.Depth(), if t.Col().Black? then 1 else 0
      {
        Relatives(c, t, x);
        if x == x.parent.left {
          x, c, t := DeleteRoundLeft(x, c, t, items, ids);
        } else {
          x, c, t := DeleteRoundRight(x, c, t, items, ids);
        }
        AtRoot(c, t, x);
      }
      t' := DeleteFinish(x, c, t, items, ids);
    }

    /** The last line of the fixup: x becomes black. */
    method DeleteFinish(x: Node, ghost c: Path, ghost t: Shape, ghost items: seq<Pair>, ghost ids: set<Node>)
        returns (ghost t': Shape)
      requires Deleting(c, t, x, items, ids) && (c.Top? || t.Col().Red?)
      modifies nodes`color
      ensures Holds(Top, t', root, nil) && RedBlack(t') && Inorder(t') == items && Ids(t') == ids
    {
      DuePaid(c, t);
      ghost var m, u := Memory(), if t.E? then t else t.(c := Black);
      if t.N? {
        Recolor(m, c, t, x, x.parent, root, nil, Black);
      } else {
        assert Painted(m, nil, Black) == m;
      }
      SetColor(x, Black);
      AscendAll(Memory(), c, u, x, x.parent, root, nil);
      FitsWhole(c, u);
      t' := Fill(c, u);
    }

    /** rbtree_mini: down the left spine. */
    method Mini(x0: Node, ghost c0: Path, ghost t0: Shape) returns (x: Node, ghost c: Path, ghost t: Shape)
      requires x0 in nodes && Holds(c0, t0, x0, x0.parent) && t0.N?
      ensures x in nodes && x != nil && x.left == nil && t == MinTree(t0) && c == MinCtx(c0, t0)
      ensures x == t.id && Holds(c, t, x, x.parent)
    {
      x, c, t := x0, c0, t0;
      LeftOf(c, t, x);
      while x.left != nil
        invariant x in nodes && Holds(c, t, x, x.parent) && t.N? && x == t.id
        invariant x.left in nodes && (x.left != nil <==> t.l.N?)
        invariant MinTree(t) == MinTree(t0) && MinCtx(c, t) == MinCtx(c0, t0)
        decreases t
      {
        Descend(Memory(), c, t, x, x.parent, root, nil);
        ghost var p := x;
        x := x.left;
        c, t := GoLeft(c, t), t.l;
        assert Memory()[x].parent == x.parent;
        LeftOf(c, t, x);
      }
    }

    lemma LeftOf(c: Path, t: Shape, x: Node)
      requires x in nodes && Holds(c, t, x, x.parent) && t.N?
      ensures x == t.id && x.left in nodes && x.right in nodes
      ensures x.left != nil <==> t.l.N?
      ensures x.right != nil <==> t.r.N?
      ensures t.l.N? ==> x.left == t.l.id
      ensures t.r.N? ==> x.right == t.r.id
    {
      var m := Memory();
      RepIds(m, t, x, x.parent, nil);
      assert m[x].left == x.left && m[x].right == x.right;
      RepIds(m, t.l, x.left, x, nil);
      RepIds(m, t.r, x.right, x, nil);
    }

    /** rbtree_successor: the node whose pair comes right after x's, or the sentinel. */
    method Successor(x0: Node, ghost c0: Path, ghost t0: Shape) returns (y: Node, ghost c: Path, ghost t: Shape)
      requires x0 in nodes && Holds(c0, t0, x0, x0.parent) && t0.N?
      ensures y == nil ==> Items(c0, t0) == Before(c0) + Inorder(t0.l) + [(t0.k, t0.v)]
      ensures y != nil ==>
                && y in nodes && t.N? && y == t.id && Holds(c, t, y, y.parent)
                && Before(c) + Inorder(t.l) == Before(c0) + Inorder(t0.l) + [(t0.k, t0.v)]
                && Items(c, t) == Items(c0, t0)
      ensures t0.r.N? ==> y != nil && c == MinCtx(GoRight(c0, t0), t0.r) && t == MinTree(t0.r)
    {
      hide Holds, Before, Items;
      var x := x0;
      y := x.parent;
      LeftOf(c0, t0, x);
      if x.right != nil {
        RightFocus(c0, t0, x);
        y, c, t := Mini(x.right, GoRight(c0, t0), t0.r);
        return;
      }
      c, t := c0, t0;
      ghost var seen := Before(c0) + Inorder(t0.l) + [(t0.k, t0.v)];
      assert Before(c) + Inorder(t) == seen;
      ParentOf(c, t, x);
      while y != nil && x == y.right
        invariant x in nodes && Holds(c, t, x, y) && t.N? && Items(c, t) == Items(c0, t0)
        invariant y in nodes && (y == nil <==> c.Top?) && (y != nil ==> (x == y.right <==> c.Rgt?))
        invariant y == x.parent && Before(c) + Inorder(t) == seen
        decreases c
      {
        ParentOf(c, t, x);
        c, t := c.up, Lift(c, t);
        x := y;
        y := y.parent;
        ParentOf(c, t, x);
      }
      ParentOf(c, t, x);
      if y != nil {
        c, t := c.up, Lift(c, t);
      }
    }

    lemma RightFocus(c: Path, t: Shape, x: Node)
      requires x in nodes && Holds(c, t, x, x.parent) && t.N? && t.r.N?
      ensures x.right in nodes && Holds(GoRight(c, t), t.r, x.right, x.right.parent)
      ensures var d, u := MinCtx(GoRight(c, t), t.r), MinTree(t.r);
              Before(d) + Inorder(u.l) == Before(c) + Inorder(t.l) + [(t.k, t.v)] && Items(d, u) == Items(c, t)
    {
      hide Rep, PathRep, Before, After, Inorder, Items, MinCtx, MinTree;
      LeftOf(c, t, x);
      Descend(Memory(), c, t, x, x.parent, root, nil);
      RepRoot(Memory(), t.r, x.right, x);
      assert Memory()[x.right].parent == x.right.parent;
      RightItems(c, t);
    }

    /** The least pair on the right comes right after the pair at the root of t. */
    static lemma RightItems(c: Path, t: Shape)
      requires t.N? && t.r.N?
      ensures var d, u := MinCtx(GoRight(c, t), t.r), MinTree(t.r);
              Before(d) + Inorder(u.l) == Before(c) + Inorder(t.l) + [(t.k, t.v)] && Items(d, u) == Items(c, t)
    {
      var d := GoRight(c, t);
      MinKeeps(d, t.r);
      assert Items(MinCtx(d, t.r), MinTree(t.r)) == Before(d) + (Inorder(t.r) + After(d));
      LiftItems(d, t.r);
    }

    lemma ParentOf(c: Path, t: Shape, x: Node)
      requires x in nodes && Holds(c, t, x, x.parent) && t.N?
      ensures x.parent in nodes && (x.parent == nil <==> c.Top?)
      ensures c.Top? ==> Items(c, t) == Before(c) + Inorder(t)
      ensures !c.Top? ==>
                && x.parent == c.id && x.parent.parent in nodes && (x == x.parent.right <==> c.Rgt?)
                && Holds(c.up, Lift(c, t), x.parent, x.parent.parent) && Items(c.up, Lift(c, t)) == Items(c, t)
      ensures c.Rgt? ==> Before(c.up) + Inorder(Lift(c, t)) == Before(c) + Inorder(t)
      ensures c.Lft? ==> Before(c.up) + Inorder(Lift(c, t).l) == Before(c) + Inorder(t)
    {
      var m := Memory();
      PathRepIds(m, c, x, x.parent, root, nil);
      RepIds(m, t, x, x.parent, nil);
      if !c.Top? {
        Ascend(m, c, t, x, x.parent, root, nil);
        LiftItems(c, t);
        assert m[x.parent].right == x.parent.right && m[x.parent].parent == x.parent.parent;
        PathRepIds(m, c.up, x.parent, x.parent.parent, root, nil);
      }
    }

    /** The link surgery of rbtree_delete: y's only child, or the sentinel, takes its place. */
    method Splice(y: Node) returns (x: Node)
      requires {y, nil, y.left, y.right, y.parent} <= nodes && y != nil
      requires y.left == nil || y.right == nil
      requires y.parent != y && Hangs(y, y.parent)
      requires var x := if y.left != nil then y.left else y.right; x != y && (x != nil ==> x != y.parent)
      modifies this`root, nodes`left, nodes`right, nodes`parent
      ensures x == old(if y.left != nil then y.left else y.right)
      ensures Spliced(old(Memory()), Memory(), y, x, old(y.parent), nil)
      ensures root == if old(y.parent) == nil then x else old(root)
    {
      x := nil;
      if y.left != nil {
        x := y.left;
      } else if y.right != nil {
        x := y.right;
      }

      x.parent := y.parent;
      if y.parent == nil {
        root := x;
      } else if y == y.parent.left {
        y.parent.left := x;
      } else {
        y.parent.right := x;
      }
    }

    /** Keys and values of z and y change hands. */
    method SwapPairs(z: Node, y: Node)
      requires z in nodes && y in nodes
      modifies z`key, z`value, y`key, y`value
      ensures Memory() == Swapped(old(Memory()), z, y)
      ensures y.key == old(z.key) && y.value == old(z.value) && z.key == old(y.key) && z.value == old(y.value)
    {
      z.key, y.key := y.key, z.key;
      z.value, y.value := y.value, z.value;
    }

    lemma SpliceReady(c: Path, t: Shape, y: Node)
      requires y in nodes && Holds(c, t, y, y.parent) && t.N? && (t.l.E? || t.r.E?)
      ensures y == t.id && y != nil && {y, nil, y.left, y.right, y.parent} <= nodes
      ensures (y.left == nil || y.right == nil) && y.parent != y && Hangs(y, y.parent) && y.color == t.c
      ensures var x := if y.left != nil then y.left else y.right;
              && x != y && (x != nil ==> x != y.parent)
              && x == (if t.l.N? then t.l.id else if t.r.N? then t.r.id else nil)
      ensures var m := Memory(); m[y].key == y.key && m[y].value == y.value && m[y].parent == y.parent
      ensures y.key == t.k && y.value == t.v
    {
      var m := Memory();
      LeftOf(c, t, y);
      HangsAt(c, t, y, y.parent);
      RepIds(m, t, y, y.parent, nil);
      assert m[y].color == y.color && m[y].key == y.key && m[y].value == y.value && m[y].parent == y.parent;
    }

    /** What remains once y is unhooked: c[u] without y, and without z's pair. */
    ghost predicate Unhooked(c: Path, u: Shape, x: Node, y: Node, key: Text, before: map<Text, Text>)
      reads this, nodes
    {
      && {x, y} <= nodes && Holds(c, u, x, x.parent) && y in Ids(shape) && Ids(u) + PathIds(c) == Ids(shape) - {y}
      && Sorted(Items(c, u)) && ToMap(Items(c, u)) == before - {key}
      && (y.color.Black? ==> BlackDue(c, u)) && (y.color.Red? ==> Fits(c, u))
    }

    lemma UnhookedBy(c: Path, u: Shape, x: Node, p: Node, y: Node, key: Text, before: map<Text, Text>)
      requires {x, y, nil} <= nodes && At(Memory(), c, u, x, p, root, nil) && Memory()[x].parent == p
      requires y in Ids(shape) && Ids(u) + PathIds(c) == Ids(shape) - {y} && Ids(shape) <= nodes
      requires Sorted(Items(c, u)) && ToMap(Items(c, u)) == before - {key}
      requires (y.color.Black? ==> BlackDue(c, u)) && (y.color.Red? ==> Fits(c, u))
      ensures Unhooked(c, u, x, y, key, before)
    {
    }

    lemma SelfReady(z: Node, c: Path, t: Shape)
      requires Valid() && z in nodes && t.N? && Holds(c, t, z, z.parent) && (t.l.E? || t.r.E?)
      requires Ids(t) + PathIds(c) == Ids(shape) && Items(c, t) == Inorder(shape) && Fits(c, t)
      ensures var u := OnlyChild(t);
              && Sorted(Items(c, u)) && ToMap(Items(c, u)) == Contents() - {z.key}
              && (z.color.Black? ==> BlackDue(c, u)) && (z.color.Red? ==> Fits(c, u))
      ensures z in Ids(shape) && Ids(shape) <= nodes && At(Memory(), c, t, z, z.parent, root, nil)
      ensures z != nil && {z, nil, z.left, z.right, z.parent} <= nodes
      ensures (z.left == nil || z.right == nil) && z.parent != z && Hangs(z, z.parent)
      ensures var x := if z.left != nil then z.left else z.right;
              && x != z && (x != nil ==> x != z.parent) && x in Memory()
              && x == (if t.l.N? then t.l.id else if t.r.N? then t.r.id else nil)
    {
      SpliceReady(c, t, z);
      SpliceBalance(c, t);
      SpliceItems(c, t);
    }

    /** rbtree_delete up to the fixup when z has at most one child: z itself leaves. */
    method UnhookSelf(z: Node, ghost c: Path, ghost t: Shape) returns (x: Node)
      requires Valid() && z in nodes && t.N? && Holds(c, t, z, z.parent) && (t.l.E? || t.r.E?)
      requires Ids(t) + PathIds(c) == Ids(shape) && Items(c, t) == Inorder(shape) && Fits(c, t)
      modifies this`root, nodes`left, nodes`right, nodes`parent
      ensures Unhooked(c, OnlyChild(t), x, z, z.key, old(Contents()))
    {
      hide *;
      ghost var m, p := Memory(), z.parent;
      SelfReady(z, c, t);
      x := Splice(z);
      SpliceAt(m, Memory(), c, t, z, p, x, old(root), nil);
      SplicedParent(m, Memory(), z, x, p, nil);
      UnhookedBy(c, OnlyChild(t), x, p, z, z.key, old(Contents()));
    }

    /** The facts about z, its successor y and y's child that the writes rest on. */
    lemma SuccessorReady(z: Node, y: Node, c: Path, t: Shape)
      requires Valid() && z in nodes && t.N? && Holds(c, t, z, z.parent) && t.r.N?
      requires Ids(t) + PathIds(c) == Ids(shape) && Items(c, t) == Inorder(shape) && Fits(c, t)
      requires y in nodes && Holds(MinCtx(GoRight(c, t), t.r), MinTree(t.r), y, y.parent)
      ensures var d, u := SuccessorCtx(c, t), OnlyChild(MinTree(t.r));
              && Sorted(Items(d, u)) && ToMap(Items(d, u)) == Contents() - {z.key}
              && (y.color.Black? ==> BlackDue(d, u)) && (y.color.Red? ==> Fits(d, u))
      ensures y == MinTree(t.r).id && y in Ids(shape) && Ids(shape) <= nodes && y != z
      ensures z in Memory() && y in Memory() && At(Memory(), c, t, z, z.parent, root, nil)
      ensures Memory()[y].parent == y.parent
      ensures y != nil && {y, nil, y.left, y.right, y.parent} <= nodes
      ensures (y.left == nil || y.right == nil) && y.parent != y && Hangs(y, y.parent)
      ensures var x := if y.left != nil then y.left else y.right;
              && x != y && (x != nil ==> x != y.parent)
              && x == (if MinTree(t.r).r.N? then MinTree(t.r).r.id else nil)
    {
      SuccessorLeaves(c, t);
      SpliceReady(MinCtx(GoRight(c, t), t.r), MinTree(t.r), y);
      SwapAt(Memory(), c, t, z, z.parent, root, nil);
      RepIds(Memory(), t, z, z.parent, nil);
      assert Memory()[z].key == z.key;
    }

    /** rbtree_delete up to the fixup when z has two children: the successor y leaves with z's pair. */
    method UnhookSuccessor(z: Node, y: Node, ghost c: Path, ghost t: Shape) returns (x: Node)
      requires Valid() && z in nodes && t.N? && Holds(c, t, z, z.parent) && t.r.N?
      requires Ids(t) + PathIds(c) == Ids(shape) && Items(c, t) == Inorder(shape) && Fits(c, t)
      requires y in nodes && Holds(MinCtx(GoRight(c, t), t.r), MinTree(t.r), y, y.parent)
      modifies this`root, nodes`left, nodes`right, nodes`parent, nodes`key, nodes`value
      ensures Unhooked(SuccessorCtx(c, t), OnlyChild(MinTree(t.r)), x, y, old(z.key), old(Contents()))
      ensures y != z && y.key == old(z.key) && y.value == old(z.value)
    {
      hide *;
      ghost var m, p, d, u := Memory(), y.parent, SuccessorCtx(c, t), OnlyChild(MinTree(t.r));
      SuccessorReady(z, y, c, t);
      x := Splice(y);
      SuccessorSplicedAt(m, Memory(), c, t, z, old(z.parent), y, p, x, old(root), nil);
      SwapPairs(z, y);
      UnhookedBy(d, u, x, p, y, old(z.key), old(Contents()));
    }

    /** rbtree_delete: z's pair leaves the tree, in the node y that is returned. */
    method Delete(z: Node, ghost c: Path, ghost t: Shape) returns (y: Node)
      requires Valid() && z in nodes && t.N? && Holds(c, t, z, z.parent)
      requires Ids(t) + PathIds(c) == Ids(shape) && Items(c, t) == Inorder(shape) && Fits(c, t)
      modifies this`root, this`nodes, this`shape, nodes
      ensures Valid()
      ensures Contents() == old(Contents()) - {old(z.key)}
      ensures y in old(nodes) && nodes == old(nodes) - {y} && y.key == old(z.key) && y.value == old(z.value)
    {
      hide *;
      ghost var key, before, d, u := z.key, Contents(), c, t;
      NodesOf();
      LeftOf(c, t, z);
      var x;
      if z.left == nil || z.right == nil {
        y := z;
        x := UnhookSelf(z, c, t);
        u := OnlyChild(t);
      } else {
        y, d, u := Successor(z, c, t);
        x := UnhookSuccessor(z, y, c, t);
        d, u := SuccessorCtx(c, t), OnlyChild(MinTree(t.r));
      }
      if y.color.Black? {
        StartFixup(d, u, x, y, key, before);
        ghost var t' := DeleteFixup(x, d, u, Items(d, u), Ids(u) + PathIds(d));
        Forget(y, t', key, before);
      } else {
        NoFixup(d, u, x, y, key, before);
        Forget(y, Fill(d, u), key, before);
      }
    }

    lemma NodesOf()
      requires Valid()
      ensures nodes == Ids(shape) + {nil} && nil !in Ids(shape) && freed !! nodes
    {
      RepIds(Memory(), shape, root, nil, nil);
    }

    lemma StartFixup(c: Path, u: Shape, x: Node, y: Node, key: Text, before: map<Text, Text>)
      requires Unhooked(c, u, x, y, key, before) && y.color.Black?
      ensures Deleting(c, u, x, Items(c, u), Ids(u) + PathIds(c)) && y in nodes && y in Ids(shape)
      ensures Ids(u) + PathIds(c) == Ids(shape) - {y} && Sorted(Items(c, u)) && ToMap(Items(c, u)) == before - {key}
    {
    }

    /** A red node can go without any repair. */
    lemma NoFixup(c: Path, u: Shape, x: Node, y: Node, key: Text, before: map<Text, Text>)
      requires Unhooked(c, u, x, y, key, before) && y.color.Red?
      ensures var t' := Fill(c, u);
              && Holds(Top, t', root, nil) && RedBlack(t') && Ids(t') == Ids(shape) - {y} && y in nodes && y in Ids(shape)
              && Sorted(Inorder(t')) && ToMap(Inorder(t')) == before - {key}
    {
      AscendAll(Memory(), c, u, x, x.parent, root, nil);
      FitsWhole(c, u);
    }

    /** y is no longer one of the tree's nodes. */
    ghost method Forget(y: Node, t': Shape, key: Text, before: map<Text, Text>)
      requires nodes == Ids(shape) + {nil} && freed !! nodes && y in nodes && y != nil
      requires Holds(Top, t', root, nil) && RedBlack(t') && Ids(t') == Ids(shape) - {y}
      requires Sorted(Inorder(t')) && ToMap(Inorder(t')) == before - {key}
      modifies this`nodes, this`shape
      ensures Valid() && nodes == old(nodes) - {y} && Contents() == before - {key}
    {
      ghost var m := Memory();
      nodes := nodes - {y};
      shape := t';
      ForgetAt(m, Memory(), t', root, nil);
    }

    // ----- the store's commands

    /** kvs_rbtree_set: answers 0 whether or not the key was there; a present key keeps its value. */
    method Set(key: Text, value: Text) returns (r: int)
      requires Valid()
      modifies this`root, this`nodes, this`shape, nodes
      ensures Valid() && fresh(nodes - old(nodes)) && r == 0
      ensures Contents() == if key in old(Contents()) then old(Contents()) else old(Contents())[key := value]
    {
      var node := new Node(key, value);
      Insert(node);
      r := 0;
    }

    method Get(key: Text) returns (value: Option<Text>)
      requires Valid()
      ensures value == if key in Contents() then Some(Contents()[key]) else None
    {
      var node;
      ghost var c, t, steps;
      node, c, t, steps := Search(key);
      value := if node == nil then None else Some(node.value);
    }

    /** kvs_rbtree_exist: 0 when present, 1 when absent. */
    method Exist(key: Text) returns (r: int)
      requires Valid()
      ensures r == if key in Contents() then 0 else 1
    {
      var node;
      ghost var c, t, steps;
      node, c, t, steps := Search(key);
      r := if node == nil then 1 else 0;
    }

    method Mod(key: Text, value: Text) returns (r: int)
      requires Valid()
      modifies this`shape, nodes`value
      ensures Valid() && nodes == old(nodes)
      ensures key in old(Contents()) ==> r == 0 && Contents() == old(Contents())[key := value]
      ensures key !in old(Contents()) ==> r == 1 && Contents() == old(Contents())
    {
      hide *;
      NodesOf();
      var node;
      ghost var c, t, steps;
      node, c, t, steps := Search(key);
      if node == nil {
        return 1;
      }
      ModReady(node, c, t, value);
      SetValue(node, value);
      HeldWhole(Fill(c, t.(v := value)));
      shape := Fill(c, t.(v := value));
      Validated();
      r := 0;
    }

    method SetValue(n: Node, value: Text)
      requires n in nodes
      modifies n`value
      ensures Memory() == Rekeyed(old(Memory()), n, n.key, value)
    {
      n.value := value;
    }

    lemma ModReady(x: Node, c: Path, t: Shape, value: Text)
      requires Valid() && x in nodes && t.N? && Holds(c, t, x, x.parent) && x.key == t.k
      requires Ids(t) + PathIds(c) == Ids(shape) && Items(c, t) == Inorder(shape) && Fits(c, t)
      ensures var s := Fill(c, t.(v := value));
              && At(Rekeyed(Memory(), x, x.key, value), Top, s, root, nil, root, nil)
              && nodes == Ids(s) + {nil} && RedBlack(s) && Sorted(Inorder(s))
              && ToMap(Inorder(s)) == Contents()[t.k := value]
    {
      var m, u := Memory(), t.(v := value);
      RevalueKeeps(c, t, value);
      RekeyAt(m, c, t, x, x.parent, root, nil, t.k, value);
      AscendAll(Rekeyed(m, x, t.k, value), c, u, x, x.parent, root, nil);
      FitsWhole(c, u);
    }

    /** kvs_rbtree_del always answers 0, and frees the node that rbtree_delete returns. Search answers
        an absent key with the sentinel, which the test for NULL lets through: then the sentinel is
        freed, on the empty tree too. The tree survives with just the key gone exactly when the key
        was there. */
    method Del(key: Text) returns (r: int, ghost cur: Node)
      requires Valid()
      modifies this`root, this`nodes, this`shape, this`freed, nodes
      ensures r == 0 && cur in old(nodes) && freed == old(freed) + {cur}
      ensures key in old(Contents()) ==>
                cur != nil && nodes == old(nodes) - {cur} && cur.key == key && cur.value == old(Contents())[key]
      ensures key !in old(Contents()) ==> cur == nil
      ensures Valid() && Contents() == old(Contents()) - {key} <==> key in old(Contents())
    {
      hide Holds, Fits, Items;
      var node;
      ghost var c, t, steps;
      node, c, t, steps := Search(key);
      if node == nil {
        SentinelLinks(c, t, node);
        cur := DeleteSentinel();
        freed := freed + {cur};
        assert nil in freed * nodes;
      } else {
        cur := Delete(node, c, t);
        freed := freed + {cur};
      }
      r := 0;
    }

    lemma SentinelLinks(c: Path, t: Shape, x: Node)
      requires Valid()
      ensures nil in nodes && nil.left == nil.right == nil
    {
      assert Memory()[nil].left == nil.left && Memory()[nil].right == nil.right;
    }

    /** rbtree_delete when z is the sentinel: with both of its links leading to itself, y is the
        sentinel and is returned. What the unlinking and the fixup do to the tree before that,
        through a parent link that an earlier deletion left behind, is left open. */
    method DeleteSentinel() returns (y: Node)
      requires nil.left == nil.right == nil
      modifies this`root, nodes
      ensures y == nil
    {
      var z := nil;
      assert z.left == nil;
      y := z;
      modify this`root, nodes;
    }

    /** The root is the sentinel exactly when the tree holds nothing; else its pair is in the tree. */
    lemma RootPair()
      requires Valid()
      ensures root in nodes && (root == nil <==> Contents() == map[])
      ensures root != nil ==> root.key in Contents() && Contents()[root.key] == root.value
    {
      var m := Memory();
      if shape.N? {
        assert root in m && m[root].key == root.key && m[root].value == root.value;
        assert Inorder(shape)[|Inorder(shape.l)|] == (root.key, root.value);
        SortedDistinct(Inorder(shape));
        MapAt(Inorder(shape), |Inorder(shape.l)|);
      }
    }
  }

  /** A run that frees the sentinel: a new tree, one pair, and the deletion of another key. */
  method SentinelLost(k: Text, v: Text, key: Text) returns (r: int, ghost tree: RbTree)
    requires key != k
    ensures r == 0 && tree.nil in tree.freed && !tree.Valid()
  {
    var t := new RbTree();
    var s := t.Set(k, v);
    ghost var cur;
    r, cur := t.Del(key);
    tree := t;
  }

  /** The shortest one: a deletion from a new tree. */
  method SentinelLostAtOnce(key: Text) returns (r: int, ghost tree: RbTree)
    ensures r == 0 && tree.nil in tree.freed && !tree.Valid()
  {
    var t := new RbTree();
    ghost var cur;
    r, cur := t.Del(key);
    tree := t;
  }
}
