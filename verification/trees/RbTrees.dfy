/** Red-black trees in place: nodes with parent links, rotated and recoloured one field at a time. */
module RbTrees {
  import opened Sequences
  import opened BinaryTrees
  import opened RedBlackTrees
  import opened RbLinks

  class RbTree {
    const key: Id -> int
    var root: Id
    var field: Fields
    /** The tree that the links hold. */
    ghost var tree: Colored

    ghost predicate Linked()
      reads this
    {
      root == RootId(tree) && Holds(field, 0, tree) && Distinct(InOrder(tree))
    }

    /** Search order, parent links, no red node below a red one, equal black heights, black root. */
    ghost predicate Valid()
      reads this
    {
      Linked() && Sorted(InOrder(tree), key) && IsRedBlackTree(tree)
    }

    /** RB_INIT */
    constructor (key: Id -> int)
      ensures Valid() && this.key == key && InOrder(tree) == []
    {
      this.key := key;
      root, field, tree := 0, map[], Leaf;
      new;
      assert RedBlack(tree, 0);
    }

    /** RB_ISRED */
    predicate IsRedNode(x: Id)
      requires x != 0 ==> x in field
      reads this
    {
      x != 0 && field[x].color == Red
    }

    // ----- one field

    method SetLeft(x: Id, y: Id)
      requires x in field
      modifies this`field
      ensures field == old(field)[x := old(field)[x].(left := y)]
    {
      field := field[x := field[x].(left := y)];
    }

    method SetRight(x: Id, y: Id)
      requires x in field
      modifies this`field
      ensures field == old(field)[x := old(field)[x].(right := y)]
    {
      field := field[x := field[x].(right := y)];
    }

    method SetParent(x: Id, y: Id)
      requires x in field
      modifies this`field
      ensures field == old(field)[x := old(field)[x].(parent := y)]
    {
      field := field[x := field[x].(parent := y)];
    }

    method SetColor(x: Id, c: Color, ghost p: Place, ghost t: Colored)
      requires Linked() && tree == Plug(p, t) && t.Node? && t.id == x
      modifies this`field, this`tree
      ensures Linked() && tree == Plug(p, Painted(t, c)) && InOrder(tree) == old(InOrder(tree))
    {
      DistinctUnshared(tree);
      Recolored(field, p, t, c);
      SameOrder(p, t, Painted(t, c));
      SameRoot(p, t, Painted(t, c));
      field := field[x := field[x].(color := c)];
      tree := Plug(p, Painted(t, c));
    }

    // ----- rotations

    /** RB_SWAP_CHILD */
    method SwapChild(out: Id, in': Id)
      requires out in field && (field[out].parent != 0 ==> field[out].parent in field)
      modifies this`field, this`root
      ensures var q := old(field)[out].parent;
        if q == 0 then
          root == in' && field == old(field)
        else
          && root == old(root)
          && field == old(field)[q := if old(field)[q].left == out then old(field)[q].(left := in')
             else old(field)[q].(right := in')]
    {
      var q := field[out].parent;
      if q == 0 {
        root := in';
      } else if out == field[q].left {
        SetLeft(q, in');
      } else {
        SetRight(q, in');
      }
    }

    method RotateLeft(elm: Id, ghost p: Place, ghost t: Colored) returns (tmp: Id)
      requires Linked() && tree == Plug(p, t) && t.Node? && t.id == elm && t.right.Node?
      modifies this`field, this`root, this`tree
      ensures Linked() && tree == Plug(p, TurnedLeft(t)) && tmp == t.right.id && InOrder(tree) == old(InOrder(tree))
    {
      ghost var h := field;
      DistinctUnshared(tree);
      TurnsApart(field, p, t, t.right, t.right.left);
      tmp := field[elm].right;
      SetRight(elm, field[tmp].left);
      ghost var h1 := field;
      if field[elm].right != 0 {
        SetParent(field[elm].right, elm);
      }
      ghost var h2 := field;
      SetParent(tmp, field[elm].parent);
      ghost var h3 := field;
      SwapChild(elm, tmp);
      ghost var h4 := field;
      SetLeft(tmp, elm);
      ghost var h5 := field;
      SetParent(elm, tmp);
      tree := Plug(p, TurnedLeft(t));
      RotationLeft(h, h1, h2, h3, h4, h5, field, p, t);
    }

    method RotateRight(elm: Id, ghost p: Place, ghost t: Colored) returns (tmp: Id)
      requires Linked() && tree == Plug(p, t) && t.Node? && t.id == elm && t.left.Node?
      modifies this`field, this`root, this`tree
      ensures Linked() && tree == Plug(p, TurnedRight(t)) && tmp == t.left.id && InOrder(tree) == old(InOrder(tree))
    {
      ghost var h := field;
      DistinctUnshared(tree);
      TurnsApart(field, p, t, t.left, t.left.right);
      tmp := field[elm].left;
      SetLeft(elm, field[tmp].right);
      ghost var h1 := field;
      if field[elm].left != 0 {
        SetParent(field[elm].left, elm);
      }
      ghost var h2 := field;
      SetParent(tmp, field[elm].parent);
      ghost var h3 := field;
      SwapChild(elm, tmp);
      ghost var h4 := field;
      SetRight(tmp, elm);
      ghost var h5 := field;
      SetParent(elm, tmp);
      tree := Plug(p, TurnedRight(t));
      RotationRight(h, h1, h2, h3, h4, h5, field, p, t);
    }

    // ----- insertion

    /** Whether only a red node below a red one, at position `p`, keeps the tree from being red-black. */
    ghost predicate RedAt(elm: Id, p: Place, t: Colored, n: nat)
      reads this
    {
      Linked() && tree == Plug(p, t) && t.Node? && t.id == elm && RedBelow(p, t, n)
    }

    /** A red uncle: the parent's generation turns black, the grandparent red. */
    method LiftRed(parent: Id, gparent: Id, uncle: Id, ghost p: Place, ghost t: Colored, ghost n: nat)
      returns (ghost p': Place, ghost t': Colored)
      requires RedAt(RootId(t), p, t, n) && !p.Top? && p.tag == Red && IsRed(Sibling(p.up))
      requires p.id == parent && p.up.id == gparent && RootId(Sibling(p.up)) == uncle
      modifies this`field, this`tree
      ensures RedAt(gparent, p', t', n + 1) && p' == p.up.up && InOrder(tree) == old(InOrder(tree))
    {
      ghost var up, other := p.up, Sibling(p.up);
      ghost var other' := Painted(other, Black);
      ghost var up' := WithSibling(up, other');
      ghost var mine := Fill(p, t);
      ghost var mine' := Painted(mine, Black);
      Views(p, t, t);
      Views(up, mine, other);
      SetColor(uncle, Black, Across(up, mine), other);
      Views(up, mine, other');
      SetColor(parent, Black, up', mine);
      Views(up', mine', other');
      SetColor(gparent, Red, up.up, Fill(up', mine'));
      p', t' := up.up, Lifted(p, t);
      LiftedBelow(p, t, n);
    }

    /** Brings a red node to the outer side: `elm'` below `parent'`. */
    method TurnInnerLeft(elm: Id, parent: Id, ghost p: Place, ghost t: Colored, ghost n: nat)
      returns (elm': Id, parent': Id, ghost p': Place, ghost t': Colored)
      requires RedAt(elm, p, t, n) && !p.Top? && p.tag == Red && p.id == parent && parent in field
      requires field[parent].right == elm <==> p.InRight?
      modifies this`field, this`root, this`tree
      ensures RedAt(elm', p', t', n) && p'.InLeft? && p'.tag == Red && p'.id == parent' && p'.up == p.up
      ensures InOrder(tree) == old(InOrder(tree))
    {
      elm', parent', p', t' := elm, parent, p, t;
      if field[parent].right == elm {
        InnerTurned(p, t, n);
        var _ := RotateLeft(parent, p.up, Fill(p, t));
        elm', parent' := parent, elm;
        p', t' := InLeft(p.up, Red, elm, t.right), Node(Red, p.left, parent, t.left);
      }
    }

    /** The parent turns black and takes the place of the grandparent, which turns red. */
    method TurnOuterRight(parent: Id, gparent: Id, ghost p: Place, ghost t: Colored, ghost n: nat)
      returns (ghost p': Place)
      requires RedAt(RootId(t), p, t, n) && p.InLeft? && p.tag == Red && p.id == parent
      requires p.up.InLeft? && p.up.id == gparent && !IsRed(Sibling(p.up))
      modifies this`field, this`root, this`tree
      ensures RedAt(RootId(t), p', t, n) && TakesRed(p') && Depth(p') < Depth(p)
      ensures InOrder(tree) == old(InOrder(tree))
    {
      OuterTurned(p, t, n);
      ghost var up, mine := p.up, Fill(p, t);
      ghost var mine' := Painted(mine, Black);
      SetColor(parent, Black, up, mine);
      SetColor(gparent, Red, up.up, Fill(up, mine'));
      var _ := RotateRight(gparent, up.up, Painted(Fill(up, mine'), Red));
      p' := InLeft(up.up, Black, parent, Node(Red, p.right, gparent, up.right));
    }

    method TurnInnerRight(elm: Id, parent: Id, ghost p: Place, ghost t: Colored, ghost n: nat)
      returns (elm': Id, parent': Id, ghost p': Place, ghost t': Colored)
      requires RedAt(elm, p, t, n) && !p.Top? && p.tag == Red && p.id == parent && parent in field
      requires field[parent].left == elm <==> p.InLeft?
      modifies this`field, this`root, this`tree
      ensures RedAt(elm', p', t', n) && p'.InRight? && p'.tag == Red && p'.id == parent' && p'.up == p.up
      ensures InOrder(tree) == old(InOrder(tree))
    {
      elm', parent', p', t' := elm, parent, p, t;
      if field[parent].left == elm {
        InnerTurned(p, t, n);
        var _ := RotateRight(parent, p.up, Fill(p, t));
        elm', parent' := parent, elm;
        p', t' := InRight(p.up, t.left, Red, elm), Node(Red, t.right, parent, p.right);
      }
    }

    method TurnOuterLeft(parent: Id, gparent: Id, ghost p: Place, ghost t: Colored, ghost n: nat)
      returns (ghost p': Place)
      requires RedAt(RootId(t), p, t, n) && p.InRight? && p.tag == Red && p.id == parent
      requires p.up.InRight? && p.up.id == gparent && !IsRed(Sibling(p.up))
      modifies this`field, this`root, this`tree
      ensures RedAt(RootId(t), p', t, n) && TakesRed(p') && Depth(p') < Depth(p)
      ensures InOrder(tree) == old(InOrder(tree))
    {
      OuterTurned(p, t, n);
      ghost var up, mine := p.up, Fill(p, t);
      ghost var mine' := Painted(mine, Black);
      SetColor(parent, Black, up, mine);
      SetColor(gparent, Red, up.up, Fill(up, mine'));
      var _ := RotateLeft(gparent, up.up, Painted(Fill(up, mine'), Red));
      p' := InRight(up.up, Node(Red, up.left, gparent, p.left), Black, parent);
    }

    /** One round of RB_INSERT_COLOR; the red node below a red one moves up or is gone. */
    method RepairRed(elm: Id, parent: Id, ghost p: Place, ghost t: Colored, ghost n: nat)
      returns (elm': Id, ghost p': Place, ghost t': Colored, ghost n': nat)
      requires RedAt(elm, p, t, n) && !p.Top? && p.tag == Red && p.id == parent
      modifies this`field, this`root, this`tree
      ensures RedAt(elm', p', t', n') && Depth(p') < Depth(p)
      ensures InOrder(tree) == old(InOrder(tree))
    {
      DistinctUnshared(tree);
      Above(field, p, t);
      Above(field, p.up, Fill(p, t));
      var gparent := field[parent].parent;
      var isLeft := parent == field[gparent].left;
      var tmp := if isLeft then field[gparent].right else field[gparent].left;
      n' := n;
      if IsRedNode(tmp) {
        elm', n' := gparent, n + 1;
        p', t' := LiftRed(parent, gparent, tmp, p, t, n);
      } else if isLeft {
        var q;
        elm', q, p', t' := TurnInnerLeft(elm, parent, p, t, n);
        p' := TurnOuterRight(q, gparent, p', t', n);
      } else {
        var q;
        elm', q, p', t' := TurnInnerRight(elm, parent, p, t, n);
        p' := TurnOuterLeft(q, gparent, p', t', n);
      }
    }

    /** RB_INSERT_COLOR: no more rounds than there are nodes above the new one. */
    method InsertColor(elm0: Id, ghost p0: Place, ghost t0: Colored, ghost n0: nat) returns (ghost rounds: nat)
      requires RedAt(elm0, p0, t0, n0)
      modifies this`field, this`root, this`tree
      ensures Linked() && IsRedBlackTree(tree) && InOrder(tree) == old(InOrder(tree))
      ensures rounds <= Depth(p0)
    {
      rounds := 0;
      var elm := elm0;
      ghost var p, t, n := p0, t0, n0;
      ParentSeen(p, t);
      var parent := field[elm].parent;
      while IsRedNode(parent)
        invariant RedAt(elm, p, t, n) && InOrder(tree) == old(InOrder(tree))
        invariant parent == ParentOf(p) && (parent != 0 ==> parent in field)
        invariant !p.Top? <==> parent != 0
        invariant IsRedNode(parent) <==> !p.Top? && p.tag == Red
        invariant rounds + Depth(p) <= Depth(p0)
        decreases Depth(p)
      {
        rounds := rounds + 1;
        elm, p, t, n := RepairRed(elm, parent, p, t, n);
        ParentSeen(p, t);
        parent := field[elm].parent;
      }
      RootPainted(p, t, n);
      SetColor(root, Black, Top, tree);
    }

    /** How the search for a key went so far: it belongs at position `p`, where `t` stands. */
    ghost predicate Searching(k: int, p: Place, t: Colored)
      reads this
    {
      tree == Plug(p, t) && AllBelow(Before(p), key, k) && AllAbove(After(p), key, k)
    }

    /** One step of a search down the tree. */
    method Descend(k: int, x: Id, ghost p: Place, ghost t: Colored) returns (y: Id, ghost p': Place, ghost t': Colored)
      requires Linked() && Sorted(InOrder(tree), key) && Searching(k, p, t) && t.Node? && t.id == x && k != key(x)
      ensures Searching(k, p', t') && y == RootId(t') && t' < t
      ensures if k < key(x) then p' == InLeft(p, t.tag, x, t.right) && t' == t.left
              else p' == InRight(p, t.left, t.tag, x) && t' == t.right
    {
      HoldsAt(field, p, t);
      if k < key(x) {
        WentLeft(p, t, key, k);
        y, p', t' := field[x].left, InLeft(p, t.tag, x, t.right), t.left;
      } else {
        WentRight(p, t, key, k);
        y, p', t' := field[x].right, InRight(p, t.left, t.tag, x), t.right;
      }
    }

    /** The search loop of RB_INSERT: a node with this key, or the empty position where it belongs. */
    method SearchPlace(k: int) returns (found: Id, parent: Id, onLeft: bool, ghost p: Place, ghost steps: nat)
      requires Valid()
      ensures steps <= Height(tree) && Depth(p) <= Height(tree)
      ensures found != 0 ==> found in InOrder(tree) && key(found) == k
      ensures found == 0 ==> Searching(k, p, Leaf) && parent == ParentOf(p) && (parent != 0 ==> parent in field)
      ensures found == 0 ==> (p.Top? <==> parent == 0) && (!p.Top? ==> (onLeft <==> p.InLeft?))
    {
      var tmp := root;
      ghost var t := tree;
      parent, onLeft, p, steps := 0, false, Top, 0;
      while tmp != 0
        invariant steps == Depth(p)
        invariant Searching(k, p, t) && tmp == RootId(t) && parent == ParentOf(p)
        invariant (t.Node? ==> tmp != 0) && (!p.Top? ==> (onLeft <==> p.InLeft?) && parent != 0 && parent in field)
        decreases t
      {
        HoldsAt(field, p, t);
        HeightAt(p, t);
        parent := tmp;
        steps := steps + 1;
        if k == key(tmp) {
          InOrderAt(p, t);
          return tmp, parent, onLeft, p, steps;
        }
        onLeft := k < key(tmp);
        tmp, p, t := Descend(k, tmp, p, t);
        HoldsAt(field, p, t);
      }
      HeightAt(p, t);
      return 0, parent, onLeft, p, steps;
    }

    /** Hangs a red node at an empty position. */
    method Hang(elm: Id, parent: Id, onLeft: bool, ghost p: Place)
      requires Linked() && tree == Plug(p, Leaf) && elm != 0 && elm !in Ids(tree)
      requires Distinct(Before(p) + [elm] + After(p))
      requires parent == ParentOf(p) && (p.Top? <==> parent == 0) && (!p.Top? ==> (onLeft <==> p.InLeft?))
      modifies this`field, this`root, this`tree
      ensures Linked() && tree == Plug(p, Node(Red, Leaf, elm, Leaf))
      ensures InOrder(tree) == Before(p) + [elm] + After(p)
    {
      ghost var h := field;
      DistinctUnshared(tree);
      HoldsAt(field, p, Leaf);
      IdsAt<Color>(p, Leaf);
      field := field[elm := Entry(0, 0, parent, Red)];
      if parent != 0 {
        assert parent in PathIds(p);
        if onLeft {
          SetLeft(parent, elm);
        } else {
          SetRight(parent, elm);
        }
        SameRoot(p, Leaf, Node(Red, Leaf, elm, Leaf));
      } else {
        root := elm;
      }
      Hung(h, field, p, elm);
      InOrderAt(p, Node(Red, Leaf, elm, Leaf));
      assert InOrder<Color>(Node(Red, Leaf, elm, Leaf)) == [elm];
      tree := Plug(p, Node(Red, Leaf, elm, Leaf));
    }

    /** RB_INSERT: a node with the same key is returned and nothing changes; else the node is added. The
        search and the repair take no more steps than the height of the tree each. */
    method Insert(elm: Id) returns (found: Id, ghost steps: nat)
      requires Valid() && elm != 0
      modifies this`field, this`root, this`tree
      ensures Valid() && steps <= 2 * Height(old(tree))
      ensures found != 0 <==> exists x | x in old(InOrder(tree)) :: key(x) == key(elm)
      ensures found != 0 ==>
        found in InOrder(tree) && key(found) == key(elm) && tree == old(tree) && field == old(field)
          && root == old(root)
      ensures found == 0 ==>
        exists a: seq<Id>, b: seq<Id> :: old(InOrder(tree)) == a + b && InOrder(tree) == a + [elm] + b
    {
      var parent, onLeft;
      ghost var p;
      found, parent, onLeft, p, steps := SearchPlace(key(elm));
      if found == 0 {
        NewPlace(tree, p, elm, key);
        ghost var n := Opened(p, Leaf);
        Hang(elm, parent, onLeft, p);
        ghost var rounds := InsertColor(elm, p, Node(Red, Leaf, elm, Leaf), n);
        steps := steps + rounds;
      }
    }

    // ----- removal

    /** Whether `t` at position `p` lacks one black node on every way. */
    ghost predicate LackingAt(p: Place, t: Colored, n: nat)
      reads this
    {
      Linked() && tree == Plug(p, t) && Lacks(p, t, n)
    }

    ghost predicate PendingAt(p: Place, t: Colored, n: nat)
      reads this
    {
      Linked() && tree == Plug(p, t) && Pending(p, t, n)
    }

    lemma WholeTree() returns (p: Place, t: Colored, n: nat)
      requires Linked() && IsRedBlackTree(tree)
      ensures p.Top? && t == tree && PendingAt(p, t, n)
    {
      p, t := Top, tree;
      n :| RedBlack(tree, n);
    }

    /** A red sibling of a left child changes places with the parent. */
    method TurnRedSiblingLeft(parent: Id, tmp: Id, ghost p: Place, ghost t: Colored, ghost n: nat)
      returns (tmp': Id, ghost p': Place)
      requires LackingAt(p, t, n) && p.InLeft? && p.id == parent && RootId(p.right) == tmp && IsRed(p.right)
      modifies this`field, this`root, this`tree
      ensures LackingAt(p', t, n) && p'.InLeft? && p'.id == parent && RootId(p'.right) == tmp' && !IsRed(p'.right)
      ensures p'.tag == Red && InOrder(tree) == old(InOrder(tree))
    {
      RedSiblingTurned(p, t, n);
      ghost var s := p.right;
      ghost var s' := Painted(s, Black);
      Views(p, t, s);
      Views(p, t, s');
      SetColor(tmp, Black, Across(p, t), s);
      SetColor(parent, Red, p.up, Fill(WithSibling(p, s'), t));
      var _ := RotateLeft(parent, p.up, Painted(Fill(WithSibling(p, s'), t), Red));
      p' := InLeft(InLeft(p.up, Black, tmp, s.right), Red, parent, s.left);
      Above(field, p', t) by { DistinctUnshared(tree); }
      tmp' := field[parent].right;
    }

    /** A red child of a black sibling comes to the far side and turns black. */
    method RaiseNephewLeft(tmp: Id, ghost p: Place, ghost t: Colored, ghost n: nat)
      returns (lends: bool, tmp': Id, ghost p': Place)
      requires LackingAt(p, t, n) && p.InLeft? && RootId(p.right) == tmp && !IsRed(p.right)
      modifies this`field, this`root, this`tree
      ensures Linked() && tree == Plug(p', t) && InOrder(tree) == old(InOrder(tree))
      ensures p'.InLeft? && p'.id == p.id && p'.tag == p.tag && p'.up == p.up && RootId(p'.right) == tmp'
      ensures lends ==> Lends(p', t, n)
      ensures !lends ==> p' == p && p.right.Node? && !IsRed(p.right.left) && !IsRed(p.right.right)
    {
      ghost var s := p.right;
      lends, tmp', p' := true, tmp, p;
      FarNephewPainted(p, t, n);
      NearNephewTurned(p, t, n);
      Views(p, t, s);
      HoldsAt(field, Across(p, t), s);
      assert Holds(field, s.id, s.left) && Holds(field, s.id, s.right);
      if IsRedNode(field[tmp].right) {
        ghost var s' := Node(s.tag, s.left, s.id, Painted(s.right, Black));
        SetColor(field[tmp].right, Black, InRight(Across(p, t), s.left, s.tag, s.id), s.right);
        Views(p, t, s');
        p' := WithSibling(p, s');
      } else if IsRedNode(field[tmp].left) {
        var oleft := RotateRight(tmp, Across(p, t), s);
        SetColor(oleft, Black, Across(p, t), TurnedRight(s));
        Views(p, t, Painted(TurnedRight(s), Black));
        tmp', p' := oleft, WithSibling(p, Painted(TurnedRight(s), Black));
      } else {
        lends := false;
      }
    }

    /** The sibling takes the parent's place and colour. */
    method LendLeft(parent: Id, tmp: Id, ghost p: Place, ghost t: Colored, ghost n: nat)
      requires Linked() && tree == Plug(p, t) && Lends(p, t, n) && p.InLeft? && p.id == parent && RootId(p.right) == tmp
      modifies this`field, this`root, this`tree
      ensures Linked() && IsRedBlackTree(tree) && tree.Node? && InOrder(tree) == old(InOrder(tree))
    {
      Lent(p, t, n);
      ghost var s := p.right;
      ghost var s' := Painted(s, p.tag);
      Views(p, t, s);
      Views(p, t, s');
      Above(field, p, t) by { DistinctUnshared(tree); }
      SetColor(tmp, field[parent].color, Across(p, t), s);
      SetColor(parent, Black, p.up, Fill(WithSibling(p, s'), t));
      var _ := RotateLeft(parent, p.up, Painted(Fill(WithSibling(p, s'), t), Black));
      PlugNode(p.up, TurnedLeft(Painted(Fill(WithSibling(p, s'), t), Black)));
    }

    /** One round of RB_REMOVE_COLOR for a left child. */
    method RepairLackLeft(parent: Id, ghost p: Place, ghost t: Colored, ghost n: nat)
      returns (done: bool, ghost p': Place, ghost t': Colored, ghost n': nat)
      requires LackingAt(p, t, n) && p.InLeft? && p.id == parent
      modifies this`field, this`root, this`tree
      ensures PendingAt(p', t', n') && t'.Node? && InOrder(tree) == old(InOrder(tree))
      ensures done ==> p'.Top?
      ensures !done ==> t'.id == parent && (IsRed(t') || Depth(p') < Depth(p))
    {
      Above(field, p, t) by { DistinctUnshared(tree); }
      var tmp := field[parent].right;
      p', t', n' := p, t, n;
      if IsRedNode(tmp) {
        tmp, p' := TurnRedSiblingLeft(parent, tmp, p, t, n);
      }
      ghost var p1 := p';
      done, tmp, p' := RaiseNephewLeft(tmp, p1, t, n);
      if done {
        LendLeft(parent, tmp, p', t, n);
        p', t', n' := WholeTree();
      } else {
        SiblingPainted(p1, t, n);
        Views(p1, t, p1.right);
        Views(p1, t, Painted(p1.right, Red));
        Views(WithSibling(p1, Painted(p1.right, Red)), t, t);
        SetColor(tmp, Red, Across(p1, t), p1.right);
        p', t', n' := p1.up, Fill(WithSibling(p1, Painted(p1.right, Red)), t), if p1.tag == Black then n + 1 else n;
      }
    }

    /** A red sibling of a right child changes places with the parent. */
    method TurnRedSiblingRight(parent: Id, tmp: Id, ghost p: Place, ghost t: Colored, ghost n: nat)
      returns (tmp': Id, ghost p': Place)
      requires LackingAt(p, t, n) && p.InRight? && p.id == parent && RootId(p.left) == tmp && IsRed(p.left)
      modifies this`field, this`root, this`tree
      ensures LackingAt(p', t, n) && p'.InRight? && p'.id == parent && RootId(p'.left) == tmp' && !IsRed(p'.left)
      ensures p'.tag == Red && InOrder(tree) == old(InOrder(tree))
    {
      RedSiblingTurned(p, t, n);
      ghost var s := p.left;
      ghost var s' := Painted(s, Black);
      Views(p, t, s);
      Views(p, t, s');
      SetColor(tmp, Black, Across(p, t), s);
      SetColor(parent, Red, p.up, Fill(WithSibling(p, s'), t));
      var _ := RotateRight(parent, p.up, Painted(Fill(WithSibling(p, s'), t), Red));
      p' := InRight(InRight(p.up, s.left, Black, tmp), s.right, Red, parent);
      Above(field, p', t) by { DistinctUnshared(tree); }
      tmp' := field[parent].left;
    }

    /** A red child of a black sibling comes to the far side and turns black. */
    method RaiseNephewRight(tmp: Id, ghost p: Place, ghost t: Colored, ghost n: nat)
      returns (lends: bool, tmp': Id, ghost p': Place)
      requires LackingAt(p, t, n) && p.InRight? && RootId(p.left) == tmp && !IsRed(p.left)
      modifies this`field, this`root, this`tree
      ensures Linked() && tree == Plug(p', t) && InOrder(tree) == old(InOrder(tree))
      ensures p'.InRight? && p'.id == p.id && p'.tag == p.tag && p'.up == p.up && RootId(p'.left) == tmp'
      ensures lends ==> Lends(p', t, n)
      ensures !lends ==> p' == p && p.left.Node? && !IsRed(p.left.left) && !IsRed(p.left.right)
    {
      ghost var s := p.left;
      lends, tmp', p' := true, tmp, p;
      FarNephewPainted(p, t, n);
      NearNephewTurned(p, t, n);
      Views(p, t, s);
      HoldsAt(field, Across(p, t), s);
      assert Holds(field, s.id, s.left) && Holds(field, s.id, s.right);
      if IsRedNode(field[tmp].left) {
        ghost var s' := Node(s.tag, Painted(s.left, Black), s.id, s.right);
        SetColor(field[tmp].left, Black, InLeft(Across(p, t), s.tag, s.id, s.right), s.left);
        Views(p, t, s');
        p' := WithSibling(p, s');
      } else if IsRedNode(field[tmp].right) {
        var oright := RotateLeft(tmp, Across(p, t), s);
        SetColor(oright, Black, Across(p, t), TurnedLeft(s));
        Views(p, t, Painted(TurnedLeft(s), Black));
        tmp', p' := oright, WithSibling(p, Painted(TurnedLeft(s), Black));
      } else if !IsRedNode(field[tmp].left) {
        lends := false;
      }
    }

    /** The sibling takes the parent's place and colour. */
    method LendRight(parent: Id, tmp: Id, ghost p: Place, ghost t: Colored, ghost n: nat)
      requires Linked() && tree == Plug(p, t) && Lends(p, t, n) && p.InRight? && p.id == parent && RootId(p.left) == tmp
      modifies this`field, this`root, this`tree
      ensures Linked() && IsRedBlackTree(tree) && tree.Node? && InOrder(tree) == old(InOrder(tree))
    {
      Lent(p, t, n);
      ghost var s := p.left;
      ghost var s' := Painted(s, p.tag);
      Views(p, t, s);
      Views(p, t, s');
      Above(field, p, t) by { DistinctUnshared(tree); }
      SetColor(tmp, field[parent].color, Across(p, t), s);
      SetColor(parent, Black, p.up, Fill(WithSibling(p, s'), t));
      var _ := RotateRight(parent, p.up, Painted(Fill(WithSibling(p, s'), t), Black));
      PlugNode(p.up, TurnedRight(Painted(Fill(WithSibling(p, s'), t), Black)));
    }

    /** One round of RB_REMOVE_COLOR for a right child. */
    method RepairLackRight(parent: Id, ghost p: Place, ghost t: Colored, ghost n: nat)
      returns (done: bool, ghost p': Place, ghost t': Colored, ghost n': nat)
      requires LackingAt(p, t, n) && p.InRight? && p.id == parent
      modifies this`field, this`root, this`tree
      ensures PendingAt(p', t', n') && t'.Node? && InOrder(tree) == old(InOrder(tree))
      ensures done ==> p'.Top?
      ensures !done ==> t'.id == parent && (IsRed(t') || Depth(p') < Depth(p))
    {
      Above(field, p, t) by { DistinctUnshared(tree); }
      var tmp := field[parent].left;
      p', t', n' := p, t, n;
      if IsRedNode(tmp) {
        tmp, p' := TurnRedSiblingRight(parent, tmp, p, t, n);
      }
      ghost var p1 := p';
      done, tmp, p' := RaiseNephewRight(tmp, p1, t, n);
      if done {
        LendRight(parent, tmp, p', t, n);
        p', t', n' := WholeTree();
      } else {
        SiblingPainted(p1, t, n);
        Views(p1, t, p1.left);
        Views(p1, t, Painted(p1.left, Red));
        Views(WithSibling(p1, Painted(p1.left, Red)), t, t);
        SetColor(tmp, Red, Across(p1, t), p1.left);
        p', t', n' := p1.up, Fill(WithSibling(p1, Painted(p1.left, Red)), t), if p1.tag == Black then n + 1 else n;
      }
    }

    /** RB_REMOVE_COLOR: an empty position lacks a black node. No more rounds than there are nodes above it. */
    method RemoveColor(parent0: Id, ghost p0: Place) returns (ghost rounds: nat)
      requires LackingAt(p0, Leaf, 0) && p0.id == parent0
      modifies this`field, this`root, this`tree
      ensures Linked() && IsRedBlackTree(tree) && InOrder(tree) == old(InOrder(tree))
      ensures rounds <= Depth(p0)
    {
      rounds := 0;
      var elm, parent := 0, parent0;
      ghost var p, t, n := p0, Leaf, 0;
      while true
        invariant LackingAt(p, t, n) && elm == RootId(t) && parent == p.id && InOrder(tree) == old(InOrder(tree))
        invariant rounds + Depth(p) <= Depth(p0)
        decreases Depth(p)
      {
        rounds := rounds + 1;
        var done;
        Above(field, p, t) by { DistinctUnshared(tree); }
        if field[parent].left == elm {
          done, p, t, n := RepairLackLeft(parent, p, t, n);
        } else {
          done, p, t, n := RepairLackRight(parent, p, t, n);
        }
        if done {
          elm := root;
          break;
        }
        elm := parent;
        ParentSeen(p, t);
        parent := field[elm].parent;
        if IsRedNode(elm) || parent == 0 {
          break;
        }
      }
      PaintedBlack(p, t, n);
      SetColor(elm, Black, p, t);
    }

    /** A node was taken out and subtree `u` hangs at position `q` instead, its parent link still to be set. */
    ghost predicate CutAt(q: Place, u: Colored, oldParent: Id)
      reads this
    {
      && root == RootId(Plug(q, u)) && HoldsPath(field, q, RootId(u)) && Holds(field, oldParent, u)
      && Distinct(InOrder(Plug(q, u)))
    }

    /** The first half of RB_REMOVE for a node with at most one child. */
    method CutOuter(elm: Id, ghost p: Place, ghost t: Colored)
      returns (child: Id, parent: Id, color: Color, ghost u: Colored)
      requires Linked() && tree == Plug(p, t) && t.Node? && t.id == elm && (t.left.Leaf? || t.right.Leaf?)
      modifies this`field, this`root
      ensures u == if t.left.Leaf? then t.right else t.left
      ensures CutAt(p, u, elm) && child == RootId(u) && parent == ParentOf(p) && color == t.tag
      ensures InOrder(Plug(p, u)) == Before(p) + InOrder(t.left) + (InOrder(t.right) + After(p))
    {
      ghost var h := field;
      DistinctUnshared(tree);
      HoldsAt(field, p, t);
      parent, color := field[elm].parent, field[elm].color;
      assert Holds(field, elm, t.left) && Holds(field, elm, t.right);
      if field[elm].left == 0 {
        child, u := field[elm].right, t.right;
      } else {
        child, u := field[elm].left, t.left;
      }
      UnsharedAt(p, t);
      if parent != 0 {
        Above(field, p, t);
        assert parent in PathIds(p);
      }
      SwapChild(elm, child);
      PassedUp(h, field, p, t, u);
      OuterOrder(p, t, u);
    }

    /** The leftmost node below the right child of `elm`. */
    method NextBelow(elm: Id, ghost p: Place, ghost t: Colored)
      returns (m: Id, ghost q: Place, ghost c: Color, ghost u: Colored, ghost steps: nat)
      requires Linked() && tree == Plug(p, t) && t.Node? && t.id == elm && t.left.Node? && t.right.Node?
      ensures IsNext(p, t, q, c, m, u) && steps <= Depth(q) <= Height(tree)
    {
      steps := 0;
      ghost var base := InRight(p, t.left, t.tag, elm);
      q := base;
      ghost var s := t.right;
      DistinctUnshared(tree);
      HoldsAt(field, p, t);
      m := field[elm].right;
      HoldsAt(field, q, s);
      while field[m].left != 0
        invariant Extends(q, base) && Plug(q, s) == tree && s.Node? && s.id == m && m in field
        invariant field[m].left == RootId(s.left)
        invariant Holds(field, m, s.left) && (q == base ==> m == t.right.id)
        invariant (q != base ==> TopId(q, base) == t.right.id)
        invariant steps <= Depth(q)
        decreases s
      {
        steps := steps + 1;
        ExtendsOnce(q, base, s.tag, s.id, s.right);
        q, s := InLeft(q, s.tag, s.id, s.right), s.left;
        m := field[m].left;
        HoldsAt(field, q, s);
      }
      c, u := s.tag, s.right;
      HeightAt(q, s);
      if q != base {
        UnsharedAt(q, s);
        TopInPath(q, base);
      }
    }

    /** The writes that put `next` in the place of `elm`. */
    method PutNext(elm: Id, next: Id, ghost p: Place, ghost t: Colored, ghost q: Place, ghost c: Color,
        ghost u: Colored)
      returns (child: Id, parent: Id, color: Color)
      requires Linked() && tree == Plug(p, t) && t.Node? && t.id == elm && IsNext(p, t, q, c, next, u)
      modifies this`field, this`root
      ensures child == RootId(u) && color == c && Succeeds(old(field), field, p, t, q, next, u)
      ensures parent == if q == InRight(p, t.left, t.tag, elm) then next else ParentOf(q)
      ensures root == if p.Top? then next else old(root)
    {
      ghost var h := field;
      DistinctUnshared(tree);
      CutLinks(h, p, t, q, c, next, u);
      NextApart(h, p, t, q, c, next, u);
      child := field[next].right;
      if field[elm].right == next {
        SetRight(elm, child);
        parent := next;
      } else {
        parent := field[next].parent;
        SetLeft(parent, child);
        SetParent(field[elm].right, next);
      }
      ghost var h1 := field;
      SetParent(field[elm].left, next);
      ghost var h2 := field;
      color := field[next].color;
      field := field[next := field[elm]];
      ghost var h3 := field;
      SwapChild(elm, next);
      WritesNext(h, h1, h2, h3, field, p, t, q, c, next, u);
    }

    /** The first half of RB_REMOVE for a node with two children: the next node in order takes its place. */
    method CutInner(elm: Id, ghost p: Place, ghost t: Colored)
      returns (child: Id, parent: Id, color: Color, ghost q': Place, ghost u: Colored, ghost m: Id, ghost steps: nat)
      requires Linked() && tree == Plug(p, t) && t.Node? && t.id == elm && t.left.Node? && t.right.Node?
      modifies this`field, this`root
      ensures CutAt(q', u, m) && child == RootId(u) && parent == ParentOf(q') && steps <= Depth(q') <= Height(tree)
      ensures IsRedBlackTree(tree) ==> Vacated(q', u, color)
      ensures InOrder(Plug(q', u)) == Before(p) + InOrder(t.left) + (InOrder(t.right) + After(p))
    {
      ghost var h, base := field, InRight(p, t.left, t.tag, elm);
      DistinctUnshared(tree);
      var next;
      ghost var q, c;
      next, q, c, u, steps := NextBelow(elm, p, t);
      m := next;
      child, parent, color := PutNext(elm, next, p, t, q, c, u);
      Succeeded(h, field, p, t, q, c, m, u);
      q' := Rebased(q, base, InRight(p, t.left, t.tag, m));
      InnerOrder(p, t, q, c, m, u);
      RebasedRoot(q, p, t.left, t.tag, elm, m, u, t);
      RebasedDepth(q, base, InRight(p, t.left, t.tag, m));
    }

    /** The second half of RB_REMOVE: the child that moved up is settled, or a missing black node made up for. */
    method Settle(child: Id, parent: Id, color: Color, ghost q: Place, ghost u: Colored, ghost oldParent: Id)
      returns (ghost rounds: nat)
      requires CutAt(q, u, oldParent) && Vacated(q, u, color) && child == RootId(u) && parent == ParentOf(q)
      modifies this`field, this`root, this`tree
      ensures Linked() && IsRedBlackTree(tree) && InOrder(tree) == InOrder(Plug(q, u)) && rounds <= Depth(q)
    {
      rounds := 0;
      DistinctUnshared(Plug(q, u));
      if child != 0 {
        ghost var h := field;
        SetParent(child, parent);
        field := field[child := field[child].(color := Black)];
        ChildSettled(h, field, q, u, oldParent);
        SameOrder(q, u, Painted(u, Black));
        SameRoot(q, u, Painted(u, Black));
        Filled(q, Painted(u, Black), 1);
        tree := Plug(q, Painted(u, Black));
      } else {
        HoldsSplit(field, q, Leaf);
        tree := Plug(q, Leaf);
        if color != Red && parent != 0 {
          rounds := RemoveColor(parent, q);
        } else if color == Red {
          Filled(q, Leaf, 0);
        } else {
          assert q.Top? by { PathShown(q, 0); }
          Filled(q, Leaf, 0);
        }
      }
    }

    lemma PathShown(q: Place, x: Id)
      requires HoldsPath(field, q, x)
      ensures q.Top? <==> ParentOf(q) == 0
    {
    }

    /** RB_REMOVE: the node leaves the sequence, every other node stays where it was in it. The way to the next
        node and the repair take no more steps than the height of the tree each. */
    method Remove(elm: Id) returns (r: Id, ghost steps: nat)
      requires Linked() && IsRedBlackTree(tree) && elm in Ids(tree)
      modifies this`field, this`root, this`tree
      ensures Linked() && IsRedBlackTree(tree) && r == elm && steps <= 2 * Height(old(tree))
      ensures exists a: seq<Id>, b: seq<Id> :: old(InOrder(tree)) == a + [elm] + b && InOrder(tree) == a + b
      ensures old(Valid()) ==> Valid()
    {
      ghost var p, t := PositionOf(Top, tree, elm);
      ghost var a, b := Before(p) + InOrder(t.left), InOrder(t.right) + After(p);
      InOrderAt(p, t);
      Regrouped(Before(p), InOrder(t.left), elm, InOrder(t.right), After(p));
      HoldsAt(field, p, t);
      assert Holds(field, elm, t.left) && Holds(field, elm, t.right);
      var child, parent, color;
      ghost var q, u, m;
      steps := 0;
      if field[elm].left == 0 || field[elm].right == 0 {
        OnlyChildLeft(p, t);
        child, parent, color, u := CutOuter(elm, p, t);
        q, m := p, elm;
        HeightAt(p, t);
      } else {
        child, parent, color, q, u, m, steps := CutInner(elm, p, t);
      }
      ghost var rounds := Settle(child, parent, color, q, u, m);
      steps := steps + rounds;
      r := elm;
      assert old(InOrder(tree)) == a + [elm] + b && InOrder(tree) == a + b;
      if Sorted(a + [elm] + b, key) {
        SortedParts(a, elm, b, key);
      }
    }

    /** What RB_PARENT shows. */
    lemma ParentSeen(p: Place, t: Colored)
      requires Linked() && tree == Plug(p, t) && t.Node?
      ensures t.id in field && field[t.id].parent == ParentOf(p) && field[t.id].color == t.tag && t.id != 0
      ensures !p.Top? ==> p.id != 0 && p.id in field && field[p.id].color == p.tag
    {
      HoldsAt(field, p, t);
    }
  }

  /** The six writes of a rotation hold the turned tree. */
  lemma RotationLeft(h: Fields, h1: Fields, h2: Fields, h3: Fields, h4: Fields, h5: Fields, h': Fields, p: Place,
    t: Colored)
    requires Holds(h, 0, Plug(p, t)) && Unshared(Plug(p, t)) && t.Node? && t.right.Node?
    requires WritesLeft(h, h1, h2, h3, h4, h5, p, t)
    requires h' == h5[t.id := h5[t.id].(parent := t.right.id)]
    ensures Holds(h', 0, Plug(p, TurnedLeft(t))) && InOrder(Plug(p, TurnedLeft(t))) == InOrder(Plug(p, t))
    ensures RootId(Plug(p, TurnedLeft(t))) == if p.Top? then t.right.id else RootId(Plug(p, t))
  {
    WritesLeftTurn(h, h1, h2, h3, h4, h5, p, t);
    RotatedLeft(h, h', p, t);
    TurnLeftSameTree(p, t);
  }

  lemma TurnLeftSameTree(p: Place, t: Colored)
    requires t.Node? && t.right.Node?
    ensures InOrder(Plug(p, TurnedLeft(t))) == InOrder(Plug(p, t))
    ensures RootId(Plug(p, TurnedLeft(t))) == if p.Top? then t.right.id else RootId(Plug(p, t))
  {
    var r := t.right;
    RotationOrder(t.tag, r.tag, t.tag, r.tag, t.left, t.id, r.left, r.id, r.right);
    SameOrder(p, t, TurnedLeft(t));
    if !p.Top? {
      SameRoot(p, t, TurnedLeft(t));
    }
  }

  /** The six writes of a rotation hold the turned tree. */
  lemma RotationRight(h: Fields, h1: Fields, h2: Fields, h3: Fields, h4: Fields, h5: Fields, h': Fields, p: Place,
    t: Colored)
    requires Holds(h, 0, Plug(p, t)) && Unshared(Plug(p, t)) && t.Node? && t.left.Node?
    requires WritesRight(h, h1, h2, h3, h4, h5, p, t)
    requires h' == h5[t.id := h5[t.id].(parent := t.left.id)]
    ensures Holds(h', 0, Plug(p, TurnedRight(t))) && InOrder(Plug(p, TurnedRight(t))) == InOrder(Plug(p, t))
    ensures RootId(Plug(p, TurnedRight(t))) == if p.Top? then t.left.id else RootId(Plug(p, t))
  {
    WritesRightTurn(h, h1, h2, h3, h4, h5, p, t);
    RotatedRight(h, h', p, t);
    TurnRightSameTree(p, t);
  }

  lemma TurnRightSameTree(p: Place, t: Colored)
    requires t.Node? && t.left.Node?
    ensures InOrder(Plug(p, TurnedRight(t))) == InOrder(Plug(p, t))
    ensures RootId(Plug(p, TurnedRight(t))) == if p.Top? then t.left.id else RootId(Plug(p, t))
  {
    var l := t.left;
    RotationOrder(l.tag, t.tag, l.tag, t.tag, l.left, l.id, l.right, t.id, t.right);
    SameOrder(p, t, TurnedRight(t));
    if !p.Top? {
      SameRoot(p, t, TurnedRight(t));
    }
  }

  /** Where a key that the tree does not have belongs. */
  lemma NewPlace(tree: Colored, p: Place, elm: Id, key: Id -> int)
    requires tree == Plug(p, Leaf) && Sorted(InOrder(tree), key)
    requires AllBelow(Before(p), key, key(elm)) && AllAbove(After(p), key, key(elm))
    ensures InOrder(tree) == Before(p) + After(p) && elm !in Ids(tree)
    ensures Sorted(Before(p) + [elm] + After(p), key) && Distinct(Before(p) + [elm] + After(p))
    ensures forall x | x in InOrder(tree) :: key(x) != key(elm)
  {
    InOrderAt<Color>(p, Leaf);
    assert InOrder(tree) == Before(p) + After(p);
    SortedWith(Before(p), elm, After(p), key);
    IdsInOrder(tree, elm);
  }

  lemma OuterOrder(p: Place, t: Colored, u: Colored)
    requires t.Node? && Distinct(InOrder(Plug(p, t)))
    requires (t.left.Leaf? && u == t.right) || (t.right.Leaf? && u == t.left)
    ensures InOrder(Plug(p, u)) == Before(p) + InOrder(t.left) + (InOrder(t.right) + After(p))
    ensures Distinct(InOrder(Plug(p, u)))
    ensures !p.Top? ==> RootId(Plug(p, u)) == RootId(Plug(p, t))
  {
    var a, b := Before(p) + InOrder(t.left), InOrder(t.right) + After(p);
    InOrderAt(p, t);
    InOrderAt(p, u);
    Regrouped(Before(p), InOrder(t.left), t.id, InOrder(t.right), After(p));
    WithoutOne(a, t.id, b);
    if !p.Top? {
      SameRoot(p, t, u);
    }
  }

  lemma InnerOrder(p: Place, t: Colored, q: Place, c: Color, m: Id, u: Colored)
    requires t.Node? && Distinct(InOrder(Plug(p, t))) && Extends(q, InRight(p, t.left, t.tag, t.id))
    requires Plug(q, Node(c, Leaf, m, u)) == Plug(p, t)
    ensures var q' := Rebased(q, InRight(p, t.left, t.tag, t.id), InRight(p, t.left, t.tag, m));
      && InOrder(Plug(q', u)) == Before(p) + InOrder(t.left) + (InOrder(t.right) + After(p))
      && Distinct(InOrder(Plug(q', u)))
      && (IsRedBlackTree(Plug(p, t)) ==> Vacated(q', u, c))
  {
    InnerSequence(p, t, q, c, m, u);
    WithoutOne(Before(p) + InOrder(t.left), t.id, InOrder(t.right) + After(p));
    InnerVacated(p, t, q, c, m, u);
  }

  lemma InnerSequence(p: Place, t: Colored, q: Place, c: Color, m: Id, u: Colored)
    requires t.Node? && Extends(q, InRight(p, t.left, t.tag, t.id))
    requires Plug(q, Node(c, Leaf, m, u)) == Plug(p, t)
    ensures var q' := Rebased(q, InRight(p, t.left, t.tag, t.id), InRight(p, t.left, t.tag, m));
      var a, b := Before(p) + InOrder(t.left), InOrder(t.right) + After(p);
      InOrder(Plug(p, t)) == a + [t.id] + b && InOrder(Plug(q', u)) == a + b
  {
    var a, b := Before(p) + InOrder(t.left), InOrder(t.right) + After(p);
    InOrderAt(p, t);
    Regrouped(Before(p), InOrder(t.left), t.id, InOrder(t.right), After(p));
    AroundNext(q, c, m, u, InRight(p, t.left, t.tag, t.id));
    WithoutNext(q, u, InRight(p, t.left, t.tag, t.id), InRight(p, t.left, t.tag, m));
    NextOrder(a, t.id, b, m, InOrder(u), After(q));
  }

  /** The order at the next node, below a path that ends in it. */
  lemma AroundNext(q: Place, c: Color, m: Id, u: Colored, base: Place)
    requires Extends(q, base)
    ensures InOrder(Plug(q, Node(c, Leaf, m, u))) == Before(base) + ([m] + InOrder(u)) + After(q)
  {
    var t := Node(c, Leaf, m, u);
    InOrderAt(q, t);
    RebasedOrder(q, base, base);
    assert InOrder(t) == [m] + InOrder(u);
  }

  /** The order with its child in its place. */
  lemma WithoutNext(q: Place, u: Colored, base: Place, base': Place)
    requires Extends(q, base) && After(base) == After(base')
    ensures InOrder(Plug(Rebased(q, base, base'), u)) == Before(base') + InOrder(u) + After(q)
  {
    var q' := Rebased(q, base, base');
    RebasedOrder(q, base, base');
    InOrderAt(q', u);
  }

  lemma InnerVacated(p: Place, t: Colored, q: Place, c: Color, m: Id, u: Colored)
    requires t.Node? && Extends(q, InRight(p, t.left, t.tag, t.id))
    requires Plug(q, Node(c, Leaf, m, u)) == Plug(p, t)
    ensures IsRedBlackTree(Plug(p, t)) ==>
      Vacated(Rebased(q, InRight(p, t.left, t.tag, t.id), InRight(p, t.left, t.tag, m)), u, c)
  {
    if IsRedBlackTree(Plug(p, t)) {
      OnlyChildLeft(q, Node(c, Leaf, m, u));
      RebasedAwaits(q, InRight(p, t.left, t.tag, t.id), InRight(p, t.left, t.tag, m), if c == Black then 1 else 0);
    }
  }

  /** What follows the node taken out is what the next node leads. */
  lemma NextOrder(a: seq<Id>, x: Id, b: seq<Id>, m: Id, u: seq<Id>, after: seq<Id>)
    ensures a + [x] + b == (a + [x]) + ([m] + u) + after ==> b == [m] + u + after && (a + [m]) + u + after == a + b
  {
    if a + [x] + b == (a + [x]) + ([m] + u) + after {
      var s := a + [x];
      assert s + b == s + ([m] + u + after);
      assert b == (s + b)[|s|..] == (s + ([m] + u + after))[|s|..] == [m] + u + after;
    }
  }
}
