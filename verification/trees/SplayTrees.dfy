/** Top-down splay trees: every operation brings the node next to its key to the root. */
module SplayTrees {
  import opened Sequences
  import opened BinaryTrees
  import opened SplayLinks
  import opened SplayCosts

  /** The root has key `k`; or it follows every smaller key and precedes every larger one next to `k`. */
  predicate NextToRoot(t: Plain, key: Id -> int, k: int) {
    t.Node? ==>
      && (k < key(t.id) ==> AllBelow(InOrder(t.left), key, k))
      && (key(t.id) < k ==> AllAbove(InOrder(t.right), key, k))
  }

  /** Where the descent for `k` may end. */
  predicate EndsAt(t: Plain, key: Id -> int, k: int) {
    t.Node? && (k < key(t.id) ==> t.left.Leaf?) && (key(t.id) < k ==> t.right.Leaf?)
  }

  class SplayTree {
    const key: Id -> int
    /** The local node of SPLAY; it belongs to no tree. */
    const local: Id
    var root: Id
    var field: Fields
    ghost var tree: Plain

    ghost predicate Linked()
      reads this
    {
      root == RootId(tree) && Held(field, tree) && Distinct(InOrder(tree)) && local != 0 && local !in Ids(tree)
    }

    ghost predicate Valid()
      reads this
    {
      Linked() && Sorted(InOrder(tree), key)
    }

    /** SPLAY_INIT */
    constructor (key: Id -> int, local: Id)
      requires local != 0
      ensures Valid() && this.key == key && this.local == local && InOrder(tree) == []
    {
      this.key, this.local := key, local;
      root, field, tree := 0, map[], Leaf;
    }

    method SetLeft(x: Id, y: Id)
      requires x in field
      modifies this`field
      ensures field == old(field)[x := old(field)[x].(left := y)]
    {
      field := field[x := field[x].(left := y)];
    }

    method SetRight(x: Id, y: Id)
      requires x in field
      modifies this`field
      ensures field == old(field)[x := old(field)[x].(right := y)]
    {
      field := field[x := field[x].(right := y)];
    }

    // ----- the steps of a splay

    /** Nodes outside `ids` and the local node are as in `h`. */
    predicate Elsewhere(h: Fields, ids: set<Id>)
      reads this
    {
      forall x | x in h && x !in ids && x != local :: x in field && field[x] == h[x]
    }

    /** A splay on the way: a smaller tree that `left` ends, the tree at the root, a larger one that `right` ends. */
    ghost predicate Splaying(h: Fields, left: Id, right: Id, l: Path<()>, t: Plain, r: Path<()>)
      reads this
    {
      && root == RootId(t) && t.Node? && Held(field, t) && LeftSpine(field, local, l) && RightSpine(field, local, r)
      && left == Tip(l, local) && right == Tip(r, local) && local in field && local != 0
      && OnlyRight(l) && OnlyLeft(r)
      && Distinct(InOrder(Whole(l, t, r))) && local !in Ids(Whole(l, t, r)) && Elsewhere(h, Ids(Whole(l, t, r)))
    }

    /** SPLAY_ROTATE_RIGHT */
    method RotateRight(tmp: Id, ghost h: Fields, left: Id, right: Id, ghost l: Path<()>, ghost t: Plain,
        ghost r: Path<()>)
      requires Splaying(h, left, right, l, t, r) && t.left.Node? && t.left.id == tmp
      modifies this`field, this`root
      ensures Splaying(h, left, right, l, TurnedRight(t), r)
      ensures InOrder(Whole(l, TurnedRight(t), r)) == InOrder(Whole(l, t, r))
      ensures Ids(Whole(l, TurnedRight(t), r)) == Ids(Whole(l, t, r))
    {
      ghost var h0 := field;
      DistinctUnshared(Whole(l, t, r));
      PartsApart(l, t, r);
      assert Held(field, t.left);
      SetLeft(root, field[tmp].right);
      ghost var h1 := field;
      SetRight(tmp, root);
      root := tmp;
      TurnedRightHeld(h0, h1, field, t);
      OthersSame(h0, field, h, l, t, r);
      SameWhole(l, t, TurnedRight(t), r);
    }

    /** SPLAY_ROTATE_LEFT */
    method RotateLeft(tmp: Id, ghost h: Fields, left: Id, right: Id, ghost l: Path<()>, ghost t: Plain,
        ghost r: Path<()>)
      requires Splaying(h, left, right, l, t, r) && t.right.Node? && t.right.id == tmp
      modifies this`field, this`root
      ensures Splaying(h, left, right, l, TurnedLeft(t), r)
      ensures InOrder(Whole(l, TurnedLeft(t), r)) == InOrder(Whole(l, t, r))
      ensures Ids(Whole(l, TurnedLeft(t), r)) == Ids(Whole(l, t, r))
    {
      ghost var h0 := field;
      DistinctUnshared(Whole(l, t, r));
      PartsApart(l, t, r);
      assert Held(field, t.right);
      SetRight(root, field[tmp].left);
      ghost var h1 := field;
      SetLeft(tmp, root);
      root := tmp;
      TurnedLeftHeld(h0, h1, field, t);
      OthersSame(h0, field, h, l, t, r);
      SameWhole(l, t, TurnedLeft(t), r);
    }

    /** SPLAY_LINKLEFT: the root and its right subtree join the larger nodes. */
    method LinkLeft(right: Id, ghost h: Fields, ghost left: Id, ghost l: Path<()>, ghost t: Plain, ghost r: Path<()>)
      returns (right': Id)
      requires Splaying(h, left, right, l, t, r) && t.left.Node?
      modifies this`field, this`root
      ensures Splaying(h, left, right', l, t.left, InLeft(r, (), t.id, t.right))
      ensures InOrder(Whole(l, t.left, InLeft(r, (), t.id, t.right))) == InOrder(Whole(l, t, r))
      ensures Ids(Whole(l, t.left, InLeft(r, (), t.id, t.right))) == Ids(Whole(l, t, r))
    {
      DistinctUnshared(Whole(l, t, r));
      ghost var h0 := field;
      assert right in field;
      SetLeft(right, root);
      right' := root;
      LinkedLeftHeld(h0, field, local, l, t, r);
      root := field[root].left;
      LinkLeftWhole(l, t, r);
    }

    /** SPLAY_LINKRIGHT: the root and its left subtree join the smaller nodes. */
    method LinkRight(left: Id, ghost h: Fields, ghost right: Id, ghost l: Path<()>, ghost t: Plain, ghost r: Path<()>)
      returns (left': Id)
      requires Splaying(h, left, right, l, t, r) && t.right.Node?
      modifies this`field, this`root
      ensures Splaying(h, left', right, InRight(l, t.left, (), t.id), t.right, r)
      ensures InOrder(Whole(InRight(l, t.left, (), t.id), t.right, r)) == InOrder(Whole(l, t, r))
      ensures Ids(Whole(InRight(l, t.left, (), t.id), t.right, r)) == Ids(Whole(l, t, r))
    {
      DistinctUnshared(Whole(l, t, r));
      ghost var h0 := field;
      assert left in field;
      SetRight(left, root);
      left' := root;
      LinkedRightHeld(h0, field, local, l, t, r);
      root := field[root].right;
      LinkRightWhole(l, t, r);
    }

    /** SPLAY_ASSEMBLE */
    method Assemble(left: Id, right: Id, ghost h: Fields, ghost l: Path<()>, ghost t: Plain, ghost r: Path<()>)
      requires Splaying(h, left, right, l, t, r)
      modifies this`field, this`root, this`tree
      ensures Linked() && tree == Assembled(l, t, r) && Elsewhere(h, Ids(tree))
      ensures InOrder(tree) == InOrder(Whole(l, t, r)) && Ids(tree) == Ids(Whole(l, t, r))
    {
      DistinctUnshared(Whole(l, t, r));
      ghost var h0 := field;
      assert left in field && right in field && root in field;
      SetRight(left, field[root].left);
      ghost var h1 := field;
      AssembleApart(l, t, r);
      SetLeft(right, field[root].right);
      ghost var h2 := field;
      SetLeft(root, field[local].right);
      ghost var h3 := field;
      SetRight(root, field[local].left);
      AssembledHeld(h0, h1, h2, h3, field, local, l, t, r);
      AssembledWhole(l, t, r);
      tree := Assembled(l, t, r);
    }

    lemma AssembleApart(l: Path<()>, t: Plain, r: Path<()>)
      requires t.Node? && Unshared(Whole(l, t, r)) && local !in Ids(Whole(l, t, r))
      ensures t.id != Tip(l, local) && t.id != Tip(r, local) && t.id != local
    {
      PartsApart(l, t, r);
      assert !l.Top? ==> l.id in PathIds(l);
      assert !r.Top? ==> r.id in PathIds(r);
    }

    // ----- splaying for a key

    /** The comparison of the nodes with a key. */
    ghost function Toward(k: int): Compare {
      (x: Id) => k - key(x)
    }

    ghost predicate SplayingFor(k: int, h: Fields, s: seq<Id>, ids: set<Id>, left: Id, right: Id, l: Path<()>, t: Plain,
        r: Path<()>)
      reads this
    {
      && Splaying(h, left, right, l, t, r) && InOrder(Whole(l, t, r)) == s && Ids(Whole(l, t, r)) == ids
      && Sorted(s, key)
      && AllBelow(Before(l), key, k) && AllAbove(After(r), key, k)
    }

    /** One round for a key below that of the root. */
    method StepLeft(k: int, left: Id, right: Id, ghost h: Fields, ghost s: seq<Id>, ghost ids: set<Id>,
        ghost l: Path<()>, ghost t: Plain, ghost r: Path<()>)
      returns (done: bool, right': Id, ghost t': Plain, ghost r': Path<()>)
      requires SplayingFor(k, h, s, ids, left, right, l, t, r) && k < key(t.id)
      modifies this`field, this`root
      ensures SplayingFor(k, h, s, ids, left, right', l, t', r') && Round(done, l, t, r, l, t', r', Toward(k))
      ensures if done then EndsAt(t', key, k) else t' < t
    {
      done, right', t', r' := true, right, t, r;
      assert Held(field, t.left);
      var tmp := field[root].left;
      if tmp != 0 {
        if k < key(tmp) {
          RotateRight(tmp, h, left, right, l, t, r);
          t' := TurnedRight(t);
        }
        assert Held(field, t'.left);
        if field[root].left != 0 {
          LinkAbove(k, l, t', r);
          right' := LinkLeft(right, h, left, l, t', r);
          done, t', r' := false, t'.left, InLeft(r, (), t'.id, t'.right);
          RoundLeft(l, t, r, Toward(k));
        }
      }
      if done {
        RoundEnds(l, t, r, Toward(k));
      }
    }

    method StepRight(k: int, left: Id, right: Id, ghost h: Fields, ghost s: seq<Id>, ghost ids: set<Id>,
        ghost l: Path<()>, ghost t: Plain, ghost r: Path<()>)
      returns (done: bool, left': Id, ghost t': Plain, ghost l': Path<()>)
      requires SplayingFor(k, h, s, ids, left, right, l, t, r) && key(t.id) < k
      modifies this`field, this`root
      ensures SplayingFor(k, h, s, ids, left', right, l', t', r) && Round(done, l, t, r, l', t', r, Toward(k))
      ensures if done then EndsAt(t', key, k) else t' < t
    {
      done, left', t', l' := true, left, t, l;
      assert Held(field, t.right);
      var tmp := field[root].right;
      if tmp != 0 {
        if key(tmp) < k {
          RotateLeft(tmp, h, left, right, l, t, r);
          t' := TurnedLeft(t);
        }
        assert Held(field, t'.right);
        if field[root].right != 0 {
          LinkAbove(k, l, t', r);
          left' := LinkRight(left, h, right, l, t', r);
          done, t', l' := false, t'.right, InRight(l, t'.left, (), t'.id);
          RoundRight(l, t, r, Toward(k));
        }
      }
      if done {
        RoundEnds(l, t, r, Toward(k));
      }
    }

    /** SPLAY: terminates, keeps the nodes in order and brings a node next to the key to the root. */
    method Splay(elm: Id) returns (ghost rounds: nat)
      requires Valid() && tree.Node?
      modifies this`field, this`root, this`tree
      ensures Valid() && tree.Node? && InOrder(tree) == old(InOrder(tree)) && Ids(tree) == old(Ids(tree))
      ensures NextToRoot(tree, key, key(elm)) && SplayRounds(rounds, old(tree), tree, Toward(key(elm)))
      ensures Elsewhere(old(field), Ids(tree))
    {
      var k := key(elm);
      ghost var h, s, ids := field, InOrder(tree), Ids(tree);
      DistinctUnshared(tree);
      field := field[local := Ends(0, 0)];
      HeldKept(h, field, tree);
      var left, right := local, local;
      ghost var l, t, r: Path<()> := Top, tree, Top;
      ghost var t0 := tree;
      rounds := 0;
      NothingDone(t0, Toward(k));
      while k != key(root)
        invariant SplayingFor(k, h, s, ids, left, right, l, t, r) && Descending(rounds, l, t, r, t0, Toward(k))
        decreases t
      {
        ghost var l0, t1, r0 := l, t, r;
        var done;
        if k < key(root) {
          done, right, t, r := StepLeft(k, left, right, h, s, ids, l, t, r);
        } else {
          done, left, t, l := StepRight(k, left, right, h, s, ids, l, t, r);
        }
        RoundDone(rounds, done, l0, t1, r0, l, t, r, t0, Toward(k));
        rounds := rounds + 1;
        if done {
          break;
        }
      }
      if k == key(root) {
        FoundHere(rounds, l, t, r, t0, Toward(k));
      }
      Assemble(left, right, h, l, t, r);
      EndsNext(k, l, t, r);
    }

    // ----- the operations

    /** SPLAY_FIND */
    method Find(elm: Id) returns (r: Id, ghost rounds: nat)
      requires Valid()
      modifies this`field, this`root, this`tree
      ensures Amortized(rounds, old(tree), tree, Charge(Size(tree))) && Size(tree) == old(Size(tree))
      ensures rounds == Rounds(old(tree), Toward(key(elm)))
      ensures tree == if old(tree).Leaf? then Leaf else Splayed(old(tree), Toward(key(elm)))
      ensures Valid() && InOrder(tree) == old(InOrder(tree))
      ensures r != 0 <==> exists x | x in InOrder(tree) :: key(x) == key(elm)
      ensures r != 0 ==> r in InOrder(tree) && key(r) == key(elm) && r == root
    {
      r, rounds := 0, 0;
      if root != 0 {
        rounds := Splay(elm);
        SplayCost(rounds, old(tree), tree, Toward(key(elm)));
        AtRoot(key(elm));
        if key(elm) == key(root) {
          r := root;
        }
      }
    }

    /** Around the root: the smaller keys, the root, the larger keys. */
    lemma AtRoot(k: int)
      requires Valid() && tree.Node? && NextToRoot(tree, key, k)
      ensures InOrder(tree) == InOrder(tree.left) + [tree.id] + InOrder(tree.right) && root == tree.id && root != 0
      ensures AllBelow(InOrder(tree.left), key, key(root)) && AllAbove(InOrder(tree.right), key, key(root))
      ensures root in InOrder(tree) && Sorted(InOrder(tree.left) + InOrder(tree.right), key)
      ensures key(root) != k ==> forall x | x in InOrder(tree) :: key(x) != k
    {
      SortedParts(InOrder(tree.left), tree.id, InOrder(tree.right), key);
    }

    /** SPLAY_INSERT: the node becomes the root, unless one with its key is there already. */
    method Insert(elm: Id) returns (found: Id, ghost rounds: nat)
      requires Valid() && elm != 0 && elm != local
      modifies this`field, this`root, this`tree
      ensures Valid()
      ensures Amortized(rounds, old(tree), tree, 2 * Charge(Size(tree)))
      ensures Size(tree) == old(Size(tree)) + if found == 0 then 1 else 0
      ensures tree == Inserted(old(tree), elm, Toward(key(elm))) && rounds == Rounds(old(tree), Toward(key(elm)))
      ensures found != 0 <==> exists x | x in old(InOrder(tree)) :: key(x) == key(elm)
      ensures found != 0 ==> found in InOrder(tree) && key(found) == key(elm) && InOrder(tree) == old(InOrder(tree))
      ensures found == 0 ==>
        root == elm && exists a: seq<Id>, b: seq<Id> :: old(InOrder(tree)) == a + b && InOrder(tree) == a + [elm] + b
    {
      found, rounds := 0, 0;
      if root == 0 {
        field := field[elm := Ends(0, 0)];
        assert old(InOrder(tree)) == [] + [] && [] + [elm] + [] == [elm];
        tree := Node((), Leaf, elm, Leaf);
      } else {
        rounds := Splay(elm);
        ghost var v := tree;
        SplayCost(rounds, old(tree), v, Toward(key(elm)));
        AtRoot(key(elm));
        if key(elm) == key(root) {
          return root, rounds;
        }
        PartRoot(elm);
        InsertCost(rounds, old(tree), v, tree, elm);
      }
      root := elm;
    }

    /** The new node takes the nodes on either side of it for its subtrees. */
    method PartRoot(elm: Id)
      requires Valid() && elm != 0 && elm != local
      requires tree.Node? && NextToRoot(tree, key, key(elm)) && key(elm) != key(tree.id)
      modifies this`field, this`root, this`tree
      ensures Valid() && root == elm && RootAdded(old(tree), tree, elm)
      ensures tree == Parted(old(tree), elm, key(elm) < key(old(tree.id)))
      ensures exists a: seq<Id>, b: seq<Id> :: old(InOrder(tree)) == a + b && InOrder(tree) == a + [elm] + b
    {
      ghost var s := InOrder(tree);
      AtRoot(key(elm));
      ghost var a, b := SplitRoot(elm);
      assert s == a + b;
      if key(elm) < key(root) {
        InsertBefore(elm);
      } else {
        InsertAfter(elm);
      }
      assert InOrder(tree) == a + [elm] + b;
      root := elm;
    }

    /** Where the new root parts the nodes. */
    lemma SplitRoot(elm: Id) returns (a: seq<Id>, b: seq<Id>)
      requires Valid() && tree.Node? && NextToRoot(tree, key, key(elm)) && key(elm) != key(tree.id)
      ensures InOrder(tree) == a + b && Sorted(a + [elm] + b, key) && elm !in Ids(tree)
      ensures key(elm) < key(tree.id) ==> a == InOrder(tree.left) && b == [tree.id] + InOrder(tree.right)
      ensures key(elm) > key(tree.id) ==> a == InOrder(tree.left) + [tree.id] && b == InOrder(tree.right)
    {
      AtRoot(key(elm));
      if key(elm) < key(tree.id) {
        a, b := InOrder(tree.left), [tree.id] + InOrder(tree.right);
      } else {
        a, b := InOrder(tree.left) + [tree.id], InOrder(tree.right);
      }
      assert InOrder(tree) == a + b;
      SortedWith(a, elm, b, key);
      IdsInOrder(tree, elm);
    }

    method InsertBefore(elm: Id)
      requires Linked() && tree.Node? && elm !in Ids(tree) && elm != 0 && elm != local
      requires Distinct(InOrder(tree.left) + [elm] + ([tree.id] + InOrder(tree.right)))
      modifies this`field, this`tree
      ensures root == old(root) && Held(field, tree) && Distinct(InOrder(tree)) && local !in Ids(tree)
      ensures RootAdded(old(tree), tree, elm)
      ensures tree == Parted(old(tree), elm, true)
      ensures InOrder(tree) == old(InOrder(tree.left)) + [elm] + ([old(tree.id)] + old(InOrder(tree.right)))
    {
      ghost var h, t := field, tree;
      DistinctUnshared(tree);
      field := field[elm := Ends(field[root].left, root)];
      SetLeft(root, 0);
      HeldKept(h, field, t.left);
      HeldKept(h, field, t.right);
      RootCost(t, elm);
      ghost var rest: Plain := Node((), Leaf, t.id, t.right);
      tree := Node((), t.left, elm, rest);
      assert InOrder(rest) == [t.id] + InOrder(t.right);
      assert Held(field, rest);
      IdsInOrder(t, local);
      IdsInOrder(tree, local);
    }

    method InsertAfter(elm: Id)
      requires Linked() && tree.Node? && elm !in Ids(tree) && elm != 0 && elm != local
      requires Distinct(InOrder(tree.left) + [tree.id] + [elm] + InOrder(tree.right))
      modifies this`field, this`tree
      ensures root == old(root) && Held(field, tree) && Distinct(InOrder(tree)) && local !in Ids(tree)
      ensures RootAdded(old(tree), tree, elm)
      ensures tree == Parted(old(tree), elm, false)
      ensures InOrder(tree) == old(InOrder(tree.left)) + [old(tree.id)] + [elm] + old(InOrder(tree.right))
    {
      ghost var h, t := field, tree;
      DistinctUnshared(tree);
      field := field[elm := Ends(root, field[root].right)];
      SetRight(root, 0);
      HeldKept(h, field, t.left);
      HeldKept(h, field, t.right);
      RootCost(t, elm);
      ghost var rest: Plain := Node((), t.left, t.id, Leaf);
      tree := Node((), rest, elm, t.right);
      assert InOrder(rest) == InOrder(t.left) + [t.id];
      assert Held(field, rest);
      IdsInOrder(t, local);
      IdsInOrder(tree, local);
    }

    /** SPLAY_REMOVE: exactly the node with this key leaves. The result is the argument itself. */
    method Remove(elm: Id) returns (r: Id, ghost rounds: nat)
      requires Valid() && elm != 0
      modifies this`field, this`root, this`tree
      ensures Amortized(rounds, old(tree), tree, 2 * Charge(old(Size(tree)))) && Size(tree) <= old(Size(tree))
      ensures rounds == RemoveRounds(old(tree), Toward(key(elm)))
      ensures Valid() && r == (if exists x | x in old(InOrder(tree)) :: key(x) == key(elm) then elm else 0)
      ensures r == 0 ==> InOrder(tree) == old(InOrder(tree))
      ensures r != 0 ==> exists a: seq<Id>, x: Id, b: seq<Id> ::
        key(x) == key(elm) && old(InOrder(tree)) == a + [x] + b && InOrder(tree) == a + b
    {
      r, rounds := 0, 0;
      if root != 0 {
        rounds := Splay(elm);
        ghost var v := tree;
        SplayCost(rounds, old(tree), v, Toward(key(elm)));
        AtRoot(key(elm));
        if key(elm) == key(root) {
          ghost var a, x, b := InOrder(tree.left), root, InOrder(tree.right);
          ghost var more := TakeRoot(elm);
          rounds := rounds + more;
          r := elm;
          assert old(InOrder(tree)) == a + [x] + b && InOrder(tree) == a + b;
        }
      }
    }

    /** Removes the root. */
    method TakeRoot(elm: Id) returns (ghost rounds: nat)
      requires Valid() && tree.Node? && key(elm) == key(tree.id)
      modifies this`field, this`root, this`tree
      ensures Amortized(rounds, old(tree), tree, Charge(old(Size(tree)))) && Size(tree) == old(Size(tree)) - 1
      ensures rounds == Rounds(old(tree.left), Toward(key(elm)))
      ensures Valid() && InOrder(tree) == old(InOrder(tree.left)) + old(InOrder(tree.right))
    {
      assert Held(field, tree.left) && Held(field, tree.right);
      if field[root].left == 0 {
        AtRoot(key(elm));
        assert [] + InOrder(tree.right) == InOrder(tree.right);
        SortedDistinct(InOrder(tree.right), key);
        root := field[root].right;
        tree := tree.right;
        rounds := 0;
      } else {
        rounds := JoinSides(elm);
      }
    }

    /** The left subtree, splayed for the root's key, gets the right subtree: its own root has none. */
    method JoinSides(elm: Id) returns (ghost rounds: nat)
      requires Valid() && tree.Node? && tree.left.Node? && key(elm) == key(tree.id)
      modifies this`field, this`root, this`tree
      ensures Amortized(rounds, old(tree), tree, Charge(old(Size(tree)))) && Size(tree) == old(Size(tree)) - 1
      ensures rounds == Rounds(old(tree.left), Toward(key(elm)))
      ensures Valid() && InOrder(tree) == old(InOrder(tree.left)) + old(InOrder(tree.right))
    {
      ghost var t := tree;
      DistinctUnshared(tree);
      SortedParts(InOrder(t.left), t.id, InOrder(t.right), key);
      SortedDistinct(InOrder(t.left), key);
      assert Held(field, t.left) && Held(field, t.right);
      ghost var h := field;
      var tmp := field[root].right;
      root := field[root].left;
      tree := t.left;
      rounds := Splay(elm);
      SplayCost(rounds, t.left, tree, Toward(key(elm)));
      assert tree.id in InOrder(tree);
      LargestAtRoot(key(elm));
      DistinctUnshared(tree);
      JoinedOrder(t, tree, key);
      HeldKept(h, field, t.right);
      ghost var h1 := field;
      SetRight(root, tmp);
      JoinedHeld(h1, field, tree, t.right);
      JoinCost(rounds, t, tree);
      tree := Node((), tree.left, tree.id, t.right);
    }

    /** When every key is below `k`, the splay for `k` brings the last node to the root. */
    lemma LargestAtRoot(k: int)
      requires Valid() && tree.Node? && NextToRoot(tree, key, k) && key(tree.id) < k && AllBelow(InOrder(tree), key, k)
      ensures tree.right.Leaf? && InOrder(tree) == InOrder(tree.left) + [tree.id]
    {
      if tree.right.Node? {
        NotBoth(InOrder(tree.right), key, k);
      }
      BelowParts(InOrder(tree.left) + [tree.id], InOrder(tree.right), key, k);
      BelowParts(InOrder(tree.left), [tree.id], key, k);
    }

    /** SPLAY_NEXT */
    method Next(elm: Id) returns (r: Id, ghost rounds: nat, ghost walk: nat)
      requires Valid() && elm in Ids(tree)
      modifies this`field, this`root, this`tree
      ensures Valid() && InOrder(tree) == old(InOrder(tree)) && root == elm
      ensures Follows(InOrder(tree), elm, r)
      ensures SplayRounds(rounds, old(tree), tree, Toward(key(elm))) && walk == LeftDepth(tree.right)
    {
      IdsInOrder(tree, elm);
      rounds := Splay(elm);
      walk := 0;
      AtRoot(key(elm));
      assert root == elm;
      assert Held(field, tree.right);
      FollowsHere(InOrder(tree.left), elm, InOrder(tree.right), if tree.right.Leaf? then 0 else InOrder(tree.right)[0]);
      if field[elm].right != 0 {
        r, walk := field[elm].right, 1;
        ghost var u := tree.right;
        while field[r].left != 0
          invariant u.Node? && u.id == r && Held(field, u) && InOrder(u)[0] == InOrder(tree.right)[0]
          invariant walk + LeftDepth(u.left) == LeftDepth(tree.right)
          decreases u
        {
          assert Held(field, u.left);
          r, u, walk := field[r].left, u.left, walk + 1;
        }
      } else {
        r := 0;
      }
    }

    /** SPLAY_MINMAX in either direction: the first or the last node comes to the root. */
    method SplayMinMax(val: int) returns (ghost rounds: nat)
      requires Linked() && tree.Node? && val != 0
      modifies this`field, this`root, this`tree
      ensures Linked() && tree.Node? && InOrder(tree) == old(InOrder(tree))
      ensures if val < 0 then tree.left.Leaf? else tree.right.Leaf?
      ensures SplayRounds(rounds, old(tree), tree, x => val)
      ensures Elsewhere(old(field), Ids(tree))
    {
      ghost var h, s := field, InOrder(tree);
      DistinctUnshared(tree);
      field := field[local := Ends(0, 0)];
      HeldKept(h, field, tree);
      var left, right := local, local;
      ghost var l, t, r: Path<()> := Top, tree, Top;
      ghost var t0, cmp: Compare := tree, x => val;
      rounds := 0;
      NothingDone(t0, cmp);
      while true
        invariant Splaying(h, left, right, l, t, r) && InOrder(Whole(l, t, r)) == s
        invariant if val < 0 then l.Top? else r.Top?
        invariant Descending(rounds, l, t, r, t0, cmp)
        decreases t
      {
        ghost var l0, t1, r0 := l, t, r;
        var done;
        done, left, right, l, t, r := OuterRound(val, left, right, h, l, t, r);
        RoundDone(rounds, done, l0, t1, r0, l, t, r, t0, cmp);
        rounds := rounds + 1;
        if done {
          break;
        }
      }
      Assemble(left, right, h, l, t, r);
    }

    /** One round; without a direction it changes nothing and is not the last. */
    method OuterRound(val: int, left: Id, right: Id, ghost h: Fields, ghost l: Path<()>, ghost t: Plain,
      ghost r: Path<()>)
      returns (done: bool, left': Id, right': Id, ghost l': Path<()>, ghost t': Plain, ghost r': Path<()>)
      requires Splaying(h, left, right, l, t, r)
      modifies this`field, this`root
      ensures Splaying(h, left', right', l', t', r') && InOrder(Whole(l', t', r')) == InOrder(Whole(l, t, r))
      ensures val != 0 ==> Round(done, l, t, r, l', t', r', x => val) && (done || t' < t)
      ensures val <= 0 ==> l' == l && (done ==> t'.left.Leaf?)
      ensures val >= 0 ==> r' == r && (done ==> t'.right.Leaf?)
      ensures val == 0 ==>
        !done && t' == t && left' == left && right' == right && root == old(root) && field == old(field)
    {
      done, left', right', l', t', r' := false, left, right, l, t, r;
      if val < 0 {
        done, right', t', r' := OuterLeft(left, right, h, l, t, r, x => val);
      } else if val > 0 {
        done, left', t', l' := OuterRight(left, right, h, l, t, r, x => val);
      }
    }

    /** One round towards the first node. */
    method OuterLeft(left: Id, right: Id, ghost h: Fields, ghost l: Path<()>, ghost t: Plain, ghost r: Path<()>,
      ghost cmp: Compare)
      returns (done: bool, right': Id, ghost t': Plain, ghost r': Path<()>)
      requires Splaying(h, left, right, l, t, r) && forall x :: cmp(x) < 0
      modifies this`field, this`root
      ensures Splaying(h, left, right', l, t', r') && InOrder(Whole(l, t', r')) == InOrder(Whole(l, t, r))
      ensures Round(done, l, t, r, l, t', r', cmp)
      ensures if done then t'.left.Leaf? else t' < t
    {
      done, right', t', r' := true, right, t, r;
      assert Held(field, t.left);
      var tmp := field[root].left;
      if tmp != 0 {
        RotateRight(tmp, h, left, right, l, t, r);
        t' := TurnedRight(t);
        assert Held(field, t'.left);
        if field[root].left != 0 {
          right' := LinkLeft(right, h, left, l, t', r);
          done, t', r' := false, t'.left, InLeft(r, (), t'.id, t'.right);
          RoundLeft(l, t, r, cmp);
        }
      }
      if done {
        RoundEnds(l, t, r, cmp);
      }
    }

    method OuterRight(left: Id, right: Id, ghost h: Fields, ghost l: Path<()>, ghost t: Plain, ghost r: Path<()>,
      ghost cmp: Compare)
      returns (done: bool, left': Id, ghost t': Plain, ghost l': Path<()>)
      requires Splaying(h, left, right, l, t, r) && forall x :: cmp(x) > 0
      modifies this`field, this`root
      ensures Splaying(h, left', right, l', t', r) && InOrder(Whole(l', t', r)) == InOrder(Whole(l, t, r))
      ensures Round(done, l, t, r, l', t', r, cmp)
      ensures if done then t'.right.Leaf? else t' < t
    {
      done, left', t', l' := true, left, t, l;
      assert Held(field, t.right);
      var tmp := field[root].right;
      if tmp != 0 {
        RotateLeft(tmp, h, left, right, l, t, r);
        t' := TurnedLeft(t);
        assert Held(field, t'.right);
        if field[root].right != 0 {
          left' := LinkRight(left, h, right, l, t', r);
          done, t', l' := false, t'.right, InRight(l, t'.left, (), t'.id);
          RoundRight(l, t, r, cmp);
        }
      }
      if done {
        RoundEnds(l, t, r, cmp);
      }
    }

    /** SPLAY_MIN and SPLAY_MAX */
    method MinMax(val: int) returns (x: Id, ghost rounds: nat)
      requires Valid() && val != 0
      modifies this`field, this`root, this`tree
      ensures Amortized(rounds, old(tree), tree, Charge(Size(tree))) && Size(tree) == old(Size(tree))
      ensures rounds == Rounds(old(tree), x => val)
      ensures Valid() && InOrder(tree) == old(InOrder(tree))
      ensures var s := InOrder(tree); x == if s == [] then 0 else if val < 0 then s[0] else s[|s| - 1]
    {
      rounds := 0;
      if root != 0 {
        rounds := SplayMinMax(val);
        SplayCost(rounds, old(tree), tree, x => val);
      }
      x := root;
    }

    lemma EndsNext(k: int, l: Path<()>, t: Plain, r: Path<()>)
      requires EndsAt(t, key, k) && OnlyRight(l) && OnlyLeft(r) && AllBelow(Before(l), key, k)
      requires AllAbove(After(r), key, k)
      ensures NextToRoot(Assembled(l, t, r), key, k)
    {
      AssembledWhole(l, t, r);
    }

    /** The keys of the middle tree are in order. */
    lemma MiddleOrder(k: int, l: Path<()>, t: Plain, r: Path<()>)
      requires OnlyRight(l) && OnlyLeft(r) && Sorted(InOrder(Whole(l, t, r)), key)
      ensures t.Node? && k < key(t.id) ==> AllAbove([t.id] + InOrder(t.right), key, k)
      ensures t.Node? && key(t.id) < k ==> AllBelow(InOrder(t.left) + [t.id], key, k)
    {
      if t.Node? {
        WholeOrder(l, t, r);
        Regrouped(Before(l), InOrder(t.left), t.id, InOrder(t.right), After(r));
        KeysAround(Before(l), InOrder(t.left), t.id, InOrder(t.right), After(r), key, k);
      }
    }

    lemma LinkAbove(k: int, l: Path<()>, t: Plain, r: Path<()>)
      requires OnlyRight(l) && OnlyLeft(r) && Sorted(InOrder(Whole(l, t, r)), key) && t.Node?
      requires AllBelow(Before(l), key, k) && AllAbove(After(r), key, k)
      ensures k < key(t.id) ==> AllAbove(After(InLeft(r, (), t.id, t.right)), key, k)
      ensures key(t.id) < k ==> AllBelow(Before(InRight(l, t.left, (), t.id)), key, k)
    {
      MiddleOrder(k, l, t, r);
      BelowParts(Before(l), InOrder(t.left) + [t.id], key, k);
      AboveParts([t.id] + InOrder(t.right), After(r), key, k);
      assert Before(l) + InOrder(t.left) + [t.id] == Before(l) + (InOrder(t.left) + [t.id]);
    }

    /** Only nodes of the middle part were written. */
    lemma OthersSame(h0: Fields, h1: Fields, h: Fields, l: Path<()>, t: Plain, r: Path<()>)
      requires Unshared(Whole(l, t, r)) && LeftSpine(h0, local, l) && RightSpine(h0, local, r)
      requires local !in Ids(Whole(l, t, r)) && local in h0
      requires forall x | x in h0 && x !in Ids(t) :: x in h1 && h1[x] == h0[x]
      ensures LeftSpine(h1, local, l) && RightSpine(h1, local, r) && local in h1
      ensures forall x | x in h0 && x !in Ids(Whole(l, t, r)) :: x in h1 && h1[x] == h0[x]
    {
      PartsApart(l, t, r);
      LeftSpineSame(h0, h1, local, l);
      RightSpineSame(h0, h1, local, r);
    }
  }
}
