/** Looking things up in a red-black tree, and putting a node whose key changed back in order. */
module RbSearch {
  import opened Sequences
  import opened BinaryTrees
  import opened RedBlackTrees
  import opened RbLinks
  import opened RbTrees

  /** RB_FIND, in no more steps than the height of the tree. */
  method Find(head: RbTree, elm: Id) returns (r: Id, ghost steps: nat)
    requires head.Valid()
    ensures steps <= Height(head.tree)
    ensures r != 0 <==> exists x | x in InOrder(head.tree) :: head.key(x) == head.key(elm)
    ensures r != 0 ==> r in InOrder(head.tree) && head.key(r) == head.key(elm)
  {
    var k := head.key(elm);
    r, steps := head.root, 0;
    ghost var p, t := Top, head.tree;
    while r != 0
      invariant head.Searching(k, p, t) && r == RootId(t) && steps == Depth(p)
      decreases t
    {
      steps := steps + 1;
      HeightAt(p, t);
      InOrderAt(p, t);
      if k == head.key(r) {
        return;
      }
      r, p, t := head.Descend(k, r, p, t);
    }
    HeightAt(p, t);
    SearchEnded(head, k, p, t);
  }

  lemma SearchEnded(head: RbTree, k: int, p: Place, t: Colored)
    requires head.Linked() && head.Searching(k, p, t) && RootId(t) == 0
    ensures t == Leaf && InOrder(head.tree) == Before(p) + After(p)
    ensures forall x | x in InOrder(head.tree) :: head.key(x) != k
  {
    HoldsAt(head.field, p, t);
    InOrderAt(p, t);
    assert InOrder(head.tree) == Before(p) + After(p);
  }

  /** Node `x` is the first one whose key is not below `k`. */
  predicate IsFirstFrom(s: seq<Id>, key: Id -> int, k: int, x: Id) {
    k <= key(x) && exists i :: 0 <= i < |s| && s[i] == x && AllBelow(s[..i], key, k)
  }

  /** RB_NFIND: the first node in order whose key is not below that of `elm`. */
  method NFind(head: RbTree, elm: Id) returns (res: Id, ghost steps: nat)
    requires head.Valid()
    ensures steps <= Height(head.tree)
    ensures res == 0 ==> AllBelow(InOrder(head.tree), head.key, head.key(elm))
    ensures res != 0 ==> IsFirstFrom(InOrder(head.tree), head.key, head.key(elm), res)
  {
    var k := head.key(elm);
    var tmp := head.root;
    ghost var p, t := Top, head.tree;
    res, steps := 0, 0;
    while tmp != 0
      invariant head.Searching(k, p, t) && tmp == RootId(t) && steps == Depth(p)
      invariant res == if After(p) == [] then 0 else After(p)[0]
      decreases t
    {
      steps := steps + 1;
      HeightAt(p, t);
      if k == head.key(tmp) {
        FirstNotBelow(head, k, p, t);
        return tmp, steps;
      }
      if k < head.key(tmp) {
        res := tmp;
      }
      tmp, p, t := head.Descend(k, tmp, p, t);
    }
    HeightAt(p, t);
    SearchEnded(head, k, p, t);
    ghost var s := InOrder(head.tree);
    if After(p) == [] {
      assert s == Before(p);
    } else {
      ghost var i := |Before(p)|;
      assert s[i] == res && s[..i] == Before(p);
      IdsNotZero(head, res);
    }
  }

  lemma IdsNotZero(head: RbTree, x: Id)
    requires head.Linked() && x in InOrder(head.tree)
    ensures x != 0 && x in head.field
  {
    IdsInOrder(head.tree, x);
    var p, t := PositionOf(Top, head.tree, x);
    HoldsAt(head.field, p, t);
  }

  lemma FirstNotBelow(head: RbTree, k: int, p: Place, t: Colored)
    requires head.Valid() && head.Searching(k, p, t) && t.Node? && head.key(t.id) == k
    ensures IsFirstFrom(InOrder(head.tree), head.key, k, t.id)
  {
    var s, a, b := InOrder(head.tree), Before(p) + InOrder(t.left), InOrder(t.right) + After(p);
    InOrderAt(p, t);
    Regrouped(Before(p), InOrder(t.left), t.id, InOrder(t.right), After(p));
    SortedParts(a, t.id, b, head.key);
    assert s[|a|] == t.id && s[..|a|] == a;
  }

  /** The first node of a subtree, by its left links. */
  method First(head: RbTree, x: Id, ghost p: Place, ghost t: Colored) returns (y: Id, ghost steps: nat)
    requires head.Linked() && head.tree == Plug(p, t) && t.Node? && t.id == x
    ensures InOrder(t) != [] && y == InOrder(t)[0]
    ensures Depth(p) + steps <= Height(head.tree)
  {
    y, steps := x, 0;
    ghost var q, u := p, t;
    HoldsAt(head.field, q, u);
    while head.field[y].left != 0
      invariant head.tree == Plug(q, u) && u.Node? && u.id == y && Holds(head.field, ParentOf(q), u)
      invariant InOrder(t) != [] && InOrder(u)[0] == InOrder(t)[0]
      invariant Depth(q) == Depth(p) + steps
      decreases u
    {
      steps := steps + 1;
      q, u := InLeft(q, u.tag, u.id, u.right), u.left;
      y := head.field[y].left;
      HoldsAt(head.field, q, u);
    }
    HeightAt(q, u);
  }

  method Last(head: RbTree, x: Id, ghost p: Place, ghost t: Colored) returns (y: Id, ghost steps: nat)
    requires head.Linked() && head.tree == Plug(p, t) && t.Node? && t.id == x
    ensures InOrder(t) != [] && y == InOrder(t)[|InOrder(t)| - 1]
    ensures Depth(p) + steps <= Height(head.tree)
  {
    y, steps := x, 0;
    ghost var q, u := p, t;
    HoldsAt(head.field, q, u);
    while head.field[y].right != 0
      invariant head.tree == Plug(q, u) && u.Node? && u.id == y && Holds(head.field, ParentOf(q), u)
      invariant InOrder(t) != [] && InOrder(u)[|InOrder(u)| - 1] == InOrder(t)[|InOrder(t)| - 1]
      invariant Depth(q) == Depth(p) + steps
      decreases u
    {
      steps := steps + 1;
      q, u := InRight(q, u.left, u.tag, u.id), u.right;
      y := head.field[y].right;
      HoldsAt(head.field, q, u);
    }
    HeightAt(q, u);
  }

  /** Climbs while the node is a right child, then once more. */
  method ClimbRight(head: RbTree, x: Id, ghost p: Place, ghost t: Colored) returns (y: Id, ghost steps: nat)
    requires head.Linked() && head.tree == Plug(p, t) && t.Node? && t.id == x
    ensures y == if After(p) == [] then 0 else After(p)[0]
    ensures steps <= Depth(p)
  {
    y, steps := x, 0;
    ghost var q, u := p, t;
    DistinctUnshared(head.tree);
    head.ParentSeen(q, u);
    while head.field[y].parent != 0 && y == head.field[head.field[y].parent].right
      invariant head.tree == Plug(q, u) && u.Node? && u.id == y && After(q) == After(p)
      invariant y in head.field && head.field[y].parent == ParentOf(q)
      invariant !q.Top? ==> q.id != 0 && q.id in head.field
      invariant steps + Depth(q) == Depth(p)
      decreases Depth(q)
    {
      steps := steps + 1;
      Sides(head, q, u);
      y := head.field[y].parent;
      q, u := q.up, Fill(q, u);
      head.ParentSeen(q, u);
    }
    y := head.field[y].parent;
    if !q.Top? {
      Above(head.field, q, u);
    }
  }

  method ClimbLeft(head: RbTree, x: Id, ghost p: Place, ghost t: Colored) returns (y: Id, ghost steps: nat)
    requires head.Linked() && head.tree == Plug(p, t) && t.Node? && t.id == x
    ensures y == if Before(p) == [] then 0 else Before(p)[|Before(p)| - 1]
    ensures steps <= Depth(p)
  {
    y, steps := x, 0;
    ghost var q, u := p, t;
    DistinctUnshared(head.tree);
    head.ParentSeen(q, u);
    while head.field[y].parent != 0 && y == head.field[head.field[y].parent].left
      invariant head.tree == Plug(q, u) && u.Node? && u.id == y && Before(q) == Before(p)
      invariant y in head.field && head.field[y].parent == ParentOf(q)
      invariant !q.Top? ==> q.id != 0 && q.id in head.field
      invariant steps + Depth(q) == Depth(p)
      decreases Depth(q)
    {
      steps := steps + 1;
      Sides(head, q, u);
      y := head.field[y].parent;
      q, u := q.up, Fill(q, u);
      head.ParentSeen(q, u);
    }
    y := head.field[y].parent;
    if !q.Top? {
      Above(head.field, q, u);
    }
  }

  /** Only the child on one side is reached by the link on that side. */
  lemma Sides(head: RbTree, p: Place, t: Colored)
    requires head.Linked() && head.tree == Plug(p, t) && t.Node? && !p.Top?
    ensures p.id in head.field
    ensures head.field[p.id].left == t.id <==> p.InLeft?
    ensures head.field[p.id].right == t.id <==> p.InRight?
  {
    DistinctUnshared(head.tree);
    UnsharedAt(p, t);
    Above(head.field, p, t);
    if p.InLeft? && p.right.Node? {
      assert p.right.id in PathIds(p);
    }
  }

  /** RB_NEXT */
  method Next(head: RbTree, elm: Id) returns (r: Id, ghost steps: nat)
    requires head.Linked() && elm in Ids(head.tree)
    ensures Follows(InOrder(head.tree), elm, r)
    ensures steps <= Height(head.tree)
  {
    steps := 0;
    ghost var p, t := PositionOf(Top, head.tree, elm);
    HeightAt(p, t);
    Located(head, p, t);
    ghost var b := InOrder(t.right) + After(p);
    if head.field[elm].right != 0 {
      r, steps := First(head, head.field[elm].right, InRight(p, t.left, t.tag, t.id), t.right);
    } else {
      var parent := head.field[elm].parent;
      if !p.Top? {
        Sides(head, p, t);
      }
      if parent != 0 && elm == head.field[parent].left {
        r := parent;
      } else {
        r, steps := ClimbRight(head, elm, p, t);
      }
    }
    FollowsHere(Before(p) + InOrder(t.left), elm, b, r);
  }

  /** RB_PREV */
  method Prev(head: RbTree, elm: Id) returns (r: Id, ghost steps: nat)
    requires head.Linked() && elm in Ids(head.tree)
    ensures Precedes(InOrder(head.tree), elm, r)
    ensures steps <= Height(head.tree)
  {
    steps := 0;
    ghost var p, t := PositionOf(Top, head.tree, elm);
    HeightAt(p, t);
    Located(head, p, t);
    ghost var a := Before(p) + InOrder(t.left);
    if head.field[elm].left != 0 {
      r, steps := Last(head, head.field[elm].left, InLeft(p, t.tag, t.id, t.right), t.left);
    } else {
      var parent := head.field[elm].parent;
      if !p.Top? {
        Sides(head, p, t);
      }
      if parent != 0 && elm == head.field[parent].right {
        r := parent;
      } else {
        r, steps := ClimbLeft(head, elm, p, t);
      }
    }
    PrecedesHere(a, elm, InOrder(t.right) + After(p), r);
  }

  lemma Located(head: RbTree, p: Place, t: Colored)
    requires head.Linked() && head.tree == Plug(p, t) && t.Node?
    ensures t.id in head.field
    ensures head.field[t.id] == Entry(RootId(t.left), RootId(t.right), ParentOf(p), t.tag)
    ensures t.left.Node? ==> t.left.id != 0
    ensures t.right.Node? ==> t.right.id != 0
    ensures !p.Top? ==> p.id != 0
    ensures InOrder(head.tree) == (Before(p) + InOrder(t.left)) + [t.id] + (InOrder(t.right) + After(p))
  {
    HoldsAt(head.field, p, t);
    assert Holds(head.field, t.id, t.left) && Holds(head.field, t.id, t.right);
    InOrderAt(p, t);
    Regrouped(Before(p), InOrder(t.left), t.id, InOrder(t.right), After(p));
  }

  /** RB_MINMAX: the first node for a negative `val`, the last one otherwise; 0 for an empty tree. */
  method MinMax(head: RbTree, val: int) returns (r: Id, ghost steps: nat)
    requires head.Linked()
    ensures var s := InOrder(head.tree); r == if s == [] then 0 else if val < 0 then s[0] else s[|s| - 1]
    ensures steps <= Height(head.tree)
  {
    var tmp := head.root;
    r, steps := 0, 0;
    ghost var p, t := Top, head.tree;
    while tmp != 0
      invariant head.tree == Plug(p, t) && tmp == RootId(t) && r == ParentOf(p) && Holds(head.field, ParentOf(p), t)
      invariant val < 0 ==> Before(p) == [] && r == if After(p) == [] then 0 else After(p)[0]
      invariant val >= 0 ==> After(p) == [] && r == if Before(p) == [] then 0 else Before(p)[|Before(p)| - 1]
      invariant steps == Depth(p)
      decreases t
    {
      steps := steps + 1;
      r := tmp;
      if val < 0 {
        tmp, p, t := head.field[tmp].left, InLeft(p, t.tag, t.id, t.right), t.left;
      } else {
        tmp, p, t := head.field[tmp].right, InRight(p, t.left, t.tag, t.id), t.right;
      }
      HoldsAt(head.field, p, t);
    }
    HeightAt(p, t);
    InOrderAt(p, t);
    assert InOrder(head.tree) == Before(p) + After(p);
  }

  /** RB_FOREACH visits every node once, in order. */
  method ForEach(head: RbTree) returns (visited: seq<Id>)
    requires head.Linked()
    ensures visited == InOrder(head.tree)
  {
    visited := [];
    ghost var s := InOrder(head.tree);
    var x, n := MinMax(head, -1);
    while x != 0
      invariant visited <= s && x == if |visited| < |s| then s[|visited|] else 0
      decreases |s| - |visited|
    {
      visited := visited + [x];
      IdsInOrder(head.tree, x);
      x, n := Next(head, x);
    }
    if |visited| < |s| {
      IdsNotZero(head, s[|visited|]);
    }
  }

  /** RB_REINSERT: after the key of one node changed, the tree is in order again, with that node or, when
      another one has its key, without it. */
  method Reinsert(head: RbTree, elm: Id, ghost a: seq<Id>, ghost b: seq<Id>) returns (found: Id)
    requires head.Linked() && IsRedBlackTree(head.tree) && elm in Ids(head.tree)
    requires InOrder(head.tree) == a + [elm] + b && Sorted(a + b, head.key)
    modifies head`field, head`root, head`tree
    ensures head.Valid()
    ensures found != 0 <==> exists x | x in a + b :: head.key(x) == head.key(elm)
    ensures found != 0 ==> found in a + b && head.key(found) == head.key(elm) && InOrder(head.tree) == a + b
    ensures found == 0 ==> multiset(InOrder(head.tree)) == multiset(a + [elm] + b)
  {
    IdsInOrder(head.tree, elm);
    IdsNotZero(head, elm);
    var prev, _ := Prev(head, elm);
    var next, _ := Next(head, elm);
    Neighbours(a, elm, b, prev, next);
    forall x | x in a + b
      ensures x != 0
    {
      assert x in InOrder(head.tree);
      IdsNotZero(head, x);
    }
    if (prev != 0 && head.key(prev) >= head.key(elm)) || (next != 0 && head.key(elm) >= head.key(next)) {
      ghost var s := InOrder(head.tree);
      var _, _ := head.Remove(elm);
      ghost var n;
      assert exists c: seq<Id>, d: seq<Id> :: s == c + [elm] + d && InOrder(head.tree) == c + d;
      SameParts(a, elm, b, InOrder(head.tree));
      found, n := head.Insert(elm);
      if found == 0 {
        AddedBack(a, elm, b, InOrder(head.tree));
      }
    } else {
      InOrderAgain(a, elm, b, head.key);
      found := 0;
    }
  }

  lemma Neighbours(a: seq<Id>, x: Id, b: seq<Id>, prev: Id, next: Id)
    requires Distinct(a + [x] + b) && Precedes(a + [x] + b, x, prev) && Follows(a + [x] + b, x, next)
    ensures prev == if a == [] then 0 else a[|a| - 1]
    ensures next == if b == [] then 0 else b[0]
    ensures a != [] ==> prev in a + b
    ensures b != [] ==> next in a + b
  {
    var s := a + [x] + b;
    assert s[|a|] == x;
    assert forall i | 0 <= i < |s| && s[i] == x :: i == |a|;
    assert a != [] ==> s[|a| - 1] == a[|a| - 1];
    assert b != [] ==> s[|a| + 1] == b[0];
  }

  /** A sequence without repetitions splits at an element in one way only. */
  lemma SameParts(a: seq<Id>, x: Id, b: seq<Id>, s: seq<Id>)
    requires Distinct(a + [x] + b) && exists c: seq<Id>, d: seq<Id> :: a + [x] + b == c + [x] + d && s == c + d
    ensures s == a + b
  {
    var c: seq<Id>, d: seq<Id> :| a + [x] + b == c + [x] + d && s == c + d;
    var u := a + [x] + b;
    assert u[|a|] == x;
    assert (c + [x] + d)[|c|] == x;
    assert |a| == |c|;
    assert a == u[..|a|] == c && b == u[|a| + 1..] == d;
  }

  lemma AddedBack(a: seq<Id>, x: Id, b: seq<Id>, s: seq<Id>)
    requires exists c: seq<Id>, d: seq<Id> :: a + b == c + d && s == c + [x] + d
    ensures multiset(s) == multiset(a + [x] + b)
  {
    var c: seq<Id>, d: seq<Id> :| a + b == c + d && s == c + [x] + d;
    var one: seq<Id> := [x];
    assert multiset(c + d) == multiset(c) + multiset(d);
    assert multiset(a + b) == multiset(a) + multiset(b);
    assert a + [x] + b == (a + one) + b && s == (c + one) + d;
    assert multiset(a + [x] + b) == multiset(a) + multiset(one) + multiset(b);
    assert multiset(s) == multiset(c) + multiset(one) + multiset(d);
  }

  lemma InOrderAgain(a: seq<Id>, x: Id, b: seq<Id>, key: Id -> int)
    requires Sorted(a + b, key) && (a != [] ==> key(a[|a| - 1]) < key(x)) && (b != [] ==> key(x) < key(b[0]))
    ensures Sorted(a + [x] + b, key) && forall y | y in a + b :: key(y) != key(x)
  {
    var u := a + b;
    forall i | 0 <= i < |a|
      ensures key(a[i]) < key(x)
    {
      assert u[i] == a[i] && u[|a| - 1] == a[|a| - 1];
    }
    forall i | 0 <= i < |b|
      ensures key(x) < key(b[i])
    {
      assert u[|a| + i] == b[i] && u[|a|] == b[0];
    }
    SortedWith(a, x, b, key);
  }
}
