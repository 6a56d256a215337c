/** How the link fields of red-black nodes hold a tree. */
module RbLinks {
  import opened BinaryTrees
  import opened RedBlackTrees

  /** RB_ENTRY of a node. */
  datatype Entry = Entry(left: Id, right: Id, parent: Id, color: Color)

  type Fields = map<Id, Entry>

  /** The nodes of `t` are linked as `t` says, below node `parent`. */
  predicate Holds(h: Fields, parent: Id, t: Colored)
    decreases t
  {
    t.Node? ==>
      && t.id != 0 && t.id in h && h[t.id] == Entry(RootId(t.left), RootId(t.right), parent, t.tag)
      && Holds(h, t.id, t.left) && Holds(h, t.id, t.right)
  }

  lemma {:induction false} HoldsKept(h: Fields, h': Fields, parent: Id, t: Colored)
    requires Holds(h, parent, t) && forall x | x in Ids(t) && x in h :: x in h' && h'[x] == h[x]
    ensures Holds(h', parent, t)
    decreases t
  {
    if t.Node? {
      HoldsKept(h, h', t.id, t.left);
      HoldsKept(h, h', t.id, t.right);
    }
  }

  /** A subtree moved below another parent. */
  lemma HoldsBelow(h: Fields, h': Fields, parent: Id, parent': Id, t: Colored)
    requires Holds(h, parent, t) && Unshared(t)
    requires forall x | x in Ids(t) && x != RootId(t) && x in h :: x in h' && h'[x] == h[x]
    requires t.Node? ==> t.id in h && t.id in h' && h'[t.id] == h[t.id].(parent := parent')
    ensures Holds(h', parent', t)
  {
    if t.Node? {
      HoldsKept(h, h', t.id, t.left);
      HoldsKept(h, h', t.id, t.right);
    }
  }

  lemma {:induction false} HoldsAt(h: Fields, p: Place, t: Colored)
    requires Holds(h, 0, Plug(p, t))
    ensures Holds(h, ParentOf(p), t)
    ensures !p.Top? ==> p.id != 0 && p.id in h && h[p.id].color == p.tag && h[p.id].parent == ParentOf(p.up)
    ensures p.InLeft? ==> h[p.id].left == RootId(t) && h[p.id].right == RootId(p.right) && Holds(h, p.id, p.right)
    ensures p.InRight? ==> h[p.id].right == RootId(t) && h[p.id].left == RootId(p.left) && Holds(h, p.id, p.left)
  {
    match p
    case Top =>
    case InLeft(up, c, x, r) => HoldsAt(h, up, Node(c, t, x, r));
    case InRight(up, l, c, x) => HoldsAt(h, up, Node(c, l, x, t));
  }

  /** The link of the node above position `p` leads to `x`. */
  function Pointed(e: Entry, p: Place, x: Id): Entry {
    if p.InLeft? then e.(left := x) else e.(right := x)
  }

  /** The nodes around position `p` are as before, but for the link that leads to the position. */
  predicate OnlyHere(h: Fields, h': Fields, p: Place, x: Id) {
    && (!p.Top? ==> p.id in h && p.id in h' && h'[p.id] == Pointed(h[p.id], p, x))
    && forall y | y in PathIds(p) && y != ParentOf(p) && y in h :: y in h' && h'[y] == h[y]
  }

  /** The nodes around a position are linked as `p` says, and the link to the position leads to `x`. */
  predicate HoldsPath(h: Fields, p: Place, x: Id)
    decreases p
  {
    !p.Top? ==>
      && p.id != 0 && p.id in h && Holds(h, p.id, Sibling(p)) && HoldsPath(h, p.up, p.id)
      && h[p.id].parent == ParentOf(p.up) && h[p.id].color == p.tag
      && (p.InLeft? ==> h[p.id].left == x && h[p.id].right == RootId(Sibling(p)))
      && (p.InRight? ==> h[p.id].right == x && h[p.id].left == RootId(Sibling(p)))
  }

  lemma {:induction false} HoldsSplit(h: Fields, p: Place, t: Colored)
    ensures Holds(h, 0, Plug(p, t)) <==> HoldsPath(h, p, RootId(t)) && Holds(h, ParentOf(p), t)
    decreases p
  {
    if !p.Top? {
      HoldsSplit(h, p.up, Fill(p, t));
    }
  }

  lemma {:induction false} PathKept(h: Fields, h': Fields, p: Place, t: Colored, x: Id, x': Id)
    requires HoldsPath(h, p, x) && Unshared(Plug(p, t)) && OnlyHere(h, h', p, x')
    ensures HoldsPath(h', p, x')
    decreases p
  {
    if !p.Top? {
      UnsharedAt(p.up, Fill(p, t));
      HoldsKept(h, h', p.id, Sibling(p));
      PathKept(h, h', p.up, Fill(p, t), p.id, p.id);
    }
  }

  /** Replacing the subtree at a position and the one link to it replaces it in the whole tree. */
  lemma Replaced(h: Fields, h': Fields, p: Place, t: Colored, t': Colored)
    requires Holds(h, 0, Plug(p, t)) && Unshared(Plug(p, t))
    requires OnlyHere(h, h', p, RootId(t')) && Holds(h', ParentOf(p), t')
    ensures Holds(h', 0, Plug(p, t'))
  {
    HoldsSplit(h, p, t);
    PathKept(h, h', p, t, RootId(t), RootId(t'));
    HoldsSplit(h', p, t');
  }

  /** What the links show of the node above a position. */
  lemma Above(h: Fields, p: Place, t: Colored)
    requires Holds(h, 0, Plug(p, t)) && Unshared(Plug(p, t)) && !p.Top?
    ensures p.id != 0 && p.id in h && h[p.id].color == p.tag && h[p.id].parent == ParentOf(p.up)
    ensures Holds(h, p.id, t) && Holds(h, p.id, Sibling(p))
    ensures p.InLeft? ==> h[p.id].left == RootId(t) && h[p.id].right == RootId(Sibling(p))
    ensures p.InRight? ==> h[p.id].right == RootId(t) && h[p.id].left == RootId(Sibling(p))
    ensures p.InRight? && (t.Node? || Sibling(p).Node?) ==> h[p.id].left != RootId(t)
  {
    HoldsAt(h, p, t);
    UnsharedAt(p, t);
    if p.InRight? && p.left.Node? {
      assert p.left.id in PathIds(p);
    }
  }

  // ----- one node changes colour

  lemma Recolored(h: Fields, p: Place, t: Colored, c: Color)
    requires Holds(h, 0, Plug(p, t)) && Unshared(Plug(p, t)) && t.Node?
    ensures t.id in h && Holds(h[t.id := h[t.id].(color := c)], 0, Plug(p, Painted(t, c)))
  {
    HoldsAt(h, p, t);
    UnsharedAt(p, t);
    var h' := h[t.id := h[t.id].(color := c)];
    HoldsKept(h, h', t.id, t.left);
    HoldsKept(h, h', t.id, t.right);
    Replaced(h, h', p, t, Painted(t, c));
  }

  // ----- rotations

  function TurnedLeft(t: Colored): Colored
    requires t.Node? && t.right.Node?
  {
    var r := t.right;
    Node(r.tag, Node(t.tag, t.left, t.id, r.left), r.id, r.right)
  }

  function TurnedRight(t: Colored): Colored
    requires t.Node? && t.left.Node?
  {
    var l := t.left;
    Node(l.tag, l.left, l.id, Node(t.tag, l.right, t.id, t.right))
  }

  /** What RB_ROTATE_LEFT writes: the two nodes that turn, the subtree that changes sides, the link from above. */
  predicate WrittenLeft(h: Fields, h': Fields, p: Place, t: Colored)
    requires t.Node? && t.right.Node?
  {
    var r := t.right;
    && r.id in h' && h'[r.id] == Entry(t.id, RootId(r.right), ParentOf(p), r.tag)
    && t.id in h' && h'[t.id] == Entry(RootId(t.left), RootId(r.left), r.id, t.tag)
    && (r.left.Node? ==> r.left.id in h && r.left.id in h' && h'[r.left.id] == h[r.left.id].(parent := t.id))
    && OnlyHere(h, h', p, r.id)
    && forall x | x in Ids(t) && x in h && x !in {t.id, r.id} && !(r.left.Node? && x == r.left.id) ::
       x in h' && h'[x] == h[x]
  }

  /** The nodes that a rotation writes are different ones. */
  lemma TurnsApart(h: Fields, p: Place, t: Colored, r: Colored, b: Colored)
    requires Holds(h, 0, Plug(p, t)) && Unshared(Plug(p, t)) && t.Node? && r.Node?
    requires (t.right == r && r.left == b) || (t.left == r && r.right == b)
    ensures t.id in Ids(t) && r.id in Ids(t) && (b.Node? ==> b.id in Ids(t))
    ensures t.id != r.id && (b.Node? ==> b.id != t.id && b.id != r.id)
    ensures !p.Top? ==> p.id != t.id && p.id != r.id && (b.Node? ==> b.id != p.id)
    ensures forall y | y in PathIds(p) :: y !in Ids(t)
    ensures t.id in h && h[t.id] == Entry(RootId(t.left), RootId(t.right), ParentOf(p), t.tag) && t.id != 0
    ensures r.id in h && h[r.id] == Entry(RootId(r.left), RootId(r.right), t.id, r.tag) && r.id != 0
    ensures b.Node? ==> b.id in h && b.id != 0
    ensures !p.Top? ==> p.id in h && p.id != 0 && t.id == if p.InLeft? then h[p.id].left else h[p.id].right
    ensures p.InRight? ==> h[p.id].left != t.id
  {
    HoldsAt(h, p, t);
    UnsharedAt(p, t);
    assert Holds(h, t.id, r) && Holds(h, r.id, b);
    assert b.Node? ==> b.id in Ids(b) && b.id in Ids(r);
    assert r.id in Ids(r) && r.id in Ids(t);
    assert !p.Top? ==> p.id in PathIds(p);
    assert p.InRight? && p.left.Node? ==> p.left.id in PathIds(p);
  }

  /** The writes of RB_ROTATE_LEFT one after the other. */
  predicate WritesLeft(h: Fields, h1: Fields, h2: Fields, h3: Fields, h4: Fields, h5: Fields, p: Place, t: Colored)
    requires t.Node? && t.right.Node?
  {
    var x, r, b := t.id, t.right.id, t.right.left;
    && x in h && h1 == h[x := h[x].(right := RootId(b))]
    && h2 == (if b.Leaf? then h1 else if b.id in h1 then h1[b.id := h1[b.id].(parent := x)] else h1)
    && r in h2 && h3 == h2[r := h2[r].(parent := ParentOf(p))]
    && h4 == (if p.Top? then h3 else if p.id in h3 then h3[p.id := Pointed(h3[p.id], p, r)] else h3)
    && r in h4 && h5 == h4[r := h4[r].(left := x)] && x in h5
  }

  lemma WritesLeftTurn(h: Fields, h1: Fields, h2: Fields, h3: Fields, h4: Fields, h5: Fields, p: Place, t: Colored)
    requires Holds(h, 0, Plug(p, t)) && Unshared(Plug(p, t)) && t.Node? && t.right.Node?
    requires WritesLeft(h, h1, h2, h3, h4, h5, p, t)
    ensures WrittenLeft(h, h5[t.id := h5[t.id].(parent := t.right.id)], p, t)
  {
    TurnsApart(h, p, t, t.right, t.right.left);
  }

  predicate WritesRight(h: Fields, h1: Fields, h2: Fields, h3: Fields, h4: Fields, h5: Fields, p: Place, t: Colored)
    requires t.Node? && t.left.Node?
  {
    var x, l, b := t.id, t.left.id, t.left.right;
    && x in h && h1 == h[x := h[x].(left := RootId(b))]
    && h2 == (if b.Leaf? then h1 else if b.id in h1 then h1[b.id := h1[b.id].(parent := x)] else h1)
    && l in h2 && h3 == h2[l := h2[l].(parent := ParentOf(p))]
    && h4 == (if p.Top? then h3 else if p.id in h3 then h3[p.id := Pointed(h3[p.id], p, l)] else h3)
    && l in h4 && h5 == h4[l := h4[l].(right := x)] && x in h5
  }

  lemma WritesRightTurn(h: Fields, h1: Fields, h2: Fields, h3: Fields, h4: Fields, h5: Fields, p: Place, t: Colored)
    requires Holds(h, 0, Plug(p, t)) && Unshared(Plug(p, t)) && t.Node? && t.left.Node?
    requires WritesRight(h, h1, h2, h3, h4, h5, p, t)
    ensures WrittenRight(h, h5[t.id := h5[t.id].(parent := t.left.id)], p, t)
  {
    TurnsApart(h, p, t, t.left, t.left.right);
  }

  lemma RotatedLeft(h: Fields, h': Fields, p: Place, t: Colored)
    requires Holds(h, 0, Plug(p, t)) && Unshared(Plug(p, t)) && t.Node? && t.right.Node?
    requires WrittenLeft(h, h', p, t)
    ensures Holds(h', 0, Plug(p, TurnedLeft(t)))
  {
    HoldsAt(h, p, t);
    UnsharedAt(p, t);
    var r := t.right;
    HoldsKept(h, h', t.id, t.left);
    HoldsBelow(h, h', r.id, t.id, r.left);
    HoldsKept(h, h', r.id, r.right);
    Replaced(h, h', p, t, TurnedLeft(t));
  }

  predicate WrittenRight(h: Fields, h': Fields, p: Place, t: Colored)
    requires t.Node? && t.left.Node?
  {
    var l := t.left;
    && l.id in h' && h'[l.id] == Entry(RootId(l.left), t.id, ParentOf(p), l.tag)
    && t.id in h' && h'[t.id] == Entry(RootId(l.right), RootId(t.right), l.id, t.tag)
    && (l.right.Node? ==> l.right.id in h && l.right.id in h' && h'[l.right.id] == h[l.right.id].(parent := t.id))
    && OnlyHere(h, h', p, l.id)
    && forall x | x in Ids(t) && x in h && x !in {t.id, l.id} && !(l.right.Node? && x == l.right.id) ::
       x in h' && h'[x] == h[x]
  }

  lemma RotatedRight(h: Fields, h': Fields, p: Place, t: Colored)
    requires Holds(h, 0, Plug(p, t)) && Unshared(Plug(p, t)) && t.Node? && t.left.Node?
    requires WrittenRight(h, h', p, t)
    ensures Holds(h', 0, Plug(p, TurnedRight(t)))
  {
    HoldsAt(h, p, t);
    UnsharedAt(p, t);
    var l := t.left;
    HoldsKept(h, h', t.id, t.right);
    HoldsBelow(h, h', l.id, t.id, l.right);
    HoldsKept(h, h', l.id, l.left);
    Replaced(h, h', p, t, TurnedRight(t));
  }

  // ----- a new leaf

  /** The node `x`, hung at an empty position. */
  lemma Hung(h: Fields, h': Fields, p: Place, x: Id)
    requires Holds(h, 0, Plug(p, Leaf)) && Unshared(Plug(p, Leaf)) && x != 0 && x !in PathIds(p)
    requires x in h' && h'[x] == Entry(0, 0, ParentOf(p), Red)
    requires OnlyHere(h, h', p, x)
    ensures Holds(h', 0, Plug(p, Node(Red, Leaf, x, Leaf)))
  {
    Replaced(h, h', p, Leaf, Node(Red, Leaf, x, Leaf));
  }

  // ----- taking a node out

  /** The nodes on the way down from `base`, when the node above them becomes `m`: the topmost has a new
      parent, the last a new left link. */
  predicate FringeWritten(h: Fields, h': Fields, q: Place, base: Place, m: Id, z: Id)
    requires Extends(q, base)
  {
    forall y | y in PathIds(q) && y !in PathIds(base) && y in h ::
      && y in h'
      && h'[y].left == (if y == q.id then z else h[y].left) && h'[y].right == h[y].right && h'[y].color == h[y].color
      && h'[y].parent == if q != base && y == TopId(q, base) then m else h[y].parent
  }

  lemma {:induction false} TopInPath(q: Place, base: Place)
    requires Extends(q, base) && q != base
    ensures TopId(q, base) in PathIds(q) && PathIds(base) <= PathIds(q)
    decreases q
  {
    if q.up != base {
      TopInPath(q.up, base);
    }
  }

  lemma {:induction false} FringeHolds(h: Fields, h': Fields, q: Place, base: Place, base': Place, t: Colored, z: Id,
      z': Id)
    requires Extends(q, base) && base.InRight? && base' == InRight(base.up, base.left, base.tag, ParentOf(base'))
    requires HoldsPath(h, q, z) && Unshared(Plug(q, t)) && FringeWritten(h, h', q, base, ParentOf(base'), z')
    requires HoldsPath(h', base', if q == base then z' else TopId(q, base))
    ensures HoldsPath(h', Rebased(q, base, base'), z')
    decreases q
  {
    if q != base {
      var up, y := q.up, q.id;
      UnsharedAt(up, Fill(q, t));
      TopInPath(q, base);
      if up != base {
        TopInPath(up, base);
      }
      assert y !in PathIds(up) && forall o | o in Ids(q.right) :: o !in PathIds(up) && o != y;
      HoldsKept(h, h', y, q.right);
      assert FringeWritten(h, h', up, base, ParentOf(base'), y);
      FringeHolds(h, h', up, base, base', Fill(q, t), y, y);
    }
  }

  /** A node without a left or without a right child gives its place to the other child. */
  lemma PassedUp(h: Fields, h': Fields, p: Place, t: Colored, u: Colored)
    requires Holds(h, 0, Plug(p, t)) && Unshared(Plug(p, t)) && t.Node?
    requires (t.left.Leaf? && u == t.right) || (t.right.Leaf? && u == t.left)
    requires OnlyHere(h, h', p, RootId(u)) && forall y | y in Ids(t) && y in h :: y in h' && h'[y] == h[y]
    ensures HoldsPath(h', p, RootId(u)) && Holds(h', t.id, u)
  {
    HoldsSplit(h, p, t);
    PathKept(h, h', p, t, RootId(t), RootId(u));
    HoldsKept(h, h', t.id, u);
  }

  lemma {:induction false} FringeApart(q: Place, base: Place, t: Colored)
    requires Extends(q, base) && Unshared(Plug(q, t)) && q != base
    ensures q.id in PathIds(q) && q.id !in PathIds(base)
    ensures TopId(q, base) in PathIds(q) && TopId(q, base) !in PathIds(base) && PathIds(base) <= PathIds(q)
    decreases q
  {
    UnsharedAt(q.up, Fill(q, t));
    TopInPath(q, base);
    if q.up != base {
      FringeApart(q.up, base, Fill(q, t));
    }
  }

  /** The next node in order, `m`, and what is known of its position. */
  predicate IsNext(p: Place, t: Colored, q: Place, c: Color, m: Id, u: Colored) {
    && t.Node? && t.left.Node? && t.right.Node? && Extends(q, InRight(p, t.left, t.tag, t.id))
    && Plug(q, Node(c, Leaf, m, u)) == Plug(p, t)
    && if q == InRight(p, t.left, t.tag, t.id) then m == t.right.id
       else TopId(q, InRight(p, t.left, t.tag, t.id)) == t.right.id && m != t.right.id
  }

  /** The nodes that RB_REMOVE writes for a node with two children are different ones. */
  lemma CutLinks(h: Fields, p: Place, t: Colored, q: Place, c: Color, m: Id, u: Colored)
    requires IsNext(p, t, q, c, m, u) && Holds(h, 0, Plug(p, t))
    ensures t.id in h && h[t.id] == Entry(t.left.id, t.right.id, ParentOf(p), t.tag) && t.id != 0
    ensures m in h && h[m] == Entry(0, RootId(u), ParentOf(q), c) && t.left.id in h && t.right.id in h
    ensures q.id in h && q.id != 0
    ensures !p.Top? ==> p.id in h && p.id != 0
  {
    HoldsAt(h, q, Node(c, Leaf, m, u));
    HoldsAt(h, p, t);
    assert Holds(h, t.id, t.left) && Holds(h, t.id, t.right);
  }

  lemma CutPaths(p: Place, t: Colored, q: Place, c: Color, m: Id, u: Colored)
    requires IsNext(p, t, q, c, m, u) && Unshared(Plug(p, t))
    ensures m !in PathIds(q) && PathIds(p) <= PathIds(q) && Ids(t.left) <= PathIds(q) && t.id in PathIds(q)
    ensures Ids(u) !! PathIds(q) && m !in Ids(u)
    ensures q == InRight(p, t.left, t.tag, t.id) ==> q.id == t.id
    ensures q != InRight(p, t.left, t.tag, t.id) ==>
      && q.InLeft? && q.id in PathIds(q) && q.id !in PathIds(InRight(p, t.left, t.tag, t.id))
      && t.right.id in PathIds(q) && t.right.id !in PathIds(InRight(p, t.left, t.tag, t.id))
  {
    UnsharedAt(q, Node(c, Leaf, m, u));
    if q != InRight(p, t.left, t.tag, t.id) {
      FringeApart(q, InRight(p, t.left, t.tag, t.id), Node(c, Leaf, m, u));
    }
  }

  lemma CutAbove(p: Place, t: Colored)
    requires t.Node? && Unshared(Plug(p, t))
    ensures PathIds(InRight(p, t.left, t.tag, t.id)) == PathIds(p) + {t.id} + Ids(t.left)
    ensures t.id !in PathIds(p) && t.id !in Ids(t.left) && Ids(t.left) !! PathIds(p)
    ensures t.left.Node? ==> t.left.id in Ids(t.left)
    ensures !p.Top? ==> p.id in PathIds(p)
  {
    UnsharedAt(p, t);
  }

  /** Whether the fields were written so that node `m` replaces node `t.id` and `u` replaces `m`. */
  predicate Succeeds(h: Fields, h': Fields, p: Place, t: Colored, q: Place, m: Id, u: Colored)
    requires t.Node? && t.right.Node? && Extends(q, InRight(p, t.left, t.tag, t.id))
  {
    var base := InRight(p, t.left, t.tag, t.id);
    && m in h' && h'[m] == Entry(RootId(t.left), if q == base then RootId(u) else t.right.id, ParentOf(p), t.tag)
    && (t.left.Node? ==> t.left.id in h && t.left.id in h' && h'[t.left.id] == h[t.left.id].(parent := m))
    && (forall y | y in Ids(t.left) && y in h && y != RootId(t.left) :: y in h' && h'[y] == h[y])
    && (forall y | y in Ids(u) && y in h :: y in h' && h'[y] == h[y])
    && FringeWritten(h, h', q, base, m, RootId(u)) && OnlyHere(h, h', p, m)
  }

  lemma NextApart(h: Fields, p: Place, t: Colored, q: Place, c: Color, m: Id, u: Colored)
    requires IsNext(p, t, q, c, m, u) && Holds(h, 0, Plug(p, t)) && Unshared(Plug(p, t))
    ensures m != t.id && t.left.id != t.id && t.left.id != m && t.left.id != t.right.id && t.right.id != t.id
    ensures q != InRight(p, t.left, t.tag, t.id) ==> q.id != t.id && q.id != m && q.id != t.left.id && t.right.id != m
    ensures !p.Top? ==>
      && p.id !in {t.id, m, t.left.id, t.right.id, if q == InRight(p, t.left, t.tag, t.id) then t.id else q.id}
      && p.id in h && p.id != 0 && (h[p.id].left == t.id <==> p.InLeft?)
  {
    CutPaths(p, t, q, c, m, u);
    CutAbove(p, t);
    UnsharedAt(p, t);
    assert t.right.id in Ids(t.right) && t.left.id in Ids(t.left);
    if !p.Top? {
      Above(h, p, t);
      assert t.right.id in Ids(t) && t.left.id in Ids(t);
    }
  }

  /** The writes of RB_REMOVE that put `m` in the place of `t.id`, from the one that unhooks `m` on. */
  predicate NextWrites(h: Fields, h1: Fields, h2: Fields, h3: Fields, h': Fields, p: Place, t: Colored, q: Place,
    m: Id, u: Colored)
    requires t.Node? && t.left.Node? && t.right.Node? && Extends(q, InRight(p, t.left, t.tag, t.id))
  {
    && (q == InRight(p, t.left, t.tag, t.id) ==> t.id in h && h1 == h[t.id := h[t.id].(right := RootId(u))])
    && (q != InRight(p, t.left, t.tag, t.id) ==>
      && q.id in h && t.right.id in h
      && (var g := h[q.id := h[q.id].(left := RootId(u))]; h1 == g[t.right.id := g[t.right.id].(parent := m)]))
    && t.left.id in h1 && h2 == h1[t.left.id := h1[t.left.id].(parent := m)]
    && t.id in h2 && h3 == h2[m := h2[t.id]]
    && h' == if p.Top? then h3 else if p.id in h3 then h3[p.id := Pointed(h3[p.id], p, m)] else h3
  }

  /** Which nodes those writes leave as they were, and what becomes of the others. */
  lemma NextFrame(h: Fields, h1: Fields, h2: Fields, h3: Fields, h': Fields, p: Place, t: Colored, q: Place, c: Color,
    m: Id, u: Colored)
    requires IsNext(p, t, q, c, m, u) && Holds(h, 0, Plug(p, t)) && Unshared(Plug(p, t))
    requires NextWrites(h, h1, h2, h3, h', p, t, q, m, u)
    ensures forall y | y in h && y !in {m, t.id, t.left.id, t.right.id, q.id, ParentOf(p)} ::
      y in h' && h'[y] == h[y]
    ensures !p.Top? ==> p.id in h && p.id in h' && h'[p.id] == Pointed(h[p.id], p, m)
    ensures m in h' && h'[m] == Entry(t.left.id,
      if q == InRight(p, t.left, t.tag, t.id) then RootId(u) else t.right.id, ParentOf(p), t.tag)
    ensures t.left.id in h && t.left.id in h' && h'[t.left.id] == h[t.left.id].(parent := m)
  {
    CutLinks(h, p, t, q, c, m, u);
    NextApart(h, p, t, q, c, m, u);
  }

  /** Between the place of `t` and the one of `m`, one node loses `m` and one gets it for a parent. */
  lemma NextFringe(h: Fields, h1: Fields, h2: Fields, h3: Fields, h': Fields, p: Place, t: Colored, q: Place, c: Color,
    m: Id, u: Colored)
    requires IsNext(p, t, q, c, m, u) && Holds(h, 0, Plug(p, t)) && Unshared(Plug(p, t))
    requires NextWrites(h, h1, h2, h3, h', p, t, q, m, u)
    ensures FringeWritten(h, h', q, InRight(p, t.left, t.tag, t.id), m, RootId(u))
  {
    CutPaths(p, t, q, c, m, u);
    CutAbove(p, t);
    NextApart(h, p, t, q, c, m, u);
  }

  lemma WritesNext(h: Fields, h1: Fields, h2: Fields, h3: Fields, h': Fields, p: Place, t: Colored, q: Place, c: Color,
    m: Id, u: Colored)
    requires IsNext(p, t, q, c, m, u) && Holds(h, 0, Plug(p, t)) && Unshared(Plug(p, t))
    requires NextWrites(h, h1, h2, h3, h', p, t, q, m, u)
    ensures Succeeds(h, h', p, t, q, m, u)
  {
    NextFrame(h, h1, h2, h3, h', p, t, q, c, m, u);
    NextFringe(h, h1, h2, h3, h', p, t, q, c, m, u);
    CutPaths(p, t, q, c, m, u);
    CutAbove(p, t);
  }

  /** The next node in order takes the place of the one taken out. */
  lemma Succeeded(h: Fields, h': Fields, p: Place, t: Colored, q: Place, c: Color, m: Id, u: Colored)
    requires IsNext(p, t, q, c, m, u) && Holds(h, 0, Plug(p, t)) && Unshared(Plug(p, t))
    requires Succeeds(h, h', p, t, q, m, u)
    ensures HoldsPath(h', Rebased(q, InRight(p, t.left, t.tag, t.id), InRight(p, t.left, t.tag, m)), RootId(u))
    ensures Holds(h', m, u)
  {
    var base, base' := InRight(p, t.left, t.tag, t.id), InRight(p, t.left, t.tag, m);
    HoldsSplit(h, q, Node(c, Leaf, m, u));
    HoldsSplit(h, p, t);
    UnsharedAt(p, t);
    HoldsKept(h, h', m, u);
    HoldsBelow(h, h', t.id, m, t.left);
    PathKept(h, h', p, t, t.id, m);
    FringeHolds(h, h', q, base, base', Node(c, Leaf, m, u), m, RootId(u));
  }

  /** The child that moved up gets its parent and turns black. */
  lemma ChildSettled(h: Fields, h': Fields, q: Place, u: Colored, parent: Id)
    requires HoldsPath(h, q, RootId(u)) && Holds(h, parent, u) && Unshared(Plug(q, u)) && u.Node?
    requires h' == h[u.id := h[u.id].(parent := ParentOf(q), color := Black)]
    ensures Holds(h', 0, Plug(q, Painted(u, Black)))
  {
    UnsharedAt(q, u);
    HoldsKept(h, h', u.id, u.left);
    HoldsKept(h, h', u.id, u.right);
    if !q.Top? {
      assert q.id in PathIds(q);
    }
    PathKept(h, h', q, u, RootId(u), RootId(u));
    HoldsSplit(h', q, Painted(u, Black));
  }
}
