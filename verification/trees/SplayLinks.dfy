/** How the link fields of splay nodes hold a tree, and the two partial trees of a top-down splay. */
module SplayLinks {
  import opened Sequences
  import opened BinaryTrees

  /** SPLAY_ENTRY of a node. */
  datatype Ends = Ends(left: Id, right: Id)

  type Fields = map<Id, Ends>

  type Plain = Tree<()>

  predicate Held(h: Fields, t: Plain)
    decreases t
  {
    t.Node? ==>
      && t.id != 0 && t.id in h && h[t.id] == Ends(RootId(t.left), RootId(t.right))
      && Held(h, t.left) && Held(h, t.right)
  }

  lemma {:induction false} HeldKept(h: Fields, h': Fields, t: Plain)
    requires Held(h, t) && forall x | x in Ids(t) && x in h :: x in h' && h'[x] == h[x]
    ensures Held(h', t)
    decreases t
  {
    if t.Node? {
      HeldKept(h, h', t.left);
      HeldKept(h, h', t.right);
    }
  }

  lemma {:induction false} HeldNotZero(h: Fields, t: Plain, x: Id)
    requires Held(h, t) && x in Ids(t)
    ensures x != 0
    decreases t
  {
    if x in Ids(t.left) {
      HeldNotZero(h, t.left, x);
    } else if x in Ids(t.right) {
      HeldNotZero(h, t.right, x);
    }
  }

  /** The node whose free link will take the next subtree; the local node while there is none. */
  function Tip(p: Path<()>, local: Id): Id {
    if p.Top? then local else p.id
  }

  /** The tree of smaller nodes: a chain of right links from the local node, free at its end. */
  predicate LeftSpine(h: Fields, local: Id, p: Path<()>)
    decreases p
  {
    !p.Top? ==>
      && p.InRight? && p.id != 0 && p.id in h && h[p.id].left == RootId(p.left) && Held(h, p.left)
      && Tip(p.up, local) in h && h[Tip(p.up, local)].right == p.id && LeftSpine(h, local, p.up)
  }

  /** The tree of larger nodes: a chain of left links. */
  predicate RightSpine(h: Fields, local: Id, p: Path<()>)
    decreases p
  {
    !p.Top? ==>
      && p.InLeft? && p.id != 0 && p.id in h && h[p.id].right == RootId(p.right) && Held(h, p.right)
      && Tip(p.up, local) in h && h[Tip(p.up, local)].left == p.id && RightSpine(h, local, p.up)
  }

  lemma {:induction false} LeftSpineSame(h: Fields, h': Fields, local: Id, p: Path<()>)
    requires LeftSpine(h, local, p) && forall x | x in PathIds(p) && x in h :: x in h' && h'[x] == h[x]
    requires !p.Top? ==> local in h && local in h' && h'[local].right == h[local].right
    ensures LeftSpine(h', local, p)
    decreases p
  {
    if !p.Top? {
      HeldKept(h, h', p.left);
      LeftSpineSame(h, h', local, p.up);
      assert !p.up.Top? ==> p.up.id in PathIds(p);
    }
  }

  lemma {:induction false} RightSpineSame(h: Fields, h': Fields, local: Id, p: Path<()>)
    requires RightSpine(h, local, p) && forall x | x in PathIds(p) && x in h :: x in h' && h'[x] == h[x]
    requires !p.Top? ==> local in h && local in h' && h'[local].left == h[local].left
    ensures RightSpine(h', local, p)
    decreases p
  {
    if !p.Top? {
      HeldKept(h, h', p.right);
      RightSpineSame(h, h', local, p.up);
      assert !p.up.Top? ==> p.up.id in PathIds(p);
    }
  }

  /** Writing the free link does not matter to the spine. */
  lemma LeftTipFree(h: Fields, h': Fields, local: Id, p: Path<()>)
    requires LeftSpine(h, local, p) && local !in PathIds(p) && local in h && local in h' && Unshared(Plug(p, Leaf))
    requires forall x | x in PathIds(p) && x in h && x != Tip(p, local) :: x in h' && h'[x] == h[x]
    requires !p.Top? ==> p.id in h && p.id in h' && h'[p.id].left == h[p.id].left && h'[local].right == h[local].right
    ensures LeftSpine(h', local, p)
  {
    if !p.Top? {
      UnsharedAt(p.up, Fill(p, Leaf));
      HeldKept(h, h', p.left);
      LeftSpineSame(h, h', local, p.up);
      assert !p.up.Top? ==> p.up.id in PathIds(p.up);
    }
  }

  lemma RightTipFree(h: Fields, h': Fields, local: Id, p: Path<()>)
    requires RightSpine(h, local, p) && local !in PathIds(p) && local in h && local in h' && Unshared(Plug(p, Leaf))
    requires forall x | x in PathIds(p) && x in h && x != Tip(p, local) :: x in h' && h'[x] == h[x]
    requires !p.Top? ==> p.id in h && p.id in h' && h'[p.id].right == h[p.id].right && h'[local].left == h[local].left
    ensures RightSpine(h', local, p)
  {
    if !p.Top? {
      UnsharedAt(p.up, Fill(p, Leaf));
      HeldKept(h, h', p.right);
      RightSpineSame(h, h', local, p.up);
      assert !p.up.Top? ==> p.up.id in PathIds(p.up);
    }
  }

  /** Filling the free link of the left spine makes it a tree that hangs at the local node's right link. */
  lemma {:induction false} LeftFilled(h: Fields, local: Id, p: Path<()>, u: Plain)
    requires LeftSpine(h, local, p) && Held(h, u) && Tip(p, local) in h && h[Tip(p, local)].right == RootId(u)
    ensures Held(h, Plug(p, u)) && local in h && h[local].right == RootId(Plug(p, u))
    decreases p
  {
    if !p.Top? {
      LeftFilled(h, local, p.up, Fill(p, u));
    }
  }

  lemma {:induction false} RightFilled(h: Fields, local: Id, p: Path<()>, u: Plain)
    requires RightSpine(h, local, p) && Held(h, u) && Tip(p, local) in h && h[Tip(p, local)].left == RootId(u)
    ensures Held(h, Plug(p, u)) && local in h && h[local].left == RootId(Plug(p, u))
    decreases p
  {
    if !p.Top? {
      RightFilled(h, local, p.up, Fill(p, u));
    }
  }

  // ----- the three parts of a splay

  /** All nodes of the three parts, in order. */
  function Whole(l: Path<()>, t: Plain, r: Path<()>): Plain {
    Plug(r, Plug(l, t))
  }

  predicate OnlyRight(p: Path<()>) { !p.Top? ==> p.InRight? && OnlyRight(p.up) }
  predicate OnlyLeft(p: Path<()>) { !p.Top? ==> p.InLeft? && OnlyLeft(p.up) }

  lemma {:induction false} SpineOrder(l: Path<()>, r: Path<()>)
    ensures OnlyRight(l) ==> After(l) == []
    ensures OnlyLeft(r) ==> Before(r) == []
    decreases l, r
  {
    if !l.Top? {
      SpineOrder(l.up, r);
    } else if !r.Top? {
      SpineOrder(l, r.up);
    }
  }

  lemma WholeOrder(l: Path<()>, t: Plain, r: Path<()>)
    requires OnlyRight(l) && OnlyLeft(r)
    ensures InOrder(Whole(l, t, r)) == Before(l) + InOrder(t) + After(r)
    ensures InOrder(Plug(l, t)) == Before(l) + InOrder(t)
    ensures InOrder(Plug(r, t)) == InOrder(t) + After(r)
  {
    SpineOrder(l, r);
    InOrderAt(l, t);
    InOrderAt(r, t);
    InOrderAt(r, Plug(l, t));
    assert Before(l) + InOrder(t) + [] == Before(l) + InOrder(t);
    assert [] + InOrder(t) + After(r) == InOrder(t) + After(r);
    assert [] + InOrder(Plug(l, t)) + After(r) == InOrder(Plug(l, t)) + After(r);
  }

  /** The parts share no node. */
  lemma PartsApart(l: Path<()>, t: Plain, r: Path<()>)
    requires Unshared(Whole(l, t, r))
    ensures Unshared(t) && Unshared(Plug(l, Leaf)) && Unshared(Plug(r, Leaf))
    ensures Ids(Whole(l, t, r)) == PathIds(l) + Ids(t) + PathIds(r)
    ensures Ids(t) !! PathIds(l) && Ids(t) !! PathIds(r) && PathIds(l) !! PathIds(r)
  {
    UnsharedAt(r, Plug(l, t));
    UnsharedAt(l, t);
    IdsAt(l, t);
    IdsAt(r, Plug(l, t));
    UnsharedLess(l, t);
    UnsharedLess(r, Plug(l, t));
  }

  lemma UnsharedLess(p: Path<()>, t: Plain)
    requires Unshared(Plug(p, t))
    ensures Unshared(Plug(p, Leaf))
  {
    UnsharedSwap(p, t, Leaf);
  }

  lemma {:induction false} UnsharedSwap(p: Path<()>, t: Plain, u: Plain)
    requires Unshared(Plug(p, t)) && Ids(u) <= Ids(t) && Unshared(u)
    ensures Unshared(Plug(p, u))
    decreases p
  {
    if !p.Top? {
      UnsharedAt(p.up, Fill(p, t));
      UnsharedSwap(p.up, Fill(p, t), Fill(p, u));
    }
  }

  // ----- rotations

  function TurnedRight(t: Plain): Plain
    requires t.Node? && t.left.Node?
  {
    Node((), t.left.left, t.left.id, Node((), t.left.right, t.id, t.right))
  }

  function TurnedLeft(t: Plain): Plain
    requires t.Node? && t.right.Node?
  {
    Node((), Node((), t.left, t.id, t.right.left), t.right.id, t.right.right)
  }

  lemma TurnedRightHeld(h: Fields, h1: Fields, h': Fields, t: Plain)
    requires Held(h, t) && Unshared(t) && t.Node? && t.left.Node?
    requires h1 == h[t.id := h[t.id].(left := RootId(t.left.right))]
    requires t.left.id in h1 && h' == h1[t.left.id := h1[t.left.id].(right := t.id)]
    ensures Held(h', TurnedRight(t)) && InOrder(TurnedRight(t)) == InOrder(t) && Ids(TurnedRight(t)) == Ids(t)
  {
    assert Held(h, t.left);
    HeldKept(h, h', t.left.left);
    HeldKept(h, h', t.left.right);
    HeldKept(h, h', t.right);
    RotationOrder((), (), (), (), t.left.left, t.left.id, t.left.right, t.id, t.right);
    assert Ids(t) == Ids(t.left.left) + {t.left.id} + Ids(t.left.right) + {t.id} + Ids(t.right);
  }

  lemma TurnedLeftHeld(h: Fields, h1: Fields, h': Fields, t: Plain)
    requires Held(h, t) && Unshared(t) && t.Node? && t.right.Node?
    requires h1 == h[t.id := h[t.id].(right := RootId(t.right.left))]
    requires t.right.id in h1 && h' == h1[t.right.id := h1[t.right.id].(left := t.id)]
    ensures Held(h', TurnedLeft(t)) && InOrder(TurnedLeft(t)) == InOrder(t) && Ids(TurnedLeft(t)) == Ids(t)
  {
    assert Held(h, t.right);
    HeldKept(h, h', t.left);
    HeldKept(h, h', t.right.left);
    HeldKept(h, h', t.right.right);
    RotationOrder((), (), (), (), t.left, t.id, t.right.left, t.right.id, t.right.right);
    assert Ids(t) == Ids(t.left) + {t.id} + Ids(t.right.left) + {t.right.id} + Ids(t.right.right);
  }

  lemma SameWhole(l: Path<()>, t: Plain, t': Plain, r: Path<()>)
    requires InOrder(t) == InOrder(t') && Ids(t) == Ids(t')
    ensures InOrder(Whole(l, t', r)) == InOrder(Whole(l, t, r)) && Ids(Whole(l, t', r)) == Ids(Whole(l, t, r))
  {
    SameOrder(l, t, t');
    SameOrder(r, Plug(l, t), Plug(l, t'));
    IdsAt(l, t);
    IdsAt(r, Plug(l, t));
    IdsAt(l, t');
    IdsAt(r, Plug(l, t'));
  }

  // ----- links

  lemma LinkLeftWhole(l: Path<()>, t: Plain, r: Path<()>)
    requires OnlyRight(l) && OnlyLeft(r) && t.Node?
    ensures var r' := InLeft(r, (), t.id, t.right);
      && InOrder(Whole(l, t.left, r')) == InOrder(Whole(l, t, r)) && Ids(Whole(l, t.left, r')) == Ids(Whole(l, t, r))
  {
    var r' := InLeft(r, (), t.id, t.right);
    WholeOrder(l, t, r);
    WholeOrder(l, t.left, r');
    Regrouped3(Before(l), InOrder(t.left), [t.id], InOrder(t.right), After(r));
    WholeIds(l, t, r);
    WholeIds(l, t.left, r');
  }

  lemma LinkRightWhole(l: Path<()>, t: Plain, r: Path<()>)
    requires OnlyRight(l) && OnlyLeft(r) && t.Node?
    ensures var l' := InRight(l, t.left, (), t.id);
      && InOrder(Whole(l', t.right, r)) == InOrder(Whole(l, t, r)) && Ids(Whole(l', t.right, r)) == Ids(Whole(l, t, r))
  {
    var l' := InRight(l, t.left, (), t.id);
    WholeOrder(l, t, r);
    WholeOrder(l', t.right, r);
    Regrouped3(Before(l), InOrder(t.left), [t.id], InOrder(t.right), After(r));
    WholeIds(l, t, r);
    WholeIds(l', t.right, r);
  }

  lemma WholeIds(l: Path<()>, t: Plain, r: Path<()>)
    ensures Ids(Whole(l, t, r)) == PathIds(l) + Ids(t) + PathIds(r)
  {
    IdsAt(l, t);
    IdsAt(r, Plug(l, t));
  }

  /** The tree that SPLAY_ASSEMBLE makes of the three parts. */
  function Assembled(l: Path<()>, t: Plain, r: Path<()>): Plain
    requires t.Node?
  {
    Node((), Plug(l, t.left), t.id, Plug(r, t.right))
  }

  lemma AssembledWhole(l: Path<()>, t: Plain, r: Path<()>)
    requires OnlyRight(l) && OnlyLeft(r) && t.Node?
    ensures InOrder(Assembled(l, t, r)) == InOrder(Whole(l, t, r)) && Ids(Assembled(l, t, r)) == Ids(Whole(l, t, r))
    ensures InOrder(Plug(l, t.left)) == Before(l) + InOrder(t.left)
    ensures InOrder(Plug(r, t.right)) == InOrder(t.right) + After(r)
  {
    WholeOrder(l, t, r);
    WholeOrder(l, t.left, r);
    WholeOrder(l, t.right, r);
    Regrouped4(Before(l), InOrder(t.left), [t.id], InOrder(t.right), After(r));
    WholeIds(l, t, r);
    IdsAt(l, t.left);
    IdsAt(r, t.right);
  }

  lemma Regrouped4(b: seq<Id>, l: seq<Id>, x: seq<Id>, r: seq<Id>, a: seq<Id>)
    ensures b + (l + x + r) + a == (b + l) + x + (r + a)
  {
  }

  /** Only node `x` was written. */
  predicate SameBut(h: Fields, h': Fields, x: Id) {
    x in h && x in h' && forall y | y in h && y != x :: y in h' && h'[y] == h[y]
  }

  lemma HeldBut(h: Fields, h': Fields, t: Plain, x: Id)
    requires Held(h, t) && SameBut(h, h', x) && x !in Ids(t)
    ensures Held(h', t)
  {
    HeldKept(h, h', t);
  }

  /** The write of the free link at the end of the left spine. */
  lemma LeftTipWritten(h: Fields, h': Fields, local: Id, l: Path<()>, r: Path<()>, x: Id)
    requires LeftSpine(h, local, l) && RightSpine(h, local, r) && local in h && local !in PathIds(l)
    requires local !in PathIds(r)
    requires Unshared(Plug(l, Leaf)) && PathIds(l) !! PathIds(r)
    requires Tip(l, local) in h && h' == h[Tip(l, local) := h[Tip(l, local)].(right := x)]
    ensures SameBut(h, h', Tip(l, local)) && LeftSpine(h', local, l) && RightSpine(h', local, r)
    ensures local in h' && h'[local].left == h[local].left
  {
    assert !l.Top? ==> l.id in PathIds(l);
    LeftTipFree(h, h', local, l);
    RightSpineSame(h, h', local, r);
  }

  lemma RightTipWritten(h: Fields, h': Fields, local: Id, l: Path<()>, r: Path<()>, x: Id)
    requires LeftSpine(h, local, l) && RightSpine(h, local, r) && local in h && local !in PathIds(l)
    requires local !in PathIds(r)
    requires Unshared(Plug(r, Leaf)) && PathIds(l) !! PathIds(r)
    requires Tip(r, local) in h && h' == h[Tip(r, local) := h[Tip(r, local)].(left := x)]
    ensures SameBut(h, h', Tip(r, local)) && LeftSpine(h', local, l) && RightSpine(h', local, r)
    ensures local in h' && h'[local].right == h[local].right
  {
    assert !r.Top? ==> r.id in PathIds(r);
    RightTipFree(h, h', local, r);
    LeftSpineSame(h, h', local, l);
  }

  /** The ends of the spines lie outside the middle tree and the other spine. */
  lemma TipsApart(local: Id, l: Path<()>, t: Plain, r: Path<()>)
    requires Unshared(Whole(l, t, r)) && local !in Ids(Whole(l, t, r))
    ensures Tip(l, local) !in Ids(t) && Tip(r, local) !in Ids(t) && local !in Ids(t) && local !in PathIds(l)
    ensures local !in PathIds(r)
    ensures Unshared(t) && Unshared(Plug(l, Leaf)) && Unshared(Plug(r, Leaf)) && PathIds(l) !! PathIds(r)
    ensures forall x | x !in Ids(Whole(l, t, r)) && x != local ::
      x != Tip(l, local) && x != Tip(r, local) && x !in Ids(t)
  {
    PartsApart(l, t, r);
    assert !l.Top? ==> l.id in PathIds(l);
    assert !r.Top? ==> r.id in PathIds(r);
  }

  /** The first two writes of SPLAY_ASSEMBLE fill the free links. */
  lemma SpinesFilled(h: Fields, h1: Fields, h2: Fields, local: Id, l: Path<()>, t: Plain, r: Path<()>)
    requires t.Node? && Held(h, t) && LeftSpine(h, local, l) && RightSpine(h, local, r) && local in h
    requires Unshared(Whole(l, t, r)) && local !in Ids(Whole(l, t, r))
    requires Tip(l, local) in h && h1 == h[Tip(l, local) := h[Tip(l, local)].(right := RootId(t.left))]
    requires Tip(r, local) in h1 && h2 == h1[Tip(r, local) := h1[Tip(r, local)].(left := RootId(t.right))]
    ensures Held(h2, Plug(l, t.left)) && Held(h2, Plug(r, t.right)) && t.id in h2 && h2[t.id] == h[t.id]
    ensures local in h2 && h2[local] == Ends(RootId(Plug(r, t.right)), RootId(Plug(l, t.left)))
    ensures forall x | x in h && x != local && x !in Ids(Whole(l, t, r)) :: x in h2 && h2[x] == h[x]
  {
    TipsApart(local, l, t, r);
    LeftTipWritten(h, h1, local, l, r, RootId(t.left));
    RightTipWritten(h1, h2, local, l, r, RootId(t.right));
    HeldBut(h, h1, t, Tip(l, local));
    HeldBut(h1, h2, t, Tip(r, local));
    assert h2[Tip(l, local)].right == h1[Tip(l, local)].right;
    LeftFilled(h2, local, l, t.left);
    RightFilled(h2, local, r, t.right);
  }

  /** The four writes of SPLAY_ASSEMBLE. */
  lemma AssembledHeld(h: Fields, h1: Fields, h2: Fields, h3: Fields, h4: Fields, local: Id, l: Path<()>, t: Plain,
      r: Path<()>)
    requires t.Node? && Held(h, t) && LeftSpine(h, local, l) && RightSpine(h, local, r) && local in h
    requires Unshared(Whole(l, t, r)) && local !in Ids(Whole(l, t, r))
    requires Tip(l, local) in h && h1 == h[Tip(l, local) := h[Tip(l, local)].(right := RootId(t.left))]
    requires Tip(r, local) in h1 && h2 == h1[Tip(r, local) := h1[Tip(r, local)].(left := RootId(t.right))]
    requires local in h2 && t.id in h2 && h3 == h2[t.id := h2[t.id].(left := h2[local].right)]
    requires local in h3 && h4 == h3[t.id := h3[t.id].(right := h3[local].left)]
    ensures Held(h4, Assembled(l, t, r))
    ensures forall x | x in h && x != local && x !in Ids(Whole(l, t, r)) :: x in h4 && h4[x] == h[x]
  {
    SpinesFilled(h, h1, h2, local, l, t, r);
    PartsApart(l, t, r);
    IdsAt(l, t.left);
    IdsAt(r, t.right);
    HeldKept(h2, h4, Plug(l, t.left));
    HeldKept(h2, h4, Plug(r, t.right));
  }

  /** The write of SPLAY_LINKLEFT. */
  lemma LinkedLeftHeld(h: Fields, h': Fields, local: Id, l: Path<()>, t: Plain, r: Path<()>)
    requires t.Node? && Held(h, t) && LeftSpine(h, local, l) && RightSpine(h, local, r) && local in h
    requires Unshared(Whole(l, t, r)) && local !in Ids(Whole(l, t, r))
    requires Tip(r, local) in h && h' == h[Tip(r, local) := h[Tip(r, local)].(left := t.id)]
    ensures Held(h', t) && LeftSpine(h', local, l) && RightSpine(h', local, InLeft(r, (), t.id, t.right))
    ensures forall x | x in h && x != local && x !in Ids(Whole(l, t, r)) :: x in h' && h'[x] == h[x]
  {
    TipsApart(local, l, t, r);
    RightTipWritten(h, h', local, l, r, t.id);
    HeldBut(h, h', t, Tip(r, local));
  }

  lemma LinkedRightHeld(h: Fields, h': Fields, local: Id, l: Path<()>, t: Plain, r: Path<()>)
    requires t.Node? && Held(h, t) && LeftSpine(h, local, l) && RightSpine(h, local, r) && local in h
    requires Unshared(Whole(l, t, r)) && local !in Ids(Whole(l, t, r))
    requires Tip(l, local) in h && h' == h[Tip(l, local) := h[Tip(l, local)].(right := t.id)]
    ensures Held(h', t) && LeftSpine(h', local, InRight(l, t.left, (), t.id)) && RightSpine(h', local, r)
    ensures forall x | x in h && x != local && x !in Ids(Whole(l, t, r)) :: x in h' && h'[x] == h[x]
  {
    TipsApart(local, l, t, r);
    LeftTipWritten(h, h', local, l, r, t.id);
    HeldBut(h, h', t, Tip(l, local));
  }

  /** The root of one tree takes another one on its free side. */
  lemma JoinedHeld(h: Fields, h': Fields, v: Plain, r: Plain)
    requires Held(h, v) && Held(h, r) && Unshared(v) && v.Node? && v.right.Leaf? && v.id !in Ids(r)
    requires h' == h[v.id := h[v.id].(right := RootId(r))]
    ensures Held(h', Node((), v.left, v.id, r))
  {
    HeldKept(h, h', v.left);
    HeldKept(h, h', r);
  }

  /** Without the root, in order: the left subtree, rearranged, and the right one. */
  lemma JoinedOrder(t: Plain, v: Plain, key: Id -> int)
    requires t.Node? && v.Node? && Sorted(InOrder(t), key)
    requires InOrder(v) == InOrder(t.left) == InOrder(v.left) + [v.id]
    ensures var u := Node((), v.left, v.id, t.right);
      InOrder(u) == InOrder(t.left) + InOrder(t.right) && Sorted(InOrder(u), key) && Distinct(InOrder(u))
      && Ids(u) <= Ids(t)
    ensures v.id !in Ids(t.right)
  {
    var u: Plain := Node((), v.left, v.id, t.right);
    assert InOrder(u) == InOrder(t.left) + InOrder(t.right);
    SortedParts(InOrder(t.left), t.id, InOrder(t.right), key);
    SortedDistinct(InOrder(u), key);
    DistinctUnshared(u);
    SameIds(v, t.left);
  }
}
