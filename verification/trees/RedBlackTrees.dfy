/** Red-black trees as values: what the colours promise, and what each repair step does to them. */
module RedBlackTrees {
  import opened BinaryTrees
  import opened Powers

  datatype Color = Black | Red

  type Colored = Tree<Color>
  type Place = Path<Color>

  predicate IsRed(t: Colored) { t.Node? && t.tag == Red }

  function Painted(t: Colored, c: Color): Colored {
    if t.Leaf? then Leaf else t.(tag := c)
  }

  /** A subtree without a red node below a red node, with `n` black nodes on every way down. */
  predicate RedBlack(t: Colored, n: nat) {
    match t
    case Leaf => n == 0
    case Node(Red, l, _, r) => !IsRed(l) && !IsRed(r) && RedBlack(l, n) && RedBlack(r, n)
    case Node(Black, l, _, r) => n > 0 && RedBlack(l, n - 1) && RedBlack(r, n - 1)
  }

  /** A red-black tree: the root is black and all ways down have the same number of black nodes. */
  ghost predicate IsRedBlackTree(t: Colored) {
    !IsRed(t) && exists n: nat :: RedBlack(t, n)
  }

  /** Whether a red subtree may stand at a position. */
  predicate TakesRed(p: Place) { !p.Top? && p.tag == Black }

  /** The rest of a red-black tree around a position where a subtree with `n` black nodes per way belongs. */
  predicate Awaits(p: Place, n: nat) {
    !p.Top? ==>
      && RedBlack(Sibling(p), n)
      && (p.tag == Red ==> !IsRed(Sibling(p)) && TakesRed(p.up))
      && Awaits(p.up, if p.tag == Black then n + 1 else n)
  }

  /** Filling the position gives a red-black tree. */
  lemma {:induction false} Filled(p: Place, t: Colored, n: nat)
    requires Awaits(p, n) && RedBlack(t, n) && (IsRed(t) ==> TakesRed(p))
    ensures IsRedBlackTree(Plug(p, t))
  {
    match p
    case Top =>
    case InLeft(up, c, x, r) => Filled(up, Node(c, t, x, r), if c == Black then n + 1 else n);
    case InRight(up, l, c, x) => Filled(up, Node(c, l, x, t), if c == Black then n + 1 else n);
  }

  /** Every position of a red-black tree awaits what stands there. */
  lemma {:induction false} Opened(p: Place, t: Colored) returns (n: nat)
    requires IsRedBlackTree(Plug(p, t))
    ensures Awaits(p, n) && RedBlack(t, n) && (IsRed(t) ==> TakesRed(p))
  {
    match p
    case Top =>
      n :| RedBlack(t, n);
    case InLeft(up, c, x, r) =>
      n := Opened(up, Node(c, t, x, r));
      n := if c == Black then n - 1 else n;
    case InRight(up, l, c, x) =>
      n := Opened(up, Node(c, l, x, t));
      n := if c == Black then n - 1 else n;
  }

  lemma BlackRoot(t: Colored, n: nat)
    requires t.Node? && RedBlack(t, n)
    ensures IsRedBlackTree(Painted(t, Black))
  {
    assert RedBlack(Painted(t, Black), if IsRed(t) then n + 1 else n);
  }

  // ----- repair after insertion

  /** A red node below a red one may be all that is wrong: `t` at position `p`. */
  predicate RedBelow(p: Place, t: Colored, n: nat) {
    IsRed(t) && RedBlack(t, n) && Awaits(p, n)
  }

  /** Both of the older generation turn black, their parent red. */
  function Lifted(p: Place, t: Colored): Colored
    requires !p.Top? && !p.up.Top?
  {
    Painted(Fill(WithSibling(p.up, Painted(Sibling(p.up), Black)), Painted(Fill(p, t), Black)), Red)
  }

  lemma LiftedBelow(p: Place, t: Colored, n: nat)
    requires RedBelow(p, t, n) && !p.Top? && p.tag == Red && IsRed(Sibling(p.up))
    ensures RedBelow(p.up.up, Lifted(p, t), n + 1)
  {
    var mine, other := Painted(Fill(p, t), Black), Painted(Sibling(p.up), Black);
    assert Awaits(p.up, n);
    assert RedBlack(mine, n + 1) && RedBlack(other, n + 1);
  }

  /** A node on the inner side, turned with its parent, leaves the parent on the outer side. */
  lemma InnerTurned(p: Place, t: Colored, n: nat)
    requires RedBelow(p, t, n) && !p.Top? && p.tag == Red
    ensures p.InRight? ==> RedBelow(InLeft(p.up, Red, t.id, t.right), Node(Red, p.left, p.id, t.left), n)
    ensures p.InLeft? ==> RedBelow(InRight(p.up, t.left, Red, t.id), Node(Red, t.right, p.id, p.right), n)
  {
  }

  /** A node on the outer side of a red parent and a black uncle: the parent takes the grandparent's place. */
  lemma OuterTurned(p: Place, t: Colored, n: nat)
    requires RedBelow(p, t, n) && !p.Top? && p.tag == Red && !IsRed(Sibling(p.up))
    ensures p.InLeft? && p.up.InLeft? ==>
      RedBelow(InLeft(p.up.up, Black, p.id, Node(Red, p.right, p.up.id, p.up.right)), t, n)
    ensures p.InRight? && p.up.InRight? ==>
      RedBelow(InRight(p.up.up, Node(Red, p.up.left, p.up.id, p.left), Black, p.id), t, n)
  {
    assert Awaits(p.up, n);
  }

  /** Once the red node stands below a black one, a black root makes the tree red-black. */
  lemma RootPainted(p: Place, t: Colored, n: nat)
    requires RedBelow(p, t, n) && (!p.Top? ==> TakesRed(p))
    ensures Plug(p, t).Node? && IsRedBlackTree(Painted(Plug(p, t), Black))
  {
    if p.Top? {
      BlackRoot(t, n);
    } else {
      Filled(p, t, n);
      PlugNode(p, t);
    }
  }

  // ----- repair after removal

  /** One black node is missing on every way through `t`. */
  predicate Lacks(p: Place, t: Colored, n: nat) {
    !p.Top? && !IsRed(t) && RedBlack(t, n) && Awaits(p, n + 1)
  }

  /** The same, or a red root that makes up for it by turning black, or the root of the whole tree. */
  predicate Pending(p: Place, t: Colored, n: nat) {
    Awaits(p, n + 1) && if IsRed(t) then RedBlack(Painted(t, Black), n + 1) else RedBlack(t, n)
  }

  lemma PaintedBlack(p: Place, t: Colored, n: nat)
    requires Pending(p, t, n) && (IsRed(t) || p.Top?)
    ensures IsRedBlackTree(Plug(p, Painted(t, Black)))
  {
    if IsRed(t) {
      Filled(p, Painted(t, Black), n + 1);
    }
  }

  /** A red sibling, turned with the parent, leaves a black one. */
  lemma RedSiblingTurned(p: Place, t: Colored, n: nat)
    requires Lacks(p, t, n) && IsRed(Sibling(p))
    ensures p.InLeft? ==>
      Lacks(InLeft(InLeft(p.up, Black, p.right.id, p.right.right), Red, p.id, p.right.left), t, n)
        && !IsRed(p.right.left)
    ensures p.InRight? ==>
      Lacks(InRight(InRight(p.up, p.left.left, Black, p.left.id), p.left.right, Red, p.id), t, n)
        && !IsRed(p.left.right)
  {
    var s := Sibling(p);
    assert p.tag == Black && Awaits(p.up, n + 2);
    assert RedBlack(s.left, n + 1) && RedBlack(s.right, n + 1);
  }

  /** A black sibling with a red child at the far side can give one black node away. */
  predicate Lends(p: Place, t: Colored, n: nat) {
    && !p.Top? && Sibling(p).Node? && Sibling(p).tag == Black && RedBlack(t, n)
    && (p.tag == Red ==> TakesRed(p.up)) && Awaits(p.up, if p.tag == Black then n + 2 else n + 1)
    && RedBlack(if p.InLeft? then p.right.left else p.left.right, n)
    && var far := if p.InLeft? then p.right.right else p.left.left;
       RedBlack(far, n + 1) && !IsRed(far)
  }

  lemma Nephews(s: Colored, n: nat)
    requires RedBlack(s, n + 1) && !IsRed(s)
    ensures s.Node? && RedBlack(s.left, n) && RedBlack(s.right, n)
    ensures forall o | o in {s.left, s.right} && IsRed(o) ::
      RedBlack(o.left, n) && RedBlack(o.right, n) && !IsRed(o.left) && !IsRed(o.right)
        && RedBlack(Painted(o, Black), n + 1)
  {
  }

  lemma FarNephewPainted(p: Place, t: Colored, n: nat)
    requires Lacks(p, t, n) && !IsRed(Sibling(p))
    ensures Sibling(p).Node?
    ensures p.InLeft? && IsRed(p.right.right) ==>
      Lends(p.(right := Node(Black, p.right.left, p.right.id, Painted(p.right.right, Black))), t, n)
    ensures p.InRight? && IsRed(p.left.left) ==>
      Lends(p.(left := Node(Black, Painted(p.left.left, Black), p.left.id, p.left.right)), t, n)
  {
    var s := Sibling(p);
    assert Awaits(p.up, if p.tag == Black then n + 2 else n + 1);
    Nephews(s, n);
  }

  lemma NearNephewTurned(p: Place, t: Colored, n: nat)
    requires Lacks(p, t, n) && !IsRed(Sibling(p))
    ensures Sibling(p).Node?
    ensures p.InLeft? && IsRed(p.right.left) && !IsRed(p.right.right) ==> var s, o := p.right, p.right.left;
      Lends(p.(right := Node(Black, o.left, o.id, Node(Black, o.right, s.id, s.right))), t, n)
    ensures p.InRight? && IsRed(p.left.right) && !IsRed(p.left.left) ==> var s, o := p.left, p.left.right;
      Lends(p.(left := Node(Black, Node(Black, s.left, s.id, o.left), o.id, o.right)), t, n)
  {
    var s := Sibling(p);
    assert Awaits(p.up, if p.tag == Black then n + 2 else n + 1);
    Nephews(s, n);
  }

  /** No red nephew: the sibling turns red, and the parent's subtree as a whole lacks a black node. */
  lemma SiblingPainted(p: Place, t: Colored, n: nat)
    requires Lacks(p, t, n) && !IsRed(Sibling(p))
    ensures Sibling(p).Node?
    ensures !IsRed(Sibling(p).left) && !IsRed(Sibling(p).right) ==>
      Pending(p.up, Fill(WithSibling(p, Painted(Sibling(p), Red)), t), if p.tag == Black then n + 1 else n)
  {
    var s := Sibling(p);
    assert RedBlack(s.left, n) && RedBlack(s.right, n);
  }

  /** The sibling takes the parent's place and colour, the parent fills the gap. */
  lemma Lent(p: Place, t: Colored, n: nat)
    requires Lends(p, t, n)
    ensures p.InLeft? ==> var s := p.right;
      IsRedBlackTree(Plug(p.up, Node(p.tag, Node(Black, t, p.id, s.left), s.id, s.right)))
    ensures p.InRight? ==> var s := p.left;
      IsRedBlackTree(Plug(p.up, Node(p.tag, s.left, s.id, Node(Black, s.right, p.id, t))))
  {
    var m := if p.tag == Black then n + 2 else n + 1;
    if p.InLeft? {
      var s := p.right;
      assert RedBlack(Node(Black, t, p.id, s.left), n + 1);
      Filled(p.up, Node(p.tag, Node(Black, t, p.id, s.left), s.id, s.right), m);
    } else {
      var s := p.left;
      assert RedBlack(Node(Black, s.right, p.id, t), n + 1);
      Filled(p.up, Node(p.tag, s.left, s.id, Node(Black, s.right, p.id, t)), m);
    }
  }

  // ----- taking a node out

  /** A node of colour `c` with at most the child `u` was taken from position `q`. */
  predicate Vacated(q: Place, u: Colored, c: Color) {
    && RedBlack(u, 0) && Awaits(q, if c == Black then 1 else 0)
    && (u.Node? ==> IsRed(u) && c == Black)
  }

  lemma OnlyChildLeft(p: Place, t: Colored)
    requires IsRedBlackTree(Plug(p, t)) && t.Node?
    ensures t.left.Leaf? ==> Vacated(p, t.right, t.tag)
    ensures t.right.Leaf? ==> Vacated(p, t.left, t.tag)
  {
    var n := Opened(p, t);
    assert n == if t.tag == Black then (n - 1) + 1 else n;
  }

  lemma {:induction false} RebasedAwaits(q: Place, base: Place, base': Place, n: nat)
    requires Extends(q, base) && base.InRight? && base' == InRight(base.up, base.left, base.tag, ParentOf(base'))
    ensures Awaits(Rebased(q, base, base'), n) <==> Awaits(q, n)
    ensures TakesRed(Rebased(q, base, base')) <==> TakesRed(q)
    decreases q
  {
    if q != base {
      RebasedAwaits(q.up, base, base', if q.tag == Black then n + 1 else n);
    }
  }

  // ----- size and height

  lemma {:induction false} BlackNodesBound(t: Colored, n: nat)
    requires RedBlack(t, n)
    ensures |InOrder(t)| + 1 >= Pow2(n)
    ensures Height(t) <= 2 * n + if IsRed(t) then 1 else 0
  {
    match t
    case Leaf =>
    case Node(Red, l, _, r) =>
      BlackNodesBound(l, n);
      BlackNodesBound(r, n);
    case Node(Black, l, _, r) =>
      BlackNodesBound(l, n - 1);
      BlackNodesBound(r, n - 1);
  }

  /** The height is at most 2 lg (n + 1): two to the height is at most (n + 1) squared. */
  lemma HeightBound(t: Colored)
    requires IsRedBlackTree(t)
    ensures Pow2(Height(t)) <= (|InOrder(t)| + 1) * (|InOrder(t)| + 1)
  {
    var n: nat :| RedBlack(t, n);
    BlackNodesBound(t, n);
    Pow2Grows(Height(t), 2 * n);
    Pow2Sum(n, n);
    Square(Pow2(n), |InOrder(t)| + 1);
  }

  lemma Square(a: nat, b: nat)
    requires a <= b
    ensures a * a <= b * b
  {
    assert a * a <= a * b <= b * b;
  }
}
