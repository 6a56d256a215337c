/** What a top-down splay costs, and the potential that pays for it. */
module SplayCosts {
  import opened BinaryTrees
  import opened SplayLinks
  import opened Powers

  // ----- the tree that a splay makes, and its rounds

  /** Compares the key sought with that of a node: below, equal or above. */
  type Compare = Id -> int

  /** The root after the rotation that a round may begin with. */
  function Rotated(t: Plain, cmp: Compare): (u: Plain)
    requires t.Node?
    ensures u.Node?
    ensures cmp(t.id) < 0 ==> u.left < t
    ensures cmp(t.id) > 0 ==> u.right < t
  {
    if cmp(t.id) < 0 && t.left.Node? && cmp(t.left.id) < 0 then
      TurnedRight(t)
    else if cmp(t.id) > 0 && t.right.Node? && cmp(t.right.id) > 0 then
      TurnedLeft(t)
    else
      t
  }

  /** The tree after the splay: the way down is cut open, its ends are the subtrees of the new root. */
  function Splayed(t: Plain, cmp: Compare): (v: Plain)
    requires t.Node?
    ensures v.Node?
    decreases t
  {
    var u := Rotated(t, cmp);
    if cmp(t.id) < 0 && u.left.Node? then
      var v := Splayed(u.left, cmp);
      Node((), v.left, v.id, Node((), v.right, u.id, u.right))
    else if cmp(t.id) > 0 && u.right.Node? then
      var v := Splayed(u.right, cmp);
      Node((), Node((), u.left, u.id, v.left), v.id, v.right)
    else
      u
  }

  /** The number of nodes that the splay links to one of the partial trees. */
  function Links(t: Plain, cmp: Compare): nat
    requires t.Node?
    decreases t
  {
    var u := Rotated(t, cmp);
    if cmp(t.id) < 0 && u.left.Node? then
      1 + Links(u.left, cmp)
    else if cmp(t.id) > 0 && u.right.Node? then
      1 + Links(u.right, cmp)
    else
      0
  }

  // ----- ranks and the potential

  function Size(t: Plain): nat {
    if t.Leaf? then 0 else Size(t.left) + 1 + Size(t.right)
  }

  lemma {:induction false} SizeIsLength(t: Plain)
    ensures Size(t) == |InOrder(t)|
  {
    if t.Node? {
      SizeIsLength(t.left);
      SizeIsLength(t.right);
    }
  }

  /** The logarithm to base two, rounded down. */
  function Rank(n: nat): nat {
    if n <= 1 then 0 else 1 + Rank(n / 2)
  }

  /** The sum of the ranks of all subtrees. */
  function Potential(t: Plain): nat {
    if t.Leaf? then 0 else Potential(t.left) + Rank(Size(t)) + Potential(t.right)
  }

  lemma {:induction false} RankBounds(n: nat)
    requires n > 0
    ensures Pow2(Rank(n)) <= n < 2 * Pow2(Rank(n))
  {
    if n > 1 {
      RankBounds(n / 2);
    }
  }

  lemma {:induction false} RankGrows(a: nat, b: nat)
    requires a <= b
    ensures Rank(a) <= Rank(b)
  {
    if a > 1 {
      RankGrows(a / 2, b / 2);
    }
  }

  /** Two disjoint parts that leave one node out cannot both have the rank of the whole. */
  lemma RanksApart(a: nat, b: nat, n: nat)
    requires 0 < a && a + b < n
    ensures Rank(a) <= Rank(n) && Rank(b) <= Rank(n) && Rank(a) + Rank(b) < 2 * Rank(n)
  {
    RankGrows(a, n);
    RankGrows(b, n);
    RankBounds(n);
    RankBounds(a);
    if b > 0 {
      RankBounds(b);
    } else {
      RankGrows(2, n);
    }
  }

  lemma RotatedSize(t: Plain, cmp: Compare)
    requires t.Node?
    ensures var u := Rotated(t, cmp);
      Size(u.left) + 1 + Size(u.right) == Size(t) && Potential(u.left) + Potential(u.right) <= Potential(t)
  {
    if t.left.Node? {
      SidesGrow(t.left.right, t.id, t.right, Size(t));
    }
    if t.right.Node? {
      SidesGrow(t.left, t.id, t.right.left, Size(t));
    }
  }

  /** The potential of a part does not exceed what it had as a larger part. */
  lemma SidesGrow(l: Plain, x: Id, r: Plain, n: nat)
    requires Size(l) + 1 + Size(r) <= n
    ensures Size(Node((), l, x, r)) == Size(l) + 1 + Size(r)
    ensures Potential(Node((), l, x, r)) <= Potential(l) + Potential(r) + Rank(n)
  {
    RankGrows(Size(l) + 1 + Size(r), n);
  }

  lemma {:induction false} SplayedSize(t: Plain, cmp: Compare)
    requires t.Node?
    ensures Size(Splayed(t, cmp)) == Size(t)
    decreases t
  {
    var u := Rotated(t, cmp);
    RotatedSize(t, cmp);
    if cmp(t.id) < 0 && u.left.Node? {
      SplayedSize(u.left, cmp);
    } else if cmp(t.id) > 0 && u.right.Node? {
      SplayedSize(u.right, cmp);
    }
  }

  /** The number of nodes on the way to the first one. */
  function LeftDepth(t: Plain): nat {
    if t.Leaf? then 0 else 1 + LeftDepth(t.left)
  }

  // ----- one access

  /** One more link is allowed when the far side of the new root is about as large as the whole. */
  function Excess(t: Plain, cmp: Compare): nat
    requires t.Node?
  {
    var v := Splayed(t, cmp);
    if (cmp(t.id) < 0 && Rank(Size(v.right)) == Rank(Size(t))) || (cmp(t.id) > 0 && Rank(Size(v.left)) == Rank(Size(t)))
    then 1 else 0
  }

  /** The links of a round that rotates: the grandchild `a` and the far subtree `w` cannot both be large. */
  lemma RotatedRanks(a: nat, b: nat, w: nat, far: nat, n: nat)
    requires 0 < a <= b && a + w < n && far <= n
    ensures 4 * Rank(a) + 2 * Rank(far) + 2 * Rank(w) + 2 <= 6 * Rank(n) + 2 * Rank(b)
  {
    RanksApart(a, w, n);
    RankGrows(far, n);
    RankGrows(a, b);
  }

  /** The links of a round that does not: the subtrees of the new root cannot both be large. */
  lemma LinkedRanks(a: nat, near: nat, far: nat, n: nat)
    requires a < n && 0 < far && near + far < n
    ensures var e := if Rank(near) == Rank(a) then 1 else 0;
      var e' := if Rank(far) == Rank(n) then 1 else 0;
      4 * Rank(a) + 2 * Rank(far) + 1 + e <= 6 * Rank(n) + e'
  {
    RankGrows(a, n);
    RanksApart(far, near, n);
  }

  /** A splay of logarithmic amortized cost: every link is paid for by the potential, but for four times the rank. */
  lemma {:induction false} AccessCost(t: Plain, cmp: Compare)
    requires t.Node?
    ensures Paid(t, cmp)
    decreases t
  {
    var u := Rotated(t, cmp);
    RotatedSize(t, cmp);
    if cmp(t.id) < 0 && u.left.Node? {
      AccessCost(u.left, cmp);
      PaidLeft(t, cmp);
    } else if cmp(t.id) > 0 && u.right.Node? {
      AccessCost(u.right, cmp);
      PaidRight(t, cmp);
    }
  }

  predicate Paid(t: Plain, cmp: Compare)
    requires t.Node?
  {
    var v := Splayed(t, cmp);
    Links(t, cmp) + 2 * Potential(v.left) + 2 * Potential(v.right)
      <= 2 * Potential(t) + 4 * Rank(Size(t)) + Excess(t, cmp)
  }

  lemma PaidLeft(t: Plain, cmp: Compare)
    requires t.Node? && cmp(t.id) < 0 && Rotated(t, cmp).left.Node? && Paid(Rotated(t, cmp).left, cmp)
    ensures Paid(t, cmp)
  {
    var u, v := Rotated(t, cmp), Splayed(t, cmp);
    SplayedSize(u.left, cmp);
    RotatedSize(t, cmp);
    if u == t {
      LinkedRanks(Size(t.left), Size(v.left), Size(v.right), Size(t));
    } else {
      RotatedRanks(Size(u.left), Size(t.left), Size(u.right), Size(v.right), Size(t));
    }
  }

  lemma PaidRight(t: Plain, cmp: Compare)
    requires t.Node? && cmp(t.id) > 0 && Rotated(t, cmp).right.Node? && Paid(Rotated(t, cmp).right, cmp)
    ensures Paid(t, cmp)
  {
    var u, v := Rotated(t, cmp), Splayed(t, cmp);
    SplayedSize(u.right, cmp);
    RotatedSize(t, cmp);
    if u == t {
      LinkedRanks(Size(t.right), Size(v.right), Size(v.left), Size(t));
    } else {
      RotatedRanks(Size(u.right), Size(t.right), Size(u.left), Size(v.left), Size(t));
    }
  }

  /** How a round leads to the same tree in one link less, or ends at it. */
  predicate Round(done: bool, l: Path<()>, t: Plain, r: Path<()>, l': Path<()>, t': Plain, r': Path<()>, cmp: Compare) {
    && t.Node? && t'.Node?
    && Assembled(l', if done then t' else Splayed(t', cmp), r') == Assembled(l, Splayed(t, cmp), r)
    && Links(t, cmp) == (if done then 0 else Links(t', cmp) + 1)
    && (done ==> cmp(t'.id) != 0)
  }

  /** A round may end without a link, at a root that has no child on the side sought. */
  lemma RoundEnds(l: Path<()>, t: Plain, r: Path<()>, cmp: Compare)
    requires t.Node? && cmp(t.id) != 0
    requires if cmp(t.id) < 0 then Rotated(t, cmp).left.Leaf? else Rotated(t, cmp).right.Leaf?
    ensures Round(true, l, t, r, l, Rotated(t, cmp), r, cmp)
  {
  }

  lemma RoundLeft(l: Path<()>, t: Plain, r: Path<()>, cmp: Compare)
    requires t.Node? && cmp(t.id) < 0 && Rotated(t, cmp).left.Node?
    ensures var u := Rotated(t, cmp); Round(false, l, t, r, l, u.left, InLeft(r, (), u.id, u.right), cmp)
  {
  }

  lemma RoundRight(l: Path<()>, t: Plain, r: Path<()>, cmp: Compare)
    requires t.Node? && cmp(t.id) > 0 && Rotated(t, cmp).right.Node?
    ensures var u := Rotated(t, cmp); Round(false, l, t, r, InRight(l, u.left, (), u.id), u.right, r, cmp)
  {
  }

  /** A splay of `t0` after some rounds: what is below `t` is left to do. */
  predicate Descending(rounds: nat, l: Path<()>, t: Plain, r: Path<()>, t0: Plain, cmp: Compare) {
    && t.Node? && t0.Node? && Assembled(l, Splayed(t, cmp), r) == Splayed(t0, cmp)
    && rounds + Links(t, cmp) == Links(t0, cmp)
  }

  /** The rounds of one splay: those that link a node, and the one that finds no child to go on with. */
  function Rounds(t: Plain, cmp: Compare): nat {
    if t.Leaf? then 0 else Links(t, cmp) + if cmp(Splayed(t, cmp).id) == 0 then 0 else 1
  }

  predicate SplayRounds(rounds: nat, t: Plain, t': Plain, cmp: Compare) {
    t.Node? && t' == Splayed(t, cmp) && rounds == Rounds(t, cmp)
  }

  predicate Descended(rounds: nat, l: Path<()>, t: Plain, r: Path<()>, t0: Plain, cmp: Compare) {
    t.Node? && SplayRounds(rounds, t0, Assembled(l, t, r), cmp)
  }

  lemma RoundDone(rounds: nat, done: bool, l: Path<()>, t: Plain, r: Path<()>, l': Path<()>, t': Plain, r': Path<()>,
    t0: Plain, cmp: Compare)
    requires Descending(rounds, l, t, r, t0, cmp) && Round(done, l, t, r, l', t', r', cmp)
    ensures if done then Descended(rounds + 1, l', t', r', t0, cmp) else Descending(rounds + 1, l', t', r', t0, cmp)
  {
  }

  lemma FoundHere(rounds: nat, l: Path<()>, t: Plain, r: Path<()>, t0: Plain, cmp: Compare)
    requires Descending(rounds, l, t, r, t0, cmp) && cmp(t.id) == 0
    ensures Descended(rounds, l, t, r, t0, cmp)
  {
  }

  lemma NothingDone(t: Plain, cmp: Compare)
    requires t.Node?
    ensures Descending(0, Top, t, Top, t, cmp)
  {
    assert Splayed(t, cmp).tag == ();
  }

  /** What a splay of `n` nodes is charged: a multiple of their logarithm. */
  function Charge(n: nat): nat {
    6 * Rank(n) + 2
  }

  lemma ChargeGrows(a: nat, b: nat)
    requires a <= b
    ensures Charge(a) <= Charge(b)
  {
    RankGrows(a, b);
  }

  /** The rounds of an operation are paid for by the charge and the potential. */
  predicate Amortized(rounds: nat, t: Plain, t': Plain, charge: nat) {
    rounds + 2 * Potential(t') <= 2 * Potential(t) + charge
  }

  lemma SplayCost(rounds: nat, t: Plain, t': Plain, cmp: Compare)
    requires SplayRounds(rounds, t, t', cmp)
    ensures Amortized(rounds, t, t', Charge(Size(t))) && Size(t') == Size(t)
  {
    AccessCost(t, cmp);
    SplayedSize(t, cmp);
  }

  // ----- the operations

  /** A removal splays once for the key, and again below a root that has it. */
  function RemoveRounds(t: Plain, cmp: Compare): nat {
    if t.Leaf? then 0
    else
      var v := Splayed(t, cmp);
      Rounds(t, cmp) + if cmp(v.id) == 0 then Rounds(v.left, cmp) else 0
  }

  /** The tree with a new root before or after its old one. */
  function Parted(t: Plain, elm: Id, before: bool): Plain
    requires t.Node?
  {
    if before then Node((), t.left, elm, Node((), Leaf, t.id, t.right))
    else Node((), Node((), t.left, t.id, Leaf), elm, t.right)
  }

  /** The tree after an insertion: the new root parts the splayed tree, unless its key was found. */
  function Inserted(t: Plain, elm: Id, cmp: Compare): Plain {
    if t.Leaf? then
      Node((), Leaf, elm, Leaf)
    else
      var v := Splayed(t, cmp);
      if cmp(v.id) == 0 then v else Parted(v, elm, cmp(v.id) < 0)
  }

  /** A new root adds at most its own rank. */
  predicate RootAdded(t: Plain, t': Plain, elm: Id) {
    t'.Node? && t'.id == elm && Size(t') == Size(t) + 1 && Potential(t') <= Potential(t) + Rank(Size(t'))
  }

  lemma RootCost(t: Plain, elm: Id)
    requires t.Node?
    ensures RootAdded(t, Parted(t, elm, true), elm) && RootAdded(t, Parted(t, elm, false), elm)
  {
    SidesGrow(Leaf, t.id, t.right, Size(t));
    SidesGrow(t.left, t.id, Leaf, Size(t));
  }

  lemma InsertCost(rounds: nat, t: Plain, v: Plain, t': Plain, elm: Id)
    requires Amortized(rounds, t, v, Charge(Size(t))) && Size(v) == Size(t) && RootAdded(v, t', elm)
    ensures Amortized(rounds, t, t', 2 * Charge(Size(t'))) && Size(t') == Size(t) + 1
  {
    ChargeGrows(Size(t), Size(t'));
  }

  /** The splayed left subtree takes the right one. */
  lemma JoinCost(rounds: nat, t: Plain, v: Plain)
    requires t.Node? && v.Node? && v.right.Leaf? && Amortized(rounds, t.left, v, Charge(Size(t.left)))
    requires Size(v) == Size(t.left)
    ensures var t' := Node((), v.left, v.id, t.right);
      Amortized(rounds, t, t', Charge(Size(t))) && Size(t') == Size(t) - 1
  {
    ChargeGrows(Size(t.left), Size(t));
    SidesGrow(v.left, v.id, t.right, Size(t));
  }
}
