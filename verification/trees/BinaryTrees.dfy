/** Binary trees of node ids, seen whole or at one position. */
module BinaryTrees {
  import opened Sequences

  /** A node; 0 is the null pointer. */
  type Id = nat

  datatype Tree<T> = Leaf | Node(tag: T, left: Tree<T>, id: Id, right: Tree<T>)

  /** The rest of a tree around one position, innermost ancestor first. */
  datatype Path<T> =
    | Top
    | InLeft(up: Path<T>, tag: T, id: Id, right: Tree<T>)
    | InRight(up: Path<T>, left: Tree<T>, tag: T, id: Id)

  function RootId<T>(t: Tree<T>): Id {
    if t.Leaf? then 0 else t.id
  }

  function ParentOf<T>(p: Path<T>): Id {
    if p.Top? then 0 else p.id
  }

  function Plug<T>(p: Path<T>, t: Tree<T>): Tree<T> {
    match p
    case Top => t
    case InLeft(up, c, x, r) => Plug(up, Node(c, t, x, r))
    case InRight(up, l, c, x) => Plug(up, Node(c, l, x, t))
  }

  /** The subtree that stands at the far side of the node above a position. */
  function Sibling<T>(p: Path<T>): Tree<T>
    requires !p.Top?
  {
    if p.InLeft? then p.right else p.left
  }

  function WithSibling<T>(p: Path<T>, s: Tree<T>): Path<T>
    requires !p.Top?
  {
    if p.InLeft? then p.(right := s) else p.(left := s)
  }

  /** The position of the sibling of `t`. */
  function Across<T>(p: Path<T>, t: Tree<T>): Path<T>
    requires !p.Top?
  {
    if p.InLeft? then InRight(p.up, t, p.tag, p.id) else InLeft(p.up, p.tag, p.id, t)
  }

  /** The subtree of the node above a position. */
  function Fill<T>(p: Path<T>, t: Tree<T>): Tree<T>
    requires !p.Top?
  {
    if p.InLeft? then Node(p.tag, t, p.id, p.right) else Node(p.tag, p.left, p.id, t)
  }

  /** Ways to look at the same tree. */
  lemma Views<T>(p: Path<T>, t: Tree<T>, s: Tree<T>)
    requires !p.Top?
    ensures Plug(p.up, Fill(p, t)) == Plug(p, t)
    ensures Plug(Across(p, t), s) == Plug(WithSibling(p, s), t)
    ensures s == Sibling(p) ==> WithSibling(p, s) == p
  {
  }

  function Depth<T>(p: Path<T>): nat {
    if p.Top? then 0 else Depth(p.up) + 1
  }

  /** The number of nodes on the longest way down. */
  function Height<T>(t: Tree<T>): nat {
    if t.Leaf? then 0
    else 1 + if Height(t.left) > Height(t.right) then Height(t.left) else Height(t.right)
  }

  lemma {:induction false} HeightAt<T>(p: Path<T>, t: Tree<T>)
    ensures Depth(p) + Height(t) <= Height(Plug(p, t))
  {
    if !p.Top? {
      HeightAt(p.up, Fill(p, t));
    }
  }

  function InOrder<T>(t: Tree<T>): seq<Id> {
    if t.Leaf? then [] else InOrder(t.left) + [t.id] + InOrder(t.right)
  }

  /** What comes before and after a position, in order. */
  function Before<T>(p: Path<T>): seq<Id> {
    match p
    case Top => []
    case InLeft(up, _, _, _) => Before(up)
    case InRight(up, l, _, x) => Before(up) + InOrder(l) + [x]
  }

  function After<T>(p: Path<T>): seq<Id> {
    match p
    case Top => []
    case InLeft(up, _, x, r) => [x] + InOrder(r) + After(up)
    case InRight(up, _, _, _) => After(up)
  }

  lemma Regrouped3(b: seq<Id>, l: seq<Id>, x: seq<Id>, r: seq<Id>, a: seq<Id>)
    ensures b + (l + x + r) + a == b + l + (x + r + a)
    ensures b + (l + x + r) + a == (b + l + x) + r + a
  {
  }

  lemma {:induction false} InOrderAt<T>(p: Path<T>, t: Tree<T>)
    ensures InOrder(Plug(p, t)) == Before(p) + InOrder(t) + After(p)
  {
    match p
    case Top =>
    case InLeft(up, c, x, r) =>
      InOrderAt(up, Node(c, t, x, r));
      Regrouped3(Before(up), InOrder(t), [x], InOrder(r), After(up));
    case InRight(up, l, c, x) =>
      InOrderAt(up, Node(c, l, x, t));
      Regrouped3(Before(up), InOrder(l), [x], InOrder(t), After(up));
  }

  /** Subtrees with the same nodes in order can be exchanged. */
  lemma SameOrder<T>(p: Path<T>, t: Tree<T>, t': Tree<T>)
    requires InOrder(t) == InOrder(t')
    ensures InOrder(Plug(p, t)) == InOrder(Plug(p, t'))
  {
    InOrderAt(p, t);
    InOrderAt(p, t');
  }

  lemma RotationOrder<T>(c: T, d: T, c': T, d': T, a: Tree<T>, x: Id, b: Tree<T>, y: Id, e: Tree<T>)
    ensures InOrder(Node(c, a, x, Node(d, b, y, e))) == InOrder(Node(d', Node(c', a, x, b), y, e))
  {
    assert InOrder(a) + [x] + (InOrder(b) + [y] + InOrder(e)) == InOrder(a) + [x] + InOrder(b) + [y] + InOrder(e);
  }

  // ----- no node occurs twice

  function Ids<T>(t: Tree<T>): set<Id> {
    if t.Leaf? then {} else Ids(t.left) + {t.id} + Ids(t.right)
  }

  function PathIds<T>(p: Path<T>): set<Id> {
    match p
    case Top => {}
    case InLeft(up, _, x, r) => PathIds(up) + {x} + Ids(r)
    case InRight(up, l, _, x) => PathIds(up) + {x} + Ids(l)
  }

  predicate Unshared<T>(t: Tree<T>) {
    t.Node? ==>
      && Unshared(t.left) && Unshared(t.right)
      && t.id !in Ids(t.left) && t.id !in Ids(t.right) && Ids(t.left) !! Ids(t.right)
  }

  lemma {:induction false} IdsInOrder<T>(t: Tree<T>, x: Id)
    ensures x in Ids(t) <==> x in InOrder(t)
  {
    if t.Node? {
      IdsInOrder(t.left, x);
      IdsInOrder(t.right, x);
    }
  }

  lemma SameIds<T>(t: Tree<T>, t': Tree<T>)
    requires InOrder(t) == InOrder(t')
    ensures Ids(t) == Ids(t')
  {
    forall x: Id
      ensures x in Ids(t) <==> x in Ids(t')
    {
      IdsInOrder(t, x);
      IdsInOrder(t', x);
    }
  }

  lemma DistinctParts(a: seq<Id>, b: seq<Id>)
    requires Distinct(a + b)
    ensures Distinct(a) && Distinct(b)
    ensures forall x | x in a :: x !in b
  {
    var s := a + b;
    assert forall i | 0 <= i < |a| :: s[i] == a[i];
    forall i, j | 0 <= i < j < |b|
      ensures b[i] != b[j]
    {
      assert s[|a| + i] == b[i] && s[|a| + j] == b[j];
    }
    forall x | x in a
      ensures x !in b
    {
      var i :| 0 <= i < |a| && a[i] == x;
      assert forall j | 0 <= j < |b| :: s[|a| + j] == b[j] && s[i] != s[|a| + j];
    }
  }

  lemma Regrouped(b: seq<Id>, l: seq<Id>, x: Id, r: seq<Id>, a: seq<Id>)
    ensures b + (l + [x] + r) + a == (b + l) + [x] + (r + a)
    ensures l == [] ==> b + r + a == (b + l) + (r + a)
    ensures r == [] ==> b + l + a == (b + l) + (r + a)
  {
  }

  lemma WithoutOne(a: seq<Id>, x: Id, b: seq<Id>)
    requires Distinct(a + [x] + b)
    ensures Distinct(a + b)
  {
    var s, u := a + [x] + b, a + b;
    assert forall i | 0 <= i < |a| :: s[i] == u[i];
    assert forall i | |a| <= i < |u| :: s[i + 1] == u[i];
    forall i, j | 0 <= i < j < |u|
      ensures u[i] != u[j]
    {
      assert u[i] == s[if i < |a| then i else i + 1] && u[j] == s[if j < |a| then j else j + 1];
    }
  }

  lemma {:induction false} DistinctUnshared<T>(t: Tree<T>)
    requires Distinct(InOrder(t))
    ensures Unshared(t)
  {
    if t.Node? {
      DistinctParts(InOrder(t.left) + [t.id], InOrder(t.right));
      DistinctParts(InOrder(t.left), [t.id]);
      DistinctUnshared(t.left);
      DistinctUnshared(t.right);
      forall x
        ensures x in Ids(t.left) ==> x != t.id && x !in Ids(t.right)
        ensures x in Ids(t.right) ==> x != t.id
      {
        IdsInOrder(t.left, x);
        IdsInOrder(t.right, x);
      }
    }
  }

  lemma {:induction false} UnsharedAt<T>(p: Path<T>, t: Tree<T>)
    requires Unshared(Plug(p, t))
    ensures Unshared(t) && Ids(t) !! PathIds(p)
  {
    match p
    case Top =>
    case InLeft(up, c, x, r) => UnsharedAt(up, Node(c, t, x, r));
    case InRight(up, l, c, x) => UnsharedAt(up, Node(c, l, x, t));
  }

  lemma {:induction false} IdsAt<T>(p: Path<T>, t: Tree<T>)
    ensures Ids(Plug(p, t)) == PathIds(p) + Ids(t)
  {
    match p
    case Top =>
    case InLeft(up, c, x, r) => IdsAt(up, Node(c, t, x, r));
    case InRight(up, l, c, x) => IdsAt(up, Node(c, l, x, t));
  }

  lemma {:induction false} SameRoot<T>(p: Path<T>, t: Tree<T>, t': Tree<T>)
    requires p != Top || RootId(t) == RootId(t')
    ensures RootId(Plug(p, t)) == RootId(Plug(p, t'))
  {
    match p
    case Top =>
    case InLeft(up, c, x, r) => SameRoot(up, Node(c, t, x, r), Node(c, t', x, r));
    case InRight(up, l, c, x) => SameRoot(up, Node(c, l, x, t), Node(c, l, x, t'));
  }

  lemma {:induction false} PlugNode<T>(p: Path<T>, t: Tree<T>)
    requires t.Node?
    ensures Plug(p, t).Node?
  {
    if !p.Top? {
      PlugNode(p.up, Fill(p, t));
    }
  }

  /** Every node of a tree sits at some position. */
  lemma {:induction false} PositionOf<T>(p: Path<T>, t: Tree<T>, x: Id) returns (q: Path<T>, u: Tree<T>)
    requires x in Ids(t)
    ensures Plug(q, u) == Plug(p, t) && u.Node? && u.id == x
    decreases t
  {
    if t.id == x {
      q, u := p, t;
    } else if x in Ids(t.left) {
      q, u := PositionOf(InLeft(p, t.tag, t.id, t.right), t.left, x);
    } else {
      q, u := PositionOf(InRight(p, t.left, t.tag, t.id), t.right, x);
    }
  }

  // ----- the way down to the next node in order

  /** From position `base` only left links were followed. */
  predicate Extends<T(==)>(q: Path<T>, base: Path<T>)
    decreases q
  {
    q == base || (q.InLeft? && Extends(q.up, base))
  }

  /** The same way down from another node. */
  function Rebased<T(==)>(q: Path<T>, base: Path<T>, base': Path<T>): Path<T>
    requires Extends(q, base)
    decreases q
  {
    if q == base then base' else InLeft(Rebased(q.up, base, base'), q.tag, q.id, q.right)
  }

  /** The first node below `base`. */
  function TopId<T(==)>(q: Path<T>, base: Path<T>): Id
    requires Extends(q, base) && q != base
    decreases q
  {
    if q.up == base then q.id else TopId(q.up, base)
  }

  lemma {:induction false} ExtendsOnce<T>(q: Path<T>, base: Path<T>, c: T, x: Id, r: Tree<T>)
    requires Extends(q, base)
    ensures Extends(InLeft(q, c, x, r), base) && Depth(base) <= Depth(q)
    ensures TopId(InLeft(q, c, x, r), base) == if q == base then x else TopId(q, base)
    decreases q
  {
    if q != base {
      ExtendsOnce(q.up, base, q.tag, q.id, q.right);
    }
  }

  lemma {:induction false} RebasedDepth<T>(q: Path<T>, base: Path<T>, base': Path<T>)
    requires Extends(q, base) && Depth(base) == Depth(base')
    ensures Depth(Rebased(q, base, base')) == Depth(q)
    decreases q
  {
    if q != base {
      RebasedDepth(q.up, base, base');
    }
  }

  lemma {:induction false} RebasedOrder<T>(q: Path<T>, base: Path<T>, base': Path<T>)
    requires Extends(q, base) && After(base) == After(base')
    ensures Before(q) == Before(base) && Before(Rebased(q, base, base')) == Before(base')
    ensures After(Rebased(q, base, base')) == After(q)
    decreases q
  {
    if q != base {
      RebasedOrder(q.up, base, base');
    }
  }

  lemma {:induction false} RebasedRoot<T>(q: Path<T>, p: Path<T>, l: Tree<T>, c: T, x: Id, m: Id, u: Tree<T>,
      t: Tree<T>)
    requires Extends(q, InRight(p, l, c, x))
    ensures RootId(Plug(Rebased(q, InRight(p, l, c, x), InRight(p, l, c, m)), u)) == if p.Top? then m
      else RootId(Plug(p, t))
    decreases q
  {
    if q == InRight(p, l, c, x) {
      if !p.Top? {
        SameRoot(p, Node(c, l, m, u), t);
      }
    } else {
      RebasedRoot(q.up, p, l, c, x, m, Node(q.tag, u, q.id, q.right), t);
    }
  }

  // ----- search order

  /** Keys increase strictly along the sequence. */
  predicate Sorted(s: seq<Id>, key: Id -> int) {
    forall i, j | 0 <= i < j < |s| :: key(s[i]) < key(s[j])
  }

  lemma SortedDistinct(s: seq<Id>, key: Id -> int)
    requires Sorted(s, key)
    ensures Distinct(s)
  {
  }

  predicate AllBelow(s: seq<Id>, key: Id -> int, k: int) {
    forall i | 0 <= i < |s| :: key(s[i]) < k
  }

  predicate AllAbove(s: seq<Id>, key: Id -> int, k: int) {
    forall i | 0 <= i < |s| :: k < key(s[i])
  }

  lemma NotBoth(s: seq<Id>, key: Id -> int, k: int)
    requires s != [] && AllAbove(s, key, k)
    ensures !AllBelow(s, key, k)
  {
    assert k < key(s[0]);
  }

  lemma BelowParts(a: seq<Id>, b: seq<Id>, key: Id -> int, k: int)
    ensures AllBelow(a + b, key, k) <==> AllBelow(a, key, k) && AllBelow(b, key, k)
  {
    var s := a + b;
    assert forall i | 0 <= i < |a| :: s[i] == a[i];
    assert forall i | 0 <= i < |b| :: s[|a| + i] == b[i];
  }

  lemma AboveParts(a: seq<Id>, b: seq<Id>, key: Id -> int, k: int)
    ensures AllAbove(a + b, key, k) <==> AllAbove(a, key, k) && AllAbove(b, key, k)
  {
    var s := a + b;
    assert forall i | 0 <= i < |a| :: s[i] == a[i];
    assert forall i | 0 <= i < |b| :: s[|a| + i] == b[i];
  }

  lemma SortedParts(a: seq<Id>, x: Id, b: seq<Id>, key: Id -> int)
    requires Sorted(a + [x] + b, key)
    ensures AllBelow(a, key, key(x)) && AllAbove(b, key, key(x))
    ensures Sorted(a, key) && Sorted(b, key) && Sorted(a + b, key)
  {
    var s := a + [x] + b;
    assert forall i | 0 <= i < |a| :: s[i] == a[i];
    assert s[|a|] == x;
    assert forall i | 0 <= i < |b| :: s[|a| + 1 + i] == b[i];
  }

  /** What is next to a node in order lies on the same side of a key as the node, beyond it. */
  lemma KeysAround(a0: seq<Id>, a: seq<Id>, x: Id, b: seq<Id>, b0: seq<Id>, key: Id -> int, k: int)
    requires Sorted((a0 + a) + [x] + (b + b0), key)
    ensures k < key(x) ==> AllAbove([x] + b, key, k)
    ensures key(x) < k ==> AllBelow(a + [x], key, k)
  {
    SortedParts(a0 + a, x, b + b0, key);
    BelowParts(a0, a, key, key(x));
    AboveParts(b, b0, key, key(x));
  }

  lemma SortedWith(a: seq<Id>, x: Id, b: seq<Id>, key: Id -> int)
    requires Sorted(a + b, key) && AllBelow(a, key, key(x)) && AllAbove(b, key, key(x))
    ensures Sorted(a + [x] + b, key)
  {
    var s, u := a + [x] + b, a + b;
    assert forall i | 0 <= i < |a| :: s[i] == u[i];
    assert forall i | |a| < i < |s| :: s[i] == u[i - 1];
    assert forall i | |a| < i < |s| :: s[i] == b[i - |a| - 1];
  }

  /** The search left node `t.id` behind on its right. */
  lemma WentLeft<T>(p: Path<T>, t: Tree<T>, key: Id -> int, k: int)
    requires t.Node? && Sorted(InOrder(Plug(p, t)), key) && k < key(t.id)
    ensures AllAbove(After(InLeft(p, t.tag, t.id, t.right)), key, k)
  {
    InOrderAt(p, t);
    var a, b := Before(p) + InOrder(t.left), InOrder(t.right) + After(p);
    Regrouped(Before(p), InOrder(t.left), t.id, InOrder(t.right), After(p));
    SortedParts(a, t.id, b, key);
    assert [t.id] + InOrder(t.right) + After(p) == [t.id] + b;
  }

  lemma WentRight<T>(p: Path<T>, t: Tree<T>, key: Id -> int, k: int)
    requires t.Node? && Sorted(InOrder(Plug(p, t)), key) && key(t.id) < k
    ensures AllBelow(Before(InRight(p, t.left, t.tag, t.id)), key, k)
  {
    InOrderAt(p, t);
    var a, b := Before(p) + InOrder(t.left), InOrder(t.right) + After(p);
    Regrouped(Before(p), InOrder(t.left), t.id, InOrder(t.right), After(p));
    SortedParts(a, t.id, b, key);
    assert Before(InRight(p, t.left, t.tag, t.id)) == a + [t.id];
  }

  // ----- neighbours in order

  /** The node after `x` in a sequence of nodes; 0 after the last. */
  predicate Follows(s: seq<Id>, x: Id, y: Id) {
    exists i :: 0 <= i < |s| && s[i] == x && y == if i + 1 < |s| then s[i + 1] else 0
  }

  predicate Precedes(s: seq<Id>, x: Id, y: Id) {
    exists i :: 0 <= i < |s| && s[i] == x && y == if i > 0 then s[i - 1] else 0
  }

  lemma FollowsHere(a: seq<Id>, x: Id, b: seq<Id>, y: Id)
    requires y == if b == [] then 0 else b[0]
    ensures Follows(a + [x] + b, x, y)
  {
    var s := a + [x] + b;
    assert s[|a|] == x;
    assert b != [] ==> s[|a| + 1] == b[0];
  }

  lemma PrecedesHere(a: seq<Id>, x: Id, b: seq<Id>, y: Id)
    requires y == if a == [] then 0 else a[|a| - 1]
    ensures Precedes(a + [x] + b, x, y)
  {
    var s := a + [x] + b;
    assert s[|a|] == x;
    assert a != [] ==> s[|a| - 1] == a[|a| - 1];
  }
}
