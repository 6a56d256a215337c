/** Sequences of operations on one splay tree, and what they cost together. */
module SplayRuns {
  import opened BinaryTrees
  import opened SplayLinks
  import opened SplayCosts
  import opened SplayTrees

  datatype Access =
    | Find(elm: Id)
    | Insert(elm: Id)
    | Remove(elm: Id)
    | MinMax(val: int)

  /** What the code asks of its callers: a node to work on, and a direction. */
  predicate Allowed(op: Access, local: Id) {
    match op
    case Find(_) => true
    case Insert(elm) => elm != 0 && elm != local
    case Remove(elm) => elm != 0
    case MinMax(val) => val != 0
  }

  function Inserts(ops: seq<Access>): nat {
    if ops == [] then 0 else Inserts(ops[..|ops| - 1]) + if ops[|ops| - 1].Insert? then 1 else 0
  }

  /** What one operation may cost on a tree that has at most `n` nodes after it. */
  predicate Within(rounds: nat, t: Plain, t': Plain, n: nat) {
    Size(t') <= n && Amortized(rounds, t, t', 2 * Charge(n))
  }

  /** One operation of a sequence. */
  method Perform(head: SplayTree, op: Access) returns (ghost rounds: nat)
    requires head.Valid() && Allowed(op, head.local)
    modifies head`field, head`root, head`tree
    ensures head.Valid()
    ensures Within(rounds, old(head.tree), head.tree, old(Size(head.tree)) + if op.Insert? then 1 else 0)
  {
    match op {
      case Find(elm) =>
        var _, m := head.Find(elm);
        rounds := m;
      case Insert(elm) =>
        rounds := PerformInsert(head, elm);
      case Remove(elm) =>
        rounds := PerformRemove(head, elm);
      case MinMax(val) =>
        var _, m := head.MinMax(val);
        rounds := m;
    }
  }

  method PerformInsert(head: SplayTree, elm: Id) returns (ghost rounds: nat)
    requires head.Valid() && elm != 0 && elm != head.local
    modifies head`field, head`root, head`tree
    ensures head.Valid() && Within(rounds, old(head.tree), head.tree, old(Size(head.tree)) + 1)
  {
    ghost var n := Size(head.tree);
    var _, m := head.Insert(elm);
    ChargeGrows(Size(head.tree), n + 1);
    rounds := m;
  }

  method PerformRemove(head: SplayTree, elm: Id) returns (ghost rounds: nat)
    requires head.Valid() && elm != 0
    modifies head`field, head`root, head`tree
    ensures head.Valid() && Within(rounds, old(head.tree), head.tree, old(Size(head.tree)))
  {
    var _, m := head.Remove(elm);
    rounds := m;
  }

  /** The Balance Theorem: beyond the potential at the start, each operation takes a number of rounds that is
      logarithmic in the size the tree can have reached. */
  method AnySequence(head: SplayTree, ops: seq<Access>) returns (ghost rounds: nat)
    requires head.Valid() && forall op | op in ops :: Allowed(op, head.local)
    modifies head`field, head`root, head`tree
    ensures head.Valid() && Size(head.tree) <= old(Size(head.tree)) + Inserts(ops)
    ensures Amortized(rounds, old(head.tree), head.tree, |ops| * (2 * Charge(old(Size(head.tree)) + Inserts(ops))))
  {
    ghost var t0 := head.tree;
    ghost var charge := 2 * Charge(Size(t0) + Inserts(ops));
    rounds := 0;
    for i := 0 to |ops|
      invariant head.Valid() && Size(head.tree) <= Size(t0) + Inserts(ops[..i])
      invariant Amortized(rounds, t0, head.tree, i * charge)
    {
      ghost var t := head.tree;
      ghost var more := Perform(head, ops[i]);
      MoreInserts(ops, i);
      ChargeGrows(Size(t) + if ops[i].Insert? then 1 else 0, Size(t0) + Inserts(ops));
      OneMore(rounds, more, t0, t, head.tree, i, charge);
      rounds := rounds + more;
    }
    assert ops[..|ops|] == ops;
  }

  lemma {:induction false} MoreInserts(ops: seq<Access>, i: nat)
    requires i < |ops|
    ensures Inserts(ops[..i + 1]) == Inserts(ops[..i]) + (if ops[i].Insert? then 1 else 0) <= Inserts(ops)
    decreases |ops|
  {
    assert ops[..i + 1][..i] == ops[..i];
    if i + 1 < |ops| {
      MoreInserts(ops[..|ops| - 1], i);
      assert ops[..|ops| - 1][..i + 1] == ops[..i + 1];
      assert ops[..|ops| - 1][..i] == ops[..i];
    } else {
      assert ops[..i + 1] == ops;
    }
  }

  lemma OneMore(rounds: nat, more: nat, t0: Plain, t: Plain, t': Plain, i: nat, charge: nat)
    requires Amortized(rounds, t0, t, i * charge) && Amortized(more, t, t', charge)
    ensures Amortized(rounds + more, t0, t', (i + 1) * charge)
  {
    assert (i + 1) * charge == i * charge + charge;
  }

  /** From an empty tree nothing is left over: `m` operations, of which `n` insert a node, take no more than
      m * (12 * lg n + 4) rounds. */
  method FromEmpty(key: Id -> int, local: Id, ops: seq<Access>) returns (head: SplayTree, ghost rounds: nat)
    requires local != 0 && forall op | op in ops :: Allowed(op, local)
    ensures head.Valid() && fresh(head) && head.key == key
    ensures rounds <= |ops| * (12 * Rank(Inserts(ops)) + 4)
  {
    head := new SplayTree(key, local);
    assert head.tree.Leaf?;
    rounds := AnySequence(head, ops);
  }

  // ----- SPLAY_NEXT

  /** SPLAY_FOREACH visits every node once, in order. */
  method ForEach(head: SplayTree) returns (visited: seq<Id>)
    requires head.Valid()
    modifies head`field, head`root, head`tree
    ensures head.Valid() && visited == InOrder(head.tree) == old(InOrder(head.tree))
  {
    ghost var s := InOrder(head.tree);
    visited := [];
    var x := First(head);
    while x != 0
      invariant head.Valid() && InOrder(head.tree) == s
      invariant visited <= s && x == At(s, |visited|)
      decreases |s| - |visited|
    {
      visited := visited + [x];
      x := Following(head, x, s, |visited| - 1);
    }
    NoneIsZero(head.field, head.tree, s, |visited|);
    assert visited == s;
  }

  function At(s: seq<Id>, i: nat): Id {
    if i < |s| then s[i] else 0
  }

  lemma NoneIsZero(h: Fields, t: Plain, s: seq<Id>, i: nat)
    requires Held(h, t) && InOrder(t) == s && i <= |s|
    ensures At(s, i) != 0 <==> i < |s|
  {
    if i < |s| {
      IdsInOrder(t, s[i]);
      HeldNotZero(h, t, s[i]);
    }
  }

  /** SPLAY_MIN */
  method First(head: SplayTree) returns (x: Id)
    requires head.Valid()
    modifies head`field, head`root, head`tree
    ensures head.Valid() && InOrder(head.tree) == old(InOrder(head.tree)) && x == At(InOrder(head.tree), 0)
  {
    if head.root == 0 {
      NoneIsZero(head.field, head.tree, InOrder(head.tree), 0);
      x := 0;
    } else {
      var y, _ := head.MinMax(-1);
      x := y;
    }
  }

  method Following(head: SplayTree, x: Id, ghost s: seq<Id>, ghost i: nat) returns (y: Id)
    requires head.Valid() && InOrder(head.tree) == s && i < |s| && s[i] == x
    modifies head`field, head`root, head`tree
    ensures head.Valid() && InOrder(head.tree) == s && y == At(s, i + 1)
  {
    IdsInOrder(head.tree, x);
    var z, _, _ := head.Next(x);
    y := z;
  }

  /** The nodes 1 to `n`, inserted in this order. */
  function Chain(n: nat): Plain {
    if n == 0 then Leaf else Node((), Chain(n - 1), n, Leaf)
  }

  lemma ChainGrows(n: nat, cmp: Compare)
    requires forall x: Id :: cmp(x) == n + 1 - x
    ensures Inserted(Chain(n), n + 1, cmp) == Chain(n + 1)
  {
  }

  /** A splay for the first node halves the chain. */
  lemma {:induction false} ChainHalved(n: nat, cmp: Compare)
    requires n > 0 && forall x: Id :: cmp(x) == 1 - x
    ensures var v := Splayed(Chain(n), cmp); v.id == 1 && LeftDepth(v.right) == n / 2
  {
    if n > 2 {
      ChainHalved(n - 2, cmp);
    } else if n == 2 {
      assert Chain(2) == Node((), Chain(1), 2, Leaf) && Splayed(Chain(1), cmp) == Chain(1);
    }
  }

  /** SPLAY_NEXT is no access of logarithmic amortized cost: it walks down a subtree that its splay need not have
      touched. After `n` insertions and one search, each of `m` calls for the same node walks half the tree. */
  method NextWalksAgain(n: nat, m: nat) returns (head: SplayTree, ghost walked: nat)
    requires n > 0
    ensures head.Valid() && fresh(head) && Size(head.tree) == n && walked == m * (n / 2)
  {
    head := new SplayTree((x: Id) => x, n + 1);
    for i := 0 to n
      invariant head.Valid() && head.tree == Chain(i)
    {
      InsertLast(head, i);
    }
    FindFirst(head, n);
    walked := NextOften(head, n, m);
  }

  method NextOften(head: SplayTree, n: nat, m: nat) returns (ghost walked: nat)
    requires Walkable(head, n)
    modifies head`field, head`root, head`tree
    ensures Walkable(head, n) && walked == m * (n / 2)
  {
    walked := 0;
    for i := 0 to m
      invariant Walkable(head, n) && walked == i * (n / 2)
    {
      ghost var walk := NextOfFirst(head, n);
      walked := walked + walk;
      assert (i + 1) * (n / 2) == i * (n / 2) + n / 2;
    }
  }

  ghost predicate Numbered(head: SplayTree) {
    forall x: Id :: head.key(x) == x
  }

  method InsertLast(head: SplayTree, i: nat)
    requires head.Valid() && Numbered(head) && head.tree == Chain(i) && i + 1 < head.local
    modifies head`field, head`root, head`tree
    ensures head.Valid() && head.tree == Chain(i + 1)
  {
    ChainGrows(i, head.Toward(i + 1));
    var _, _ := head.Insert(i + 1);
  }

  ghost predicate Walkable(head: SplayTree, n: nat)
    reads head
  {
    && head.Valid() && Numbered(head) && Size(head.tree) == n
    && head.tree.Node? && head.tree.id == 1 && LeftDepth(head.tree.right) == n / 2
  }

  method FindFirst(head: SplayTree, n: nat)
    requires head.Valid() && Numbered(head) && head.tree == Chain(n) && n > 0
    modifies head`field, head`root, head`tree
    ensures Walkable(head, n)
  {
    ChainHalved(n, head.Toward(1));
    ChainSize(n);
    var _, _ := head.Find(1);
  }

  method NextOfFirst(head: SplayTree, n: nat) returns (ghost walk: nat)
    requires Walkable(head, n)
    modifies head`field, head`root, head`tree
    ensures Walkable(head, n) && walk == n / 2
  {
    assert head.Toward(1)(1) == 0;
    var _, _, w := head.Next(1);
    walk := w;
  }

  lemma {:induction false} ChainSize(n: nat)
    ensures Size(Chain(n)) == n
  {
    if n > 0 {
      ChainSize(n - 1);
    }
  }
}
