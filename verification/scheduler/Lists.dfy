/** Intrusive doubly linked lists: every task carries the nodes by which it hangs in a list. */
module Lists {
  import opened Seals
  import opened Sequences

  type Task = int

  /** The kernel's lists. The ready and the sleep list link the run nodes of tasks, the others their wait nodes. */
  datatype ListId = Ready | Sleep | MutexWait(mutex: int) | SemWait(sem: int)

  datatype Node = RunNode(task: Task) | WaitNode(task: Task)
  datatype Ptr = Null | To(node: Node)
  datatype Ends = Ends(pre: Ptr, next: Ptr)
  datatype Head = Head(first: Ptr, last: Ptr, count: int)

  predicate LinksRunNodes(l: ListId) { l.Ready? || l.Sleep? }

  /** The node by which a task hangs in a list. */
  function NodeOf(l: ListId, t: Task): Node {
    if LinksRunNodes(l) then RunNode(t) else WaitNode(t)
  }

  function PtrAt(l: ListId, s: seq<Task>, i: int): Ptr {
    if 0 <= i < |s| then To(NodeOf(l, s[i])) else Null
  }

  /** The nodes of the tasks `s`, linked both ways in this order. */
  predicate Chain(links: map<Node, Ends>, l: ListId, s: seq<Task>) {
    Distinct(s) && forall i | 0 <= i < |s| :: LinkedAt(links, l, s, i)
  }

  predicate LinkedAt(links: map<Node, Ends>, l: ListId, s: seq<Task>, i: int)
    requires 0 <= i < |s|
  {
    NodeOf(l, s[i]) in links && links[NodeOf(l, s[i])] == Ends(PtrAt(l, s, i - 1), PtrAt(l, s, i + 1))
  }

  predicate SameNode(links: map<Node, Ends>, links': map<Node, Ends>, n: Node) {
    n in links ==> n in links' && links'[n] == links[n]
  }

  /** A well linked list whose count is its length. */
  predicate ListOk(head: Head, links: map<Node, Ends>, l: ListId, s: seq<Task>) {
    head == Head(PtrAt(l, s, 0), PtrAt(l, s, |s| - 1), |s|) && Chain(links, l, s)
  }

  function Without(s: seq<Task>, i: int): seq<Task>
    requires 0 <= i < |s|
  {
    s[..i] + s[i + 1..]
  }

  // ----- what each operation does to the links

  lemma Appended(links: map<Node, Ends>, links': map<Node, Ends>, l: ListId, s: seq<Task>, t: Task)
    requires Chain(links, l, s) && t !in s
    requires forall i | 0 <= i < |s| - 1 :: SameNode(links, links', NodeOf(l, s[i]))
    requires s != [] ==>
      var n := NodeOf(l, s[|s| - 1]); n in links && n in links' && links'[n] == links[n].(next := To(NodeOf(l, t)))
    requires NodeOf(l, t) in links' && links'[NodeOf(l, t)] == Ends(PtrAt(l, s, |s| - 1), Null)
    ensures Chain(links', l, s + [t])
  {
    var u := s + [t];
    forall i | 0 <= i < |u|
      ensures LinkedAt(links', l, u, i)
    {
      if i < |s| {
        assert LinkedAt(links, l, s, i) && u[i] == s[i];
      }
    }
  }

  lemma Prepended(links: map<Node, Ends>, links': map<Node, Ends>, l: ListId, s: seq<Task>, t: Task)
    requires Chain(links, l, s) && t !in s
    requires forall i | 1 <= i < |s| :: SameNode(links, links', NodeOf(l, s[i]))
    requires s != [] ==>
      var n := NodeOf(l, s[0]); n in links && n in links' && links'[n] == links[n].(pre := To(NodeOf(l, t)))
    requires NodeOf(l, t) in links' && links'[NodeOf(l, t)] == Ends(Null, PtrAt(l, s, 0))
    ensures Chain(links', l, [t] + s)
  {
    var u := [t] + s;
    forall i | 0 <= i < |u|
      ensures LinkedAt(links', l, u, i)
    {
      if i > 0 {
        assert LinkedAt(links, l, s, i - 1) && u[i] == s[i - 1];
      }
    }
  }

  lemma PtrWithout(l: ListId, s: seq<Task>, k: int, i: int)
    requires 0 <= k < |s|
    ensures PtrAt(l, Without(s, k), i) == if i < k then PtrAt(l, s, i) else PtrAt(l, s, i + 1)
  {
  }

  /** The node at position `i` is linked as if the one at position `k` were not there. */
  predicate Bypasses(links': map<Node, Ends>, l: ListId, s: seq<Task>, k: int, i: int)
    requires 0 <= i < |s|
  {
    NodeOf(l, s[i]) in links' && links'[NodeOf(l, s[i])] == Ends(
      PtrAt(l, s, if i == k + 1 then k - 1 else i - 1), PtrAt(l, s, if i == k - 1 then k + 1 else i + 1))
  }

  lemma BypassedAt(links': map<Node, Ends>, l: ListId, s: seq<Task>, k: int, i: int)
    requires 0 <= k < |s| && 0 <= i < |s| - 1 && Bypasses(links', l, s, k, if i < k then i else i + 1)
    ensures LinkedAt(links', l, Without(s, k), i)
  {
    PtrWithout(l, s, k, i - 1);
    PtrWithout(l, s, k, i + 1);
    assert Without(s, k)[i] == s[if i < k then i else i + 1];
  }

  /** The neighbours of the task at position `k` link to each other. */
  lemma TakenOut(links: map<Node, Ends>, links': map<Node, Ends>, l: ListId, s: seq<Task>, k: int)
    requires Chain(links, l, s) && 0 <= k < |s|
    requires forall i | 0 <= i < |s| && i != k :: Bypasses(links', l, s, k, i)
    ensures Chain(links', l, Without(s, k))
  {
    forall i | 0 <= i < |Without(s, k)|
      ensures LinkedAt(links', l, Without(s, k), i)
    {
      assert Bypasses(links', l, s, k, if i < k then i else i + 1);
      BypassedAt(links', l, s, k, i);
    }
    WithoutDistinct(s, k);
  }

  lemma WithoutDistinct(s: seq<Task>, k: int)
    requires Distinct(s) && 0 <= k < |s|
    ensures Distinct(Without(s, k)) && s[k] !in Without(s, k)
    ensures forall t | t != s[k] :: t in Without(s, k) <==> t in s
  {
    var u := Without(s, k);
    assert forall i | 0 <= i < |u| :: u[i] == s[if i < k then i else i + 1];
    forall t | t != s[k] && t in s
      ensures t in u
    {
      var i :| 0 <= i < |s| && s[i] == t;
      assert u[if i < k then i else i - 1] == t;
    }
  }

  lemma ChainKept(links: map<Node, Ends>, links': map<Node, Ends>, l: ListId, s: seq<Task>)
    requires Chain(links, l, s)
    requires forall t | t in s :: SameNode(links, links', NodeOf(l, t))
    ensures Chain(links', l, s)
  {
    forall i | 0 <= i < |s|
      ensures LinkedAt(links', l, s, i)
    {
      assert LinkedAt(links, l, s, i);
    }
  }

  /** All lists are well linked, and lists over the same kind of node share no task. */
  ghost predicate AllLinked(heads: map<ListId, Head>, links: map<Node, Ends>, contents: map<ListId, seq<Task>>) {
    && heads.Keys == contents.Keys
    && forall seal: Seal {:trigger Unfolded(seal)} | Unfolded(seal) ::
         (forall l | l in contents :: ListOk(heads[l], links, l, contents[l])) && Apart(contents)
  }

  predicate Apart(contents: map<ListId, seq<Task>>) {
    forall l, l' | l in contents && l' in contents && l != l' && LinksRunNodes(l) == LinksRunNodes(l') ::
      Disjoint(contents[l], contents[l'])
  }

  predicate Disjoint(s: seq<Task>, u: seq<Task>) {
    forall t | t in s :: t !in u
  }

  lemma DistinctJoined(s: seq<Task>, u: seq<Task>)
    requires Distinct(s) && Distinct(u) && Disjoint(s, u)
    ensures Distinct(s + u)
  {
    var w := s + u;
    forall i, j | 0 <= i < j < |w|
      ensures w[i] != w[j]
    {
      assert i < |s| ==> w[i] in s;
      assert j >= |s| ==> w[j] == u[j - |s|] && w[j] in u;
    }
  }

  /** The task hangs in no list by the kind of node that list `l` links. */
  predicate Free(contents: map<ListId, seq<Task>>, l: ListId, t: Task) {
    forall l' | l' in contents && LinksRunNodes(l') == LinksRunNodes(l) :: t !in contents[l']
  }

  /** Only nodes of tasks in list `l` or of `t` were written. */
  lemma OtherLists(heads: map<ListId, Head>, links: map<Node, Ends>, contents: map<ListId, seq<Task>>,
                   head': Head, links': map<Node, Ends>, l: ListId, s': seq<Task>, t: Task)
    requires AllLinked(heads, links, contents) && l in contents && (t in contents[l] || Free(contents, l, t))
    requires forall n | n != NodeOf(l, t) && n !in Nodes(l, contents[l]) :: SameNode(links, links', n)
    requires ListOk(head', links', l, s') && forall u | u in s' :: u in contents[l] || u == t
    ensures AllLinked(heads[l := head'], links', contents[l := s'])
  {
    assert Unfolded(Seal);
    forall l' | l' in contents && l' != l
      ensures ListOk(heads[l'], links', l', contents[l'])
    {
      OtherChain(heads, links, contents, links', l, t, l');
    }
  }

  lemma OtherChain(heads: map<ListId, Head>, links: map<Node, Ends>, contents: map<ListId, seq<Task>>,
                   links': map<Node, Ends>, l: ListId, t: Task, l': ListId)
    requires AllLinked(heads, links, contents) && l in contents && (t in contents[l] || Free(contents, l, t))
    requires forall n | n != NodeOf(l, t) && n !in Nodes(l, contents[l]) :: SameNode(links, links', n)
    requires l' in contents && l' != l
    ensures l' in heads && ListOk(heads[l'], links', l', contents[l'])
  {
    assert Unfolded(Seal);
    forall u | u in contents[l']
      ensures SameNode(links, links', NodeOf(l', u))
    {
      assert NodeOf(l', u) != NodeOf(l, t);
      assert NodeOf(l', u) !in Nodes(l, contents[l]);
    }
    ChainKept(links, links', l', contents[l']);
  }

  ghost function Nodes(l: ListId, s: seq<Task>): set<Node> {
    set t | t in s :: NodeOf(l, t)
  }

  class ListStore {
    var heads: map<ListId, Head>
    var links: map<Node, Ends>
    /** The tasks in each list, first to last. */
    ghost var contents: map<ListId, seq<Task>>

    ghost predicate Valid()
      reads this
    {
      AllLinked(heads, links, contents)
    }

    /** list_init for every list of the kernel */
    constructor (lists: set<ListId>)
      ensures Valid() && contents == map l | l in lists :: []
    {
      heads := map l | l in lists :: Head(Null, Null, 0);
      links := map[];
      contents := map l | l in lists :: [];
    }

    lemma ListKnown(l: ListId)
      requires Valid() && l in contents
      ensures l in heads && ListOk(heads[l], links, l, contents[l])
    {
      assert Unfolded(Seal);
    }

    method SetPre(n: Node, p: Ptr)
      requires n in links
      modifies this`links
      ensures links == old(links)[n := old(links)[n].(pre := p)]
    {
      links := links[n := links[n].(pre := p)];
    }

    method SetNext(n: Node, p: Ptr)
      requires n in links
      modifies this`links
      ensures links == old(links)[n := old(links)[n].(next := p)]
    {
      links := links[n := links[n].(next := p)];
    }

    /** list_insert_last */
    method InsertLast(l: ListId, t: Task)
      requires Valid() && l in contents && Free(contents, l, t)
      modifies this
      ensures Valid() && contents == old(contents)[l := old(contents[l]) + [t]]
    {
      ghost var h, k, c, s := heads, links, contents, contents[l];
      ListKnown(l);
      var n := NodeOf(l, t);
      var head := heads[l];
      links := links[n := Ends(head.last, Null)];
      if head.count == 0 {
        head := head.(first := To(n), last := To(n));
      } else {
        assert LinkedAt(k, l, s, |s| - 1);
        SetNext(head.last.node, To(n));
        head := head.(last := To(n));
      }
      head := head.(count := head.count + 1);
      heads := heads[l := head];
      NodesDiffer(l, s, t);
      Appended(k, links, l, s, t);
      contents := contents[l := s + [t]];
      OtherLists(h, k, c, head, links, l, s + [t], t);
    }

    /** list_insert_first */
    method InsertFirst(l: ListId, t: Task)
      requires Valid() && l in contents && Free(contents, l, t)
      modifies this
      ensures Valid() && contents == old(contents)[l := [t] + old(contents[l])]
    {
      ghost var h, k, c, s := heads, links, contents, contents[l];
      ListKnown(l);
      var n := NodeOf(l, t);
      var head := heads[l];
      links := links[n := Ends(Null, head.first)];
      if head.count == 0 {
        head := head.(first := To(n), last := To(n));
      } else {
        assert LinkedAt(k, l, s, 0);
        SetPre(head.first.node, To(n));
        head := head.(first := To(n));
      }
      head := head.(count := head.count + 1);
      heads := heads[l := head];
      NodesDiffer(l, s, t);
      Prepended(k, links, l, s, t);
      contents := contents[l := [t] + s];
      OtherLists(h, k, c, head, links, l, [t] + s, t);
    }

    /** list_remove_first: the task at the head, if there is one. */
    method RemoveFirst(l: ListId) returns (p: Ptr)
      requires Valid() && l in contents
      modifies this
      ensures Valid()
      ensures old(contents[l]) == [] ==> p == Null && contents == old(contents)
      ensures old(contents[l]) != [] ==>
        && p == To(NodeOf(l, old(contents[l])[0]))
        && contents == old(contents)[l := old(contents[l])[1..]]
    {
      ghost var h, k, c, s := heads, links, contents, contents[l];
      ListKnown(l);
      var head := heads[l];
      if head.count == 0 {
        return Null;
      }
      assert LinkedAt(k, l, s, 0) && (|s| > 1 ==> LinkedAt(k, l, s, 1));
      NodesDiffer(l, s, s[0]);
      p := head.first;
      var n := p.node;
      head := head.(first := links[n].next);
      if head.first == Null {
        head := head.(last := Null);
      } else {
        SetPre(links[n].next.node, Null);
      }
      ghost var k1, t, s' := links, s[0], s[1..];
      links := links[n := Ends(Null, Null)];
      head := head.(count := head.count - 1);
      assert s' == Without(s, 0);
      TaskUnhooked(h[l], k, k, k1, l, s, 0, s', head);
      heads := heads[l := head];
      contents := contents[l := s'];
      OtherLists(h, k, c, head, links, l, s', t);
    }

    /** list_remove of a task that is in the list */
    method Remove(l: ListId, t: Task, ghost at: int)
      requires Valid() && l in contents && 0 <= at < |contents[l]| && contents[l][at] == t
      modifies this
      ensures Valid() && contents == old(contents)[l := Without(old(contents[l]), at)]
    {
      ghost var h, k, c, s := heads, links, contents, contents[l];
      ListKnown(l);
      assert LinkedAt(k, l, s, at);
      assert at > 0 ==> LinkedAt(k, l, s, at - 1);
      assert at < |s| - 1 ==> LinkedAt(k, l, s, at + 1);
      NodesDiffer(l, s, t);
      var n := NodeOf(l, t);
      var head := heads[l];
      if To(n) == head.first {
        head := head.(first := links[n].next);
      }
      if To(n) == head.last {
        head := head.(last := links[n].pre);
      }
      if links[n].pre != Null {
        SetNext(links[n].pre.node, links[n].next);
      }
      ghost var k1 := links;
      if links[n].next != Null {
        SetPre(links[n].next.node, links[n].pre);
      }
      ghost var k2, s' := links, Without(s, at);
      links := links[n := Ends(Null, Null)];
      head := head.(count := head.count - 1);
      TaskUnhooked(h[l], k, k1, k2, l, s, at, s', head);
      heads := heads[l := head];
      contents := contents[l := s'];
      OtherLists(h, k, c, head, links, l, s', t);
    }
  }

  /** The writes that unhook the task at position `k`: the link from before, the link from behind, its own links. */
  lemma Unhooked(links: map<Node, Ends>, k1: map<Node, Ends>, k2: map<Node, Ends>, l: ListId, s: seq<Task>, k: int)
    requires Chain(links, l, s) && 0 <= k < |s|
    requires if k == 0 then k1 == links
      else var n := NodeOf(l, s[k - 1]); n in links && k1 == links[n := links[n].(next := PtrAt(l, s, k + 1))]
    requires if k == |s| - 1 then k2 == k1
      else var n := NodeOf(l, s[k + 1]); n in k1 && k2 == k1[n := k1[n].(pre := PtrAt(l, s, k - 1))]
    ensures var links' := k2[NodeOf(l, s[k]) := Ends(Null, Null)];
      && Chain(links', l, Without(s, k))
      && (forall n | n !in Nodes(l, s) :: SameNode(links, links', n))
    ensures PtrAt(l, Without(s, k), 0) == if k == 0 then PtrAt(l, s, 1) else PtrAt(l, s, 0)
    ensures PtrAt(l, Without(s, k), |Without(s, k)| - 1) == if k == |s| - 1 then PtrAt(l, s, |s| - 2)
      else PtrAt(l, s, |s| - 1)
    ensures forall t | t in Without(s, k) :: t in s
  {
    var links' := k2[NodeOf(l, s[k]) := Ends(Null, Null)];
    NodesDiffer(l, s, s[k]);
    assert k > 0 ==> LinkedAt(links, l, s, k - 1);
    assert k < |s| - 1 ==> LinkedAt(links, l, s, k + 1);
    ChainWithout(links, links', l, s, k);
  }

  /** With the head that goes with it, the list is well linked. */
  lemma TaskUnhooked(head: Head, links: map<Node, Ends>, k1: map<Node, Ends>, k2: map<Node, Ends>, l: ListId,
      s: seq<Task>, k: int, s': seq<Task>, head': Head)
    requires ListOk(head, links, l, s) && 0 <= k < |s| && s' == Without(s, k)
    requires if k == 0 then k1 == links
      else var n := NodeOf(l, s[k - 1]); n in links && k1 == links[n := links[n].(next := PtrAt(l, s, k + 1))]
    requires if k == |s| - 1 then k2 == k1
      else var n := NodeOf(l, s[k + 1]); n in k1 && k2 == k1[n := k1[n].(pre := PtrAt(l, s, k - 1))]
    requires head' == Head(if k == 0 then PtrAt(l, s, 1) else head.first,
      if k == |s| - 1 then PtrAt(l, s, |s| - 2) else head.last, |s| - 1)
    ensures var links' := k2[NodeOf(l, s[k]) := Ends(Null, Null)];
      && ListOk(head', links', l, s')
      && (forall n | n !in Nodes(l, s) :: SameNode(links, links', n))
    ensures forall t | t in s' :: t in s
  {
    Unhooked(links, k1, k2, l, s, k);
  }

  /** The task at position `k` was unhooked: only it and its neighbours were written. */
  lemma ChainWithout(links: map<Node, Ends>, links': map<Node, Ends>, l: ListId, s: seq<Task>, k: int)
    requires Chain(links, l, s) && 0 <= k < |s|
    requires k > 0 ==> Bypasses(links', l, s, k, k - 1)
    requires k < |s| - 1 ==> Bypasses(links', l, s, k, k + 1)
    requires forall i | 0 <= i < |s| && i != k - 1 && i != k && i != k + 1 :: SameNode(links, links', NodeOf(l, s[i]))
    ensures Chain(links', l, Without(s, k))
    ensures PtrAt(l, Without(s, k), 0) == if k == 0 then PtrAt(l, s, 1) else PtrAt(l, s, 0)
    ensures PtrAt(l, Without(s, k), |Without(s, k)| - 1) == if k == |s| - 1 then PtrAt(l, s, |s| - 2)
      else PtrAt(l, s, |s| - 1)
    ensures forall t | t in Without(s, k) :: t in s
  {
    forall i | 0 <= i < |s| && i != k
      ensures Bypasses(links', l, s, k, i)
    {
      assert LinkedAt(links, l, s, i);
    }
    TakenOut(links, links', l, s, k);
    WithoutDistinct(s, k);
  }

  lemma NodesDiffer(l: ListId, s: seq<Task>, t: Task)
    requires Distinct(s)
    ensures t !in s ==> forall i | 0 <= i < |s| :: NodeOf(l, s[i]) != NodeOf(l, t)
    ensures forall i, j | 0 <= i < j < |s| :: NodeOf(l, s[i]) != NodeOf(l, s[j])
    ensures forall i | 0 <= i < |s| :: NodeOf(l, s[i]) in Nodes(l, s)
  {
  }
}
