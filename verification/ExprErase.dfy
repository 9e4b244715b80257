/**
 * Expr::FlattenedErase (common/expr.cc): taking an expression apart without recursion. Every node is first
 * linked into one list through the word that held its id, children after their parents; then the list is
 * walked from its end, clearing each node when nothing is left below it.
 */
module ExprErase {
  import opened Results

  /** The kinds by what they own, in the order Expand takes their children in. */
  datatype NodeKind =
    | Leaf
    | Select(operand: Option<Node>)
    | Call(target: Option<Node>, args: seq<Node>)
    | List(elements: seq<Node>)
    | Struct(values: seq<Node>)
    | Map(entries: seq<(Node, Node)>)
    | Comprehension(accuInit: Option<Node>, iterRange: Option<Node>, loopCondition: Option<Node>,
        loopStep: Option<Node>, result: Option<Node>)

  function One(o: Option<Node>): seq<Node> {
    if o.Some? then [o.value] else []
  }

  function EntryNodes(entries: seq<(Node, Node)>): seq<Node>
    decreases |entries|
  {
    if entries == [] then []
    else
      var last := entries[|entries| - 1];
      EntryNodes(entries[..|entries| - 1]) + [last.0, last.1]
  }

  function Children(kind: NodeKind): seq<Node> {
    match kind
    case Leaf => []
    case Select(operand) => One(operand)
    case Call(target, args) => One(target) + args
    case List(elements) => elements
    case Struct(values) => values
    case Map(entries) => EntryNodes(entries)
    case Comprehension(a, b, c, d, e) => One(a) + One(b) + One(c) + One(d) + One(e)
  }

  /** The word that holds the id, or, while erasing, the next node of the list. */
  datatype Word = Id(id: int) | Next(node: Node?)

  class Node {
    var u: Word
    var kind: NodeKind

    constructor (id: int, kind: NodeKind)
      ensures u == Id(id) && this.kind == kind
    {
      u := Id(id);
      this.kind := kind;
    }

    method SetNext(next: Node?)
      modifies this`u
      ensures u == Next(next)
    {
      u := Next(next);
    }

    /** Ends the life of the node's children: their destructors must find nothing to destroy. */
    method Clear(ghost dead: set<Node>) returns (ghost nowDead: set<Node>)
      requires this !in dead && forall c | c in Children(kind) :: c !in dead && c.kind == Leaf
      modifies this
      ensures u == Id(0) && kind == Leaf
      ensures nowDead == dead + set c | c in Children(old(kind))
    {
      nowDead := dead + set c | c in Children(kind);
      u := Id(0);
      kind := Leaf;
    }
  }

  // ---------- the tree ----------

  ghost predicate Distinct(nodes: seq<Node>) {
    forall i, j | 0 <= i < j < |nodes| :: nodes[i] != nodes[j]
  }

  /** What the nodes form before anything is erased: who owns them, what they own, and how deep they are. */
  datatype Tree = Tree(
    root: Node, all: set<Node>, parent: map<Node, Node>, owned: map<Node, seq<Node>>, depth: map<Node, nat>)
  {
    ghost function Owned(n: Node): seq<Node> {
      if n in owned then owned[n] else []
    }

    ghost function Parent(n: Node): Node? {
      if n in parent then parent[n] else null
    }

    ghost function Depth(n: Node): nat {
      if n in depth then depth[n] else 0
    }
  }

  /** What a node owns is in the tree, each part once, one level further down. */
  ghost predicate Owns(t: Tree, n: Node) {
    && Distinct(t.Owned(n))
    && forall c | c in t.Owned(n) :: c in t.all && t.Parent(c) == n && t.Depth(c) == t.Depth(n) + 1
  }

  ghost predicate HasOwner(t: Tree, c: Node) {
    t.Parent(c) != null && t.Parent(c) in t.all && c in t.Owned(t.Parent(c))
  }

  /** Each node other than the root is owned once, by its parent. */
  ghost predicate IsTree(t: Tree) {
    && t.root in t.all && t.Parent(t.root) == null && t.Depth(t.root) == 0
    && t.parent.Keys <= t.all && t.owned.Keys <= t.all && t.depth.Keys <= t.all
    && (forall n {:trigger Owns(t, n)} | n in t.all :: Owns(t, n))
    && (forall c {:trigger HasOwner(t, c)} | c in t.all && c != t.root :: HasOwner(t, c))
  }

  ghost predicate Untouched(t: Tree)
    reads t.all
  {
    forall n | n in t.all :: Children(n.kind) == t.Owned(n)
  }

  // ---------- the list ----------

  /** The nodes linked so far, oldest first: each links to the one before it. */
  ghost predicate Linked(list: seq<Node>)
    reads list
  {
    && Distinct(list)
    && forall i | 0 <= i < |list| :: list[i].u == Next(if i == 0 then null else list[i - 1])
  }

  ghost predicate EndsAt(list: seq<Node>, tail: Node)
    reads list
  {
    list != [] && tail == list[|list| - 1] && Linked(list)
  }

  ghost function Nodes(list: seq<Node>): set<Node> {
    set n | n in list
  }

  lemma NodesJoin(a: seq<Node>, b: seq<Node>)
    ensures Nodes(a + b) == Nodes(a) + Nodes(b)
  {
  }

  /** Linking one more node. */
  method Link(tail: Node, c: Node, ghost list: seq<Node>) returns (newTail: Node)
    requires EndsAt(list, tail) && c !in list
    modifies c`u
    ensures newTail == c && EndsAt(list + [c], c)
  {
    assert forall i | 0 <= i < |list| :: list[i] in list;
    c.SetNext(tail);
    newTail := c;
  }

  lemma FreshAfter(list: seq<Node>, nodes: seq<Node>, i: nat)
    requires Distinct(list + nodes) && i < |nodes|
    ensures nodes[i] !in list + nodes[..i]
  {
    var all := list + nodes;
    assert all[|list| + i] == nodes[i];
    forall k | 0 <= k < |list| + i ensures (list + nodes[..i])[k] != nodes[i] {
      assert (list + nodes[..i])[k] == all[k];
    }
  }

  method LinkAll(tail: Node, nodes: seq<Node>, ghost list: seq<Node>) returns (newTail: Node)
    requires EndsAt(list, tail) && Distinct(list + nodes)
    modifies Nodes(nodes)`u
    ensures EndsAt(list + nodes, newTail)
  {
    newTail := tail;
    assert list + nodes[..0] == list;
    for i := 0 to |nodes|
      invariant EndsAt(list + nodes[..i], newTail)
    {
      assert list + nodes[..i + 1] == list + nodes[..i] + [nodes[i]];
      FreshAfter(list, nodes, i);
      newTail := Link(newTail, nodes[i], list + nodes[..i]);
    }
    assert nodes[..|nodes|] == nodes;
  }

  /** Expand: links what a node owns, in the order of its kind. */
  method Expand(tail: Node, cur: Node, ghost list: seq<Node>) returns (newTail: Node)
    requires EndsAt(list, tail) && Distinct(list + Children(cur.kind))
    modifies Nodes(Children(cur.kind))`u
    ensures EndsAt(list + Children(cur.kind), newTail)
  {
    match cur.kind {
      case Select(operand) =>
        newTail := LinkAll(tail, One(operand), list);
      case Call(target, args) =>
        assert list + Children(cur.kind) == list + One(target) + args;
        DistinctFront(list + One(target), args);
        NodesJoin(One(target), args);
        newTail := LinkAll(tail, One(target), list);
        newTail := LinkAll(newTail, args, list + One(target));
      case List(elements) =>
        newTail := LinkAll(tail, elements, list);
      case Struct(values) =>
        newTail := LinkAll(tail, values, list);
      case Map(entries) =>
        newTail := LinkEntries(tail, entries, list);
      case Comprehension(a, b, c, d, e) =>
        newTail := LinkFive(tail, a, b, c, d, e, list);
      case Leaf =>
        assert list + [] == list;
        newTail := tail;
    }
  }

  lemma DistinctFront(a: seq<Node>, b: seq<Node>)
    requires Distinct(a + b)
    ensures Distinct(a)
  {
    forall i, j | 0 <= i < j < |a| ensures a[i] != a[j] {
      assert (a + b)[i] == a[i] && (a + b)[j] == a[j];
    }
  }

  lemma EntryNodesNext(entries: seq<(Node, Node)>, i: nat)
    requires i < |entries|
    ensures EntryNodes(entries[..i + 1]) == EntryNodes(entries[..i]) + [entries[i].0, entries[i].1]
  {
    assert entries[..i + 1][..i] == entries[..i];
  }

  lemma EntryStep(list: seq<Node>, entries: seq<(Node, Node)>, i: nat)
    requires Distinct(list + EntryNodes(entries)) && i < |entries|
    ensures
      var before, pair := list + EntryNodes(entries[..i]), [entries[i].0, entries[i].1];
      && before + pair == list + EntryNodes(entries[..i + 1]) && Distinct(before + pair)
      && Nodes(pair) <= Nodes(EntryNodes(entries))
  {
    hide Distinct;
    hide EntryNodes;
    var before, pair := list + EntryNodes(entries[..i]), [entries[i].0, entries[i].1];
    EntryNodesNext(entries, i);
    assert before + pair == list + EntryNodes(entries[..i + 1]);
    EntryPart(entries, i + 1);
    var part, whole := EntryNodes(entries[..i + 1]), EntryNodes(entries);
    PrefixDistinct(list, part, whole);
    EntriesHold(entries, i);
  }

  lemma PrefixDistinct(list: seq<Node>, part: seq<Node>, whole: seq<Node>)
    requires part <= whole && Distinct(list + whole)
    ensures Distinct(list + part)
  {
    var rest := whole[|part|..];
    assert list + whole == list + part + rest;
    DistinctFront(list + part, rest);
  }

  method LinkEntries(tail: Node, entries: seq<(Node, Node)>, ghost list: seq<Node>) returns (newTail: Node)
    requires EndsAt(list, tail) && Distinct(list + EntryNodes(entries))
    modifies Nodes(EntryNodes(entries))`u
    ensures EndsAt(list + EntryNodes(entries), newTail)
  {
    hide Distinct;
    hide EndsAt;
    hide Nodes;
    newTail := tail;
    assert list + EntryNodes(entries[..0]) == list;
    for i := 0 to |entries|
      invariant EndsAt(list + EntryNodes(entries[..i]), newTail)
    {
      var pair := [entries[i].0, entries[i].1];
      EntryStep(list, entries, i);
      newTail := LinkAll(newTail, pair, list + EntryNodes(entries[..i]));
    }
    assert entries[..|entries|] == entries;
  }

  lemma {:induction false} EntriesHold(entries: seq<(Node, Node)>, i: nat)
    requires i < |entries|
    ensures entries[i].0 in EntryNodes(entries) && entries[i].1 in EntryNodes(entries)
    decreases |entries|
  {
    var n := |entries| - 1;
    var init := EntryNodes(entries[..n]);
    if i < n {
      EntriesHold(entries[..n], i);
      assert forall x | x in init :: x in EntryNodes(entries);
    } else {
      assert EntryNodes(entries)[|init|] == entries[i].0 && EntryNodes(entries)[|init| + 1] == entries[i].1;
    }
  }

  lemma {:induction false} EntryPart(entries: seq<(Node, Node)>, k: nat)
    requires k <= |entries|
    ensures EntryNodes(entries[..k]) <= EntryNodes(entries)
    decreases |entries|
  {
    if k < |entries| {
      EntryPart(entries[..|entries| - 1], k);
      assert entries[..|entries| - 1][..k] == entries[..k];
    } else {
      assert entries[..k] == entries;
    }
  }

  /** A comprehension's fields, each if it is there. */
  method LinkFive(tail: Node, a: Option<Node>, b: Option<Node>, c: Option<Node>, d: Option<Node>, e: Option<Node>,
      ghost list: seq<Node>) returns (newTail: Node)
    requires EndsAt(list, tail) && Distinct(list + (One(a) + One(b) + One(c) + One(d) + One(e)))
    modifies Nodes(One(a) + One(b) + One(c) + One(d) + One(e))`u
    ensures EndsAt(list + (One(a) + One(b) + One(c) + One(d) + One(e)), newTail)
  {
    NodesJoin(One(a), One(b));
    NodesJoin(One(a) + One(b), One(c));
    NodesJoin(One(a) + One(b) + One(c), One(d));
    NodesJoin(One(a) + One(b) + One(c) + One(d), One(e));
    hide Nodes;
    hide One;
    ghost var l1, l2, l3, l4 := list + One(a), list + One(a) + One(b), list + One(a) + One(b) + One(c),
      list + One(a) + One(b) + One(c) + One(d);
    assert list + (One(a) + One(b) + One(c) + One(d) + One(e)) == l4 + One(e);
    DistinctFront(l4, One(e));
    DistinctFront(l3, One(d));
    DistinctFront(l2, One(c));
    DistinctFront(l1, One(b));
    newTail := LinkAll(tail, One(a), list);
    newTail := LinkAll(newTail, One(b), l1);
    newTail := LinkAll(newTail, One(c), l2);
    newTail := LinkAll(newTail, One(d), l3);
    newTail := LinkAll(newTail, One(e), l4);
  }

  // ---------- erasing ----------

  /** What has been listed is listed after its parent, and what has been expanded has all it owns listed. */
  ghost predicate Grounded(t: Tree, list: seq<Node>, done: set<Node>) {
    && Distinct(list) && list != [] && list[0] == t.root
    && (forall i | 0 <= i < |list| :: list[i] in t.all)
    && (forall i | 0 < i < |list| ::
      t.Parent(list[i]) != null && t.Parent(list[i]) in done && t.Parent(list[i]) in list[..i])
    && (forall n, c | n in done && c in t.Owned(n) :: c in list)
  }

  /** Nothing that a node not yet expanded owns is in the list. */
  lemma OwnedIsNew(t: Tree, list: seq<Node>, done: set<Node>, n: Node)
    requires IsTree(t) && Grounded(t, list, done) && n in list && n !in done
    ensures Distinct(list + t.Owned(n)) && Nodes(t.Owned(n)) !! Nodes(list) && Nodes(t.Owned(n)) <= t.all
  {
    assert Owns(t, n);
    forall c | c in t.Owned(n) ensures c !in list && c in t.all {
      assert forall i | 0 <= i < |list| :: list[i] != c;
    }
    forall i, j | 0 <= i < j < |list + t.Owned(n)| ensures (list + t.Owned(n))[i] != (list + t.Owned(n))[j] {
      if i < |list| <= j {
        assert t.Owned(n)[j - |list|] in t.Owned(n);
      }
    }
  }

  lemma GroundedAfter(t: Tree, list: seq<Node>, done: set<Node>, n: Node)
    requires IsTree(t) && Grounded(t, list, done) && n in list && n !in done
    ensures Grounded(t, list + t.Owned(n), done + {n})
  {
    OwnedIsNew(t, list, done, n);
    hide IsTree;
    var more := list + t.Owned(n);
    forall i | 0 < i < |more|
      ensures t.Parent(more[i]) != null && t.Parent(more[i]) in done + {n} && t.Parent(more[i]) in more[..i]
        && more[i] in t.all
    {
      if i < |list| {
        assert more[..i] == list[..i];
      } else {
        assert more[i] in t.Owned(n);
        OwnedBy(t, n, more[i]);
        assert list <= more[..i];
        StillIn(list, more[..i], n);
      }
    }
    forall x, c | x in done + {n} && c in t.Owned(x) ensures c in more {
      assert x in done ==> c in list;
    }
  }

  lemma OwnedBy(t: Tree, n: Node, c: Node)
    requires IsTree(t) && n in t.all && c in t.Owned(n)
    ensures c in t.all && t.Parent(c) == n
  {
    assert Owns(t, n);
  }

  lemma StillIn(list: seq<Node>, longer: seq<Node>, n: Node)
    requires list <= longer && n in list
    ensures n in longer
  {
    var k :| 0 <= k < |list| && list[k] == n;
    assert longer[k] == n;
  }

  lemma {:induction false} AllListed(t: Tree, list: seq<Node>, c: Node)
    requires IsTree(t) && Grounded(t, list, Nodes(list)) && c in t.all
    ensures c in list
    decreases t.Depth(c)
  {
    if c != t.root {
      assert HasOwner(t, c) && Owns(t, t.Parent(c));
      AllListed(t, list, t.Parent(c));
    }
  }

  lemma {:induction false} ListFits(all: set<Node>, list: seq<Node>)
    requires Distinct(list) && forall i | 0 <= i < |list| :: list[i] in all
    ensures |list| <= |all|
    decreases |list|
  {
    if list != [] {
      var last := list[|list| - 1];
      var rest := list[..|list| - 1];
      forall i | 0 <= i < |rest| ensures rest[i] in all - {last} {
        assert rest[i] == list[i];
      }
      ListFits(all - {last}, rest);
    }
  }

  /** Lists every node of the tree once, descendants after ancestors. */
  method Flatten(root: Node, ghost t: Tree) returns (tail: Node, ghost list: seq<Node>)
    requires t.root == root && IsTree(t) && Untouched(t)
    modifies t.all`u
    ensures EndsAt(list, tail) && Grounded(t, list, Nodes(list)) && Nodes(list) == t.all && Untouched(t)
  {
    hide Grounded;
    hide IsTree;
    hide Distinct;
    assert t.root in t.all by {
      Start(t);
    }
    root.SetNext(null);
    list := [root];
    tail := root;
    var prevTail: Node? := null;
    ghost var done: set<Node> := {};
    ghost var a := 0;
    Start(t);
    StartLinked(root);
    while tail != prevTail
      invariant EndsAt(list, tail) && Grounded(t, list, done)
      invariant a <= |list| && prevTail == (if a == 0 then null else list[a - 1]) && done == Nodes(list[..a])
      decreases |t.all| - a
    {
      GroundedFits(t, list, done);
      ghost var b := |list|;
      var nextPrevTail := tail;
      tail, list, done := ExpandLevel(t, tail, prevTail, list, done, a);
      prevTail := nextPrevTail;
      a := b;
    }
    AllDone(t, list, done, a);
  }

  /** The inner loop: expands the nodes linked since the previous level, from the newest back. */
  method ExpandLevel(ghost t: Tree, tail0: Node, prevTail: Node?, ghost list0: seq<Node>,
      ghost done0: set<Node>, ghost a: nat) returns (tail: Node, ghost list: seq<Node>, ghost done: set<Node>)
    requires IsTree(t) && Untouched(t)
    requires EndsAt(list0, tail0) && Grounded(t, list0, done0)
    requires a < |list0| && prevTail == (if a == 0 then null else list0[a - 1]) && done0 == Nodes(list0[..a])
    modifies t.all`u
    ensures EndsAt(list, tail) && Grounded(t, list, done)
    ensures list0 <= list && done == Nodes(list0)
  {
    hide Children;
    hide Grounded;
    hide IsTree;
    hide Distinct;
    hide EndsAt;
    hide Nodes;
    hide Untouched;
    tail, list, done := tail0, list0, done0;
    DistinctList(list0, tail0);
    NothingAfter(list0, a);
    var expandPtr: Node? := tail;
    ghost var i := |list0|;
    while expandPtr != prevTail
      invariant a <= i <= |list0| && list0 <= list
      invariant Untouched(t) && EndsAt(list, tail) && Grounded(t, list, done)
      invariant expandPtr == if i == 0 then null else list0[i - 1]
      invariant done == Nodes(list0[..a]) + Nodes(list0[i..])
      decreases i
    {
      BeforeExpanding(t, list0, list, done, tail, a, i);
      var nextExpandPtr := expandPtr.u.node;
      tail := ExpandOne(t, tail, expandPtr, list, done);
      list := list + t.Owned(expandPtr);
      done := done + {expandPtr};
      i := i - 1;
      expandPtr := nextExpandPtr;
    }
    StopsAtLevel(list0, a, i);
    NodesJoin(list0[..a], list0[a..]);
    assert list0 == list0[..a] + list0[a..];
  }

  lemma BeforeExpanding(
      t: Tree, list0: seq<Node>, list: seq<Node>, done: set<Node>, tail: Node, a: nat, i: nat)
    requires Distinct(list0) && list0 <= list && EndsAt(list, tail) && Grounded(t, list, done)
    requires a < i <= |list0| && done == Nodes(list0[..a]) + Nodes(list0[i..])
    ensures list[i - 1] == list0[i - 1] && list[i - 1] in t.all && list[i - 1] in list && list[i - 1] !in done
    ensures list[i - 1].u == Next(if i == 1 then null else list0[i - 2])
    ensures done + {list[i - 1]} == Nodes(list0[..a]) + Nodes(list0[i - 1..])
  {
    hide Grounded;
    hide Distinct;
    hide EndsAt;
    NotDone(list0, a, i);
    Member(t, list, done, i - 1);
    LinkOf(list, tail, i - 1);
    assert list0[i - 1..] == [list0[i - 1]] + list0[i..];
  }

  lemma DistinctList(list: seq<Node>, tail: Node)
    requires EndsAt(list, tail)
    ensures Distinct(list) && list != [] && tail == list[|list| - 1]
  {
  }

  lemma NothingAfter(list: seq<Node>, a: nat)
    requires a <= |list|
    ensures Nodes(list[..a]) + Nodes(list[|list|..]) == Nodes(list[..a])
  {
  }

  /** Expands one node of the tree. */
  method ExpandOne(ghost t: Tree, tail: Node, cur: Node, ghost list: seq<Node>, ghost done: set<Node>)
    returns (newTail: Node)
    requires IsTree(t) && Untouched(t) && EndsAt(list, tail) && Grounded(t, list, done)
    requires cur in t.all && cur in list && cur !in done
    modifies t.all`u
    ensures Untouched(t) && EndsAt(list + t.Owned(cur), newTail)
    ensures Grounded(t, list + t.Owned(cur), done + {cur})
  {
    hide Children;
    hide Grounded;
    hide IsTree;
    hide Distinct;
    OwnedIsNew(t, list, done, cur);
    GroundedAfter(t, list, done, cur);
    newTail := Expand(tail, cur, list);
  }

  lemma LinkOf(list: seq<Node>, tail: Node, i: nat)
    requires EndsAt(list, tail) && i < |list|
    ensures list[i].u == Next(if i == 0 then null else list[i - 1])
  {
  }

  lemma StartLinked(root: Node)
    requires root.u == Next(null)
    ensures EndsAt([root], root)
  {
  }

  lemma GroundedFits(t: Tree, list: seq<Node>, done: set<Node>)
    requires Grounded(t, list, done)
    ensures |list| <= |t.all|
  {
    ListFits(t.all, list);
  }

  lemma Start(t: Tree)
    requires IsTree(t)
    ensures t.root in t.all && Grounded(t, [t.root], {})
  {
  }

  /** When the last node listed has been expanded, every node is listed. */
  lemma AllDone(t: Tree, list: seq<Node>, done: set<Node>, a: nat)
    requires IsTree(t) && Grounded(t, list, done) && 0 < a <= |list| && done == Nodes(list[..a])
    requires list[a - 1] == list[|list| - 1]
    ensures done == Nodes(list) == t.all
  {
    assert list[..a] == list;
    forall c | c in t.all ensures c in list {
      AllListed(t, list, c);
    }
  }

  lemma Member(t: Tree, list: seq<Node>, done: set<Node>, i: nat)
    requires Grounded(t, list, done) && i < |list|
    ensures list[i] in t.all && list[i] in list
  {
  }

  lemma StopsAtLevel(list: seq<Node>, a: nat, i: nat)
    requires Distinct(list) && a <= i <= |list|
    requires (if i == 0 then null else list[i - 1]) == if a == 0 then null else list[a - 1]
    ensures i == a
  {
  }

  lemma NotDone(list: seq<Node>, a: nat, i: nat)
    requires Distinct(list) && a < i <= |list|
    ensures list[i - 1] !in Nodes(list[..a]) + Nodes(list[i..])
  {
  }

  // ---------- the walk that clears ----------

  /** The list from its end down to `k` has been cleared; the rest is as it was linked. */
  ghost predicate ClearedFrom(t: Tree, list: seq<Node>, k: nat)
    reads list
  {
    && k <= |list|
    && (forall i | 0 <= i < k :: StillLinked(t, list, i))
    && (forall i | k <= i < |list| :: list[i].kind == Leaf && list[i].u == Id(0))
  }

  ghost predicate StillLinked(t: Tree, list: seq<Node>, i: nat)
    requires i < |list|
    reads list[i]
  {
    list[i].u == Next(if i == 0 then null else list[i - 1]) && Children(list[i].kind) == t.Owned(list[i])
  }

  /** What the nodes from `k` on owned. */
  ghost function OwnedFrom(t: Tree, list: seq<Node>, k: nat): set<Node>
    requires k <= |list|
  {
    set i, c | k <= i < |list| && c in t.Owned(list[i]) :: c
  }

  /** A listed node is alive while its parent is, and what it owns is cleared before it and alive until then. */
  lemma SafeToClear(t: Tree, list: seq<Node>, dead: set<Node>, k: nat)
    requires IsTree(t) && Grounded(t, list, Nodes(list)) && 0 < k <= |list|
    requires dead == OwnedFrom(t, list, k)
    ensures list[k - 1] !in dead
    ensures forall c | c in t.Owned(list[k - 1]) :: c !in dead && c in list[k..]
  {
    var n := list[k - 1];
    assert k == 1 || t.Parent(n) in list[..k - 1];
    forall i | k <= i < |list| ensures n !in t.Owned(list[i]) {
      NotOwned(t, list[i], n);
    }
    forall c | c in t.Owned(n) ensures c !in dead && c in list[k..] {
      OwnedBy(t, n, c);
      assert n in Nodes(list) && c in list;
      var j :| 0 <= j < |list| && list[j] == c;
      assert t.Parent(c) in list[..j];
      forall i | k <= i < |list| ensures c !in t.Owned(list[i]) {
        NotOwned(t, list[i], c);
      }
      assert list[k..][j - k] == c;
    }
  }

  lemma NotOwned(t: Tree, p: Node, c: Node)
    requires IsTree(t) && p in t.all && t.Parent(c) != p
    ensures c !in t.Owned(p)
  {
    assert Owns(t, p);
  }

  /** One step of the walk. */
  method ClearLast(node: Node, ghost t: Tree, ghost list: seq<Node>, ghost k: nat, ghost dead: set<Node>)
    returns (next: Node?, ghost nowDead: set<Node>)
    requires IsTree(t) && Grounded(t, list, Nodes(list))
    requires 0 < k <= |list| && node == list[k - 1] && ClearedFrom(t, list, k) && dead == OwnedFrom(t, list, k)
    modifies node
    ensures ClearedFrom(t, list, k - 1) && nowDead == OwnedFrom(t, list, k - 1)
    ensures next == if k == 1 then null else list[k - 2]
  {
    hide IsTree;
    hide Grounded;
    hide OwnedFrom;
    hide Children;
    SafeToClear(t, list, dead, k);
    OwnedFromNext(t, list, k - 1);
    OthersDiffer(t, list, k - 1);
    HeadLinked(t, list, k);
    BelowIsCleared(t, list, k, node);
    next := node.u.node;
    nowDead := node.Clear(dead);
    forall i | 0 <= i < k - 1 ensures StillLinked(t, list, i) {
      assert old(StillLinked(t, list, i));
    }
  }

  lemma OthersDiffer(t: Tree, list: seq<Node>, k: nat)
    requires Grounded(t, list, Nodes(list)) && k < |list|
    ensures forall i | 0 <= i < |list| && i != k :: list[i] != list[k]
  {
  }

  lemma HeadLinked(t: Tree, list: seq<Node>, k: nat)
    requires 0 < k <= |list| && ClearedFrom(t, list, k)
    ensures StillLinked(t, list, k - 1)
  {
  }

  lemma BelowIsCleared(t: Tree, list: seq<Node>, k: nat, node: Node)
    requires ClearedFrom(t, list, k) && forall c | c in t.Owned(node) :: c in list[k..]
    ensures forall c | c in t.Owned(node) :: c.kind == Leaf
  {
  }

  /**
   * Expr::FlattenedErase: every node ends cleared, everything below the root has been destroyed, and no node is
   * looked at after its destruction or destroyed with anything below it.
   */
  method FlattenedErase(root: Node, ghost t: Tree) returns (ghost dead: set<Node>)
    requires t.root == root && IsTree(t) && Untouched(t)
    modifies t.all
    ensures forall n | n in t.all :: n.kind == Leaf && n.u == Id(0)
    ensures dead == t.all - {t.root}
  {
    ghost var list;
    var tail;
    tail, list := Flatten(root, t);
    hide Grounded;
    hide IsTree;
    hide OwnedFrom;
    hide ClearedFrom;
    hide EndsAt;
    hide Untouched;
    var node: Node? := tail;
    dead := {};
    ghost var k: nat := |list|;
    WalkStarts(t, list, tail);
    while node != null
      invariant 0 <= k <= |list| && ClearedFrom(t, list, k) && dead == OwnedFrom(t, list, k)
      invariant node == if k == 0 then null else list[k - 1]
      decreases k
    {
      node, dead := ClearLast(node, t, list, k, dead);
      k := k - 1;
    }
    AllDead(t, list);
    AllCleared(t, list);
  }

  lemma AllCleared(t: Tree, list: seq<Node>)
    requires ClearedFrom(t, list, 0) && Nodes(list) == t.all
    ensures forall n | n in t.all :: n.kind == Leaf && n.u == Id(0)
  {
  }

  lemma OwnedFromNext(t: Tree, list: seq<Node>, k: nat)
    requires k < |list|
    ensures OwnedFrom(t, list, k) == OwnedFrom(t, list, k + 1) + Nodes(t.Owned(list[k]))
  {
    forall c | c in OwnedFrom(t, list, k) ensures c in OwnedFrom(t, list, k + 1) + Nodes(t.Owned(list[k])) {
      var i :| k <= i < |list| && c in t.Owned(list[i]);
    }
  }

  lemma WalkStarts(t: Tree, list: seq<Node>, tail: Node)
    requires EndsAt(list, tail) && Untouched(t) && Nodes(list) == t.all
    ensures ClearedFrom(t, list, |list|) && OwnedFrom(t, list, |list|) == {}
    ensures list != [] && tail == list[|list| - 1] && forall i | 0 <= i < |list| :: list[i] in t.all
  {
    forall i | 0 <= i < |list| ensures list[i] in t.all {
      assert list[i] in Nodes(list);
    }
    forall i | 0 <= i < |list| ensures StillLinked(t, list, i) {
      assert list[i] in t.all;
    }
  }

  /** In the end everything but the root is dead. */
  lemma AllDead(t: Tree, list: seq<Node>)
    requires IsTree(t) && Grounded(t, list, Nodes(list)) && Nodes(list) == t.all
    ensures OwnedFrom(t, list, 0) == t.all - {t.root}
  {
    forall c | c in t.all - {t.root} ensures c in OwnedFrom(t, list, 0) {
      assert HasOwner(t, c);
      var i :| 0 <= i < |list| && list[i] == t.Parent(c);
      assert c in t.Owned(list[i]);
    }
    forall c | c in OwnedFrom(t, list, 0) ensures c in t.all - {t.root} {
      var i :| 0 <= i < |list| && c in t.Owned(list[i]);
      OwnedBy(t, list[i], c);
    }
  }
}
