/**
 * The heap trees that FlattenedErase takes apart: a new node over disjoint trees makes a tree, so the nodes of every
 * expression are one, and can be erased.
 */
module ExprEraseTrees {
  import opened Results
  import opened ExprErase
  import E = Exprs

  // ---------- a node over trees ----------

  ghost function Attach(t: Tree, p: Tree): Tree {
    Tree(t.root, t.all + p.all,
      t.parent + p.parent[p.root := t.root],
      (t.owned + p.owned)[t.root := t.Owned(t.root) + [p.root]],
      t.depth + map n | n in p.all :: p.Depth(n) + 1)
  }

  lemma AttachOwns(t: Tree, p: Tree, n: Node)
    requires IsTree(t) && IsTree(p) && t.all !! p.all && n in t.all + p.all
    ensures Owns(Attach(t, p), n)
  {
    var a := Attach(t, p);
    if n in p.all {
      assert Owns(p, n);
      assert forall c | c in p.Owned(n) :: c != p.root;
    } else {
      assert Owns(t, n);
      forall c | c in a.Owned(n) ensures c in a.all && a.Parent(c) == n && a.Depth(c) == a.Depth(n) + 1 {
        assert c in t.Owned(n) || (n == t.root && c == p.root);
      }
      assert Distinct(a.Owned(n)) by {
        assert forall c | c in t.Owned(n) :: c != p.root;
      }
    }
  }

  lemma AttachHasOwner(t: Tree, p: Tree, c: Node)
    requires IsTree(t) && IsTree(p) && t.all !! p.all && c in t.all + p.all && c != t.root
    ensures HasOwner(Attach(t, p), c)
  {
    var a := Attach(t, p);
    if c in t.all {
      assert HasOwner(t, c);
      assert a.Parent(c) == t.Parent(c);
      assert forall x | x in t.Owned(t.root) :: x in a.Owned(t.root);
    } else if c != p.root {
      assert HasOwner(p, c);
      assert a.Parent(c) == p.Parent(c);
    } else {
      assert a.Owned(t.root)[|t.Owned(t.root)|] == c;
    }
  }

  lemma AttachIsTree(t: Tree, p: Tree)
    requires IsTree(t) && IsTree(p) && t.all !! p.all
    ensures IsTree(Attach(t, p))
  {
    var a := Attach(t, p);
    forall n | n in a.all ensures Owns(a, n) {
      AttachOwns(t, p, n);
    }
    forall c | c in a.all && c != a.root ensures HasOwner(a, c) {
      AttachHasOwner(t, p, c);
    }
  }

  ghost function AllOf(parts: seq<Tree>): set<Node>
    decreases |parts|
  {
    if parts == [] then {} else AllOf(parts[..|parts| - 1]) + parts[|parts| - 1].all
  }

  ghost function Roots(parts: seq<Tree>): (roots: seq<Node>)
    ensures |roots| == |parts| && forall i | 0 <= i < |parts| :: roots[i] == parts[i].root
    decreases |parts|
  {
    if parts == [] then [] else Roots(parts[..|parts| - 1]) + [parts[|parts| - 1].root]
  }

  /** Trees that share no node. */
  ghost predicate Forest(parts: seq<Tree>)
    decreases |parts|
  {
    parts == []
    || (var last := parts[|parts| - 1];
        Forest(parts[..|parts| - 1]) && IsTree(last) && AllOf(parts[..|parts| - 1]) !! last.all)
  }

  ghost function Over(n: Node, parts: seq<Tree>): Tree
    decreases |parts|
  {
    if parts == [] then Tree(n, {n}, map[], map[], map[])
    else Attach(Over(n, parts[..|parts| - 1]), parts[|parts| - 1])
  }

  lemma {:induction false} OverIsTree(n: Node, parts: seq<Tree>)
    requires Forest(parts) && n !in AllOf(parts)
    ensures IsTree(Over(n, parts)) && Over(n, parts).root == n && Over(n, parts).all == {n} + AllOf(parts)
    ensures Over(n, parts).Owned(n) == Roots(parts)
    decreases |parts|
  {
    if parts != [] {
      var init, last := parts[..|parts| - 1], parts[|parts| - 1];
      OverIsTree(n, init);
      AttachIsTree(Over(n, init), last);
    } else {
      assert Owns(Over(n, parts), n);
    }
  }

  /** The nodes of a forest are as their trees say. */
  ghost predicate AllUntouched(parts: seq<Tree>)
    reads AllOf(parts)
    decreases |parts|
  {
    parts == [] || (AllUntouched(parts[..|parts| - 1]) && Untouched(parts[|parts| - 1]))
  }

  lemma {:induction false} OverUntouched(n: Node, parts: seq<Tree>)
    requires Forest(parts) && n !in AllOf(parts) && AllUntouched(parts)
    ensures forall x | x in AllOf(parts) :: Children(x.kind) == Over(n, parts).Owned(x)
    decreases |parts|
  {
    if parts != [] {
      var init, last := parts[..|parts| - 1], parts[|parts| - 1];
      OverUntouched(n, init);
      OverIsTree(n, init);
      assert forall x | x in AllOf(init) :: Over(n, parts).Owned(x) == Over(n, init).Owned(x);
      forall x | x in last.all ensures Children(x.kind) == Over(n, parts).Owned(x) {
        assert Untouched(last);
        assert Over(n, parts).Owned(x) == last.Owned(x);
      }
    }
  }

  lemma {:induction false} BelowIsThere(parts: seq<Tree>)
    ensures forall x | x in AllOf(parts) :: allocated(x)
    decreases |parts|
  {
    if parts != [] {
      BelowIsThere(parts[..|parts| - 1]);
      ghost var last := parts[|parts| - 1];
      assert forall x | x in last.all :: allocated(x);
    }
  }

  /** A new node that owns the roots of disjoint trees is the root of a tree. */
  method NewNode(id: int, kind: NodeKind, ghost parts: seq<Tree>) returns (n: Node, ghost t: Tree)
    requires Forest(parts) && AllUntouched(parts) && Children(kind) == Roots(parts)
    ensures fresh(n) && t.root == n && t.all == {n} + AllOf(parts)
    ensures IsTree(t) && Untouched(t) && t.Owned(n) == Children(kind) && n.kind == kind && n.u == Id(id)
  {
    ghost var below := AllOf(parts);
    BelowIsThere(parts);
    n := new Node(id, kind);
    assert n !in below;
    OverIsTree(n, parts);
    OverUntouched(n, parts);
    t := Over(n, parts);
  }

  // ---------- the nodes of an expression ----------

  /** The children in the order Expand takes them in; a list, struct or map makes a missing one on the way. */
  function Parts(kind: E.Kind): seq<Option<E.Expr>> {
    match kind
    case Select(operand, _, _) => if operand.Some? then [operand] else []
    case Call(_, target, args) =>
      (if target.Some? then [target] else []) + seq(|args|, i requires 0 <= i < |args| => Some(args[i]))
    case List(elements) => seq(|elements|, i requires 0 <= i < |elements| => Some(elements[i].expr))
    case Struct(_, fields) => seq(|fields|, i requires 0 <= i < |fields| => fields[i].value)
    case Map(entries) => EntryParts(entries)
    case Comprehension(_, _, _, range, init, condition, step, result) =>
      [Some(init), Some(range), Some(condition), Some(step), Some(result)]
    case _ => []
  }

  function EntryParts(entries: seq<E.Entry>): (parts: seq<Option<E.Expr>>)
    ensures |parts| == 2 * |entries|
    ensures forall p | p in parts :: exists i :: 0 <= i < |entries| && (p == entries[i].key || p == entries[i].value)
    decreases |entries|
  {
    if entries == [] then []
    else
      var last := entries[|entries| - 1];
      EntryParts(entries[..|entries| - 1]) + [last.key, last.value]
  }

  lemma PartsAreSmaller(e: E.Expr)
    ensures forall p | p in Parts(e.kind) && p.Some? :: p.value < e
  {
    if e.kind.Map? {
      forall p | p in EntryParts(e.kind.entries) && p.Some? ensures p.value < e {
        var i :| 0 <= i < |e.kind.entries| && (p == e.kind.entries[i].key || p == e.kind.entries[i].value);
        assert e.kind.entries[i] in e.kind.entries;
      }
    }
  }

  function Pairs(nodes: seq<Node>): seq<(Node, Node)>
    decreases |nodes|
  {
    if |nodes| < 2 then []
    else Pairs(nodes[..|nodes| - 2]) + [(nodes[|nodes| - 2], nodes[|nodes| - 1])]
  }

  lemma {:induction false} PairsUnpair(nodes: seq<Node>)
    requires |nodes| % 2 == 0
    ensures EntryNodes(Pairs(nodes)) == nodes
    decreases |nodes|
  {
    if nodes != [] {
      var init := nodes[..|nodes| - 2];
      PairsUnpair(init);
      assert Pairs(nodes)[..|Pairs(init)|] == Pairs(init);
    }
  }

  /** The kind of a node whose children are these nodes. */
  function KindOver(kind: E.Kind, nodes: seq<Node>): NodeKind
    requires |nodes| == |Parts(kind)|
  {
    match kind
    case Select(operand, _, _) => Select(if operand.Some? then Some(nodes[0]) else None)
    case Call(_, target, args) => if target.Some? then Call(Some(nodes[0]), nodes[1..]) else Call(None, nodes)
    case List(_) => List(nodes)
    case Struct(_, _) => Struct(nodes)
    case Map(_) => Map(Pairs(nodes))
    case Comprehension(_, _, _, _, _, _, _, _) =>
      Comprehension(Some(nodes[0]), Some(nodes[1]), Some(nodes[2]), Some(nodes[3]), Some(nodes[4]))
    case _ => Leaf
  }

  lemma KindOverOwns(kind: E.Kind, nodes: seq<Node>)
    requires |nodes| == |Parts(kind)|
    ensures Children(KindOver(kind, nodes)) == nodes
  {
    hide EntryNodes;
    hide Pairs;
    hide EntryParts;
    match kind
    case Map(entries) => PairsUnpair(nodes);
    case Call(_, target, _) => CallOwned(nodes, target.Some?);
    case Comprehension(_, _, _, _, _, _, _, _) => FiveOwned(nodes);
    case _ =>
  }

  lemma CallOwned(nodes: seq<Node>, hasTarget: bool)
    requires hasTarget ==> nodes != []
    ensures if hasTarget then One(Some(nodes[0])) + nodes[1..] == nodes else One(None) + nodes == nodes
  {
    if hasTarget {
      assert [nodes[0]] + nodes[1..] == nodes;
    }
  }

  lemma FiveOwned(nodes: seq<Node>)
    requires |nodes| == 5
    ensures One(Some(nodes[0])) + One(Some(nodes[1])) + One(Some(nodes[2])) + One(Some(nodes[3]))
      + One(Some(nodes[4])) == nodes
  {
    assert [nodes[0], nodes[1], nodes[2], nodes[3], nodes[4]] == nodes;
  }

  /** The nodes of an expression form a tree that can be erased. */
  method Allocate(e: E.Expr) returns (root: Node, ghost t: Tree)
    ensures fresh(t.all) && t.root == root && IsTree(t) && Untouched(t)
    ensures |t.Owned(root)| == |Parts(e.kind)|
    decreases e, 1
  {
    PartsAreSmaller(e);
    var nodes;
    ghost var parts;
    nodes, parts := AllocateEach(Parts(e.kind), e);
    KindOverOwns(e.kind, nodes);
    root, t := NewNode(e.id, KindOver(e.kind, nodes), parts);
  }

  method AllocateEach(es: seq<Option<E.Expr>>, ghost bound: E.Expr) returns (nodes: seq<Node>, ghost parts: seq<Tree>)
    requires forall e | e in es && e.Some? :: e.value < bound
    ensures fresh(AllOf(parts)) && Forest(parts) && AllUntouched(parts)
    ensures |nodes| == |es| && nodes == Roots(parts)
    decreases bound, 0
  {
    hide EntryParts;
    hide Untouched;
    hide Roots;
    nodes, parts := [], [];
    for i := 0 to |es|
      invariant fresh(AllOf(parts)) && Forest(parts) && AllUntouched(parts)
      invariant |nodes| == i && nodes == Roots(parts)
    {
      var root;
      ghost var t;
      ghost var below := AllOf(parts);
      BelowIsThere(parts);
      if es[i].Some? {
        root, t := Allocate(es[i].value);
      } else {
        root, t := NewNode(0, Leaf, []);
      }
      assert below !! t.all;
      nodes := nodes + [root];
      parts := parts + [t];
      assert parts[..i] + [t] == parts;
    }
  }

  /** Any expression's nodes: all are cleared, and all but the root destroyed. */
  method AllocateAndErase(e: E.Expr) returns (root: Node, ghost t: Tree, ghost dead: set<Node>)
    ensures fresh(t.all) && t.root == root && IsTree(t) && |t.Owned(root)| == |Parts(e.kind)|
    ensures forall n | n in t.all :: n.kind == Leaf && n.u == Id(0)
    ensures dead == t.all - {root}
  {
    root, t := Allocate(e);
    dead := FlattenedErase(root, t);
  }
}
