/**
 * What the table of a navigable expression (NavigableAst) is good for: subtrees are runs of the preorder
 * table and of the postorder list, and the links between nodes are those of the tree.
 */
module NavigableLayout {
  import opened Results
  import opened Exprs
  import opened NavigableAst

  /** `t` is a whole table: its nodes are numbered from `base`, and each starts the table of its own subtree. */
  ghost predicate Blocks(t: seq<NodeData>, base: nat) {
    forall j | 0 <= j < |t| :: Block(t, base, j)
  }

  ghost predicate Block(t: seq<NodeData>, base: nat, j: nat)
    requires j < |t|
  {
    var n := t[j];
    && n.index == base + j && n.treeSize == Size(n.expr) && n.height == Height(n.expr) && j + n.treeSize <= |t|
    && t[j..j + n.treeSize] == Table(n.expr, base + j, n.parent, n.childIndex, n.parentRelation)
  }

  lemma BlocksJoin(a: seq<NodeData>, b: seq<NodeData>, base: nat)
    requires Blocks(a, base) && Blocks(b, base + |a|)
    ensures Blocks(a + b, base)
  {
    var t := a + b;
    forall j | 0 <= j < |t| ensures Block(t, base, j) {
      if j < |a| {
        assert Block(a, base, j);
        assert t[j..j + a[j].treeSize] == a[j..j + a[j].treeSize];
      } else {
        assert Block(b, base + |a|, j - |a|);
        assert t[j..j + t[j].treeSize] == b[j - |a|..j - |a| + t[j].treeSize];
      }
    }
  }

  lemma {:induction false} TableInBlocks(e: Expr, base: nat, parent: Option<nat>, childIndex: int, relation: ChildKind)
    ensures Blocks(Table(e, base, parent, childIndex, relation), base)
    decreases e, 1, 0
  {
    hide Get;
    hide Roles;
    hide Blocks;
    RolesFilled(e);
    TableSize(e, base, parent, childIndex, relation);
    TablesInBlocks(e, Roles(e), 0, base + 1, base);
    var t := Table(e, base, parent, childIndex, relation);
    var rest := Tables(e, Roles(e), 0, base + 1, base);
    assert t == [t[0]] + rest;
    BlocksBelow(t[0], rest, base);
  }

  lemma BlocksBelow(n: NodeData, rest: seq<NodeData>, base: nat)
    requires Blocks(rest, base + 1) && n.index == base
    requires n.treeSize == Size(n.expr) == 1 + |rest| && n.height == Height(n.expr)
    requires [n] + rest == Table(n.expr, base, n.parent, n.childIndex, n.parentRelation)
    ensures Blocks([n] + rest, base)
  {
    hide Table;
    hide Size;
    hide Height;
    var t := [n] + rest;
    forall j | 0 <= j < |t| ensures Block(t, base, j) {
      if j == 0 {
        WholeSlice(t);
      } else {
        assert Block(rest, base + 1, j - 1);
        assert t[j..j + t[j].treeSize] == rest[j - 1..j - 1 + t[j].treeSize];
      }
    }
  }

  lemma {:induction false} TablesInBlocks(e: Expr, roles: seq<Role>, k: nat, base: nat, parent: nat)
    requires Filled(e, roles)
    ensures Blocks(Tables(e, roles, k, base, parent), base)
    decreases e, 0, |roles|
  {
    hide Get;
    hide Roles;
    hide Block;
    if roles != [] {
      var c := Get(e, roles[0]).value;
      TableSize(c, base, Some(parent), k, Relation(e, roles[0], k));
      TableInBlocks(c, base, Some(parent), k, Relation(e, roles[0], k));
      TablesInBlocks(e, roles[1..], k + 1, base + Size(c), parent);
      BlocksJoin(Table(c, base, Some(parent), k, Relation(e, roles[0], k)),
        Tables(e, roles[1..], k + 1, base + Size(c), parent), base);
    }
  }

  // ---------- parents ----------

  /** Every node but the first has a parent before it, whose block it is in; in a forest some have `parent`. */
  ghost predicate Nested(t: seq<NodeData>, base: nat, parent: nat) {
    forall j | 0 <= j < |t| :: NestedAt(t, base, parent, j)
  }

  ghost predicate NestedAt(t: seq<NodeData>, base: nat, parent: nat, j: nat)
    requires j < |t|
  {
    && t[j].parent.Some?
    && var p := t[j].parent.value;
    && (p == parent || (base <= p < base + j && base + j < p + t[p - base].treeSize))
  }

  lemma NestedJoin(a: seq<NodeData>, b: seq<NodeData>, base: nat, parent: nat)
    requires Nested(a, base, parent) && Nested(b, base + |a|, parent)
    ensures Nested(a + b, base, parent)
  {
    forall j | 0 <= j < |a + b| ensures NestedAt(a + b, base, parent, j) {
      if j < |a| {
        assert NestedAt(a, base, parent, j);
      } else {
        assert NestedAt(b, base + |a|, parent, j - |a|);
      }
    }
  }

  lemma {:induction false} TableNested(e: Expr, base: nat, parent: nat, childIndex: int, relation: ChildKind)
    ensures Nested(Table(e, base, Some(parent), childIndex, relation), base, parent)
    decreases e, 1, 0
  {
    RolesFilled(e);
    TablesSize(e, Roles(e), 0, base + 1, base);
    TablesNested(e, Roles(e), 0, base + 1, base);
    var t := Table(e, base, Some(parent), childIndex, relation);
    NestedBelow(t[0], Tables(e, Roles(e), 0, base + 1, base), base);
    hide Table;
    forall j | 0 <= j < |t| ensures NestedAt(t, base, parent, j) {
      assert j > 0 ==> InsideAt(t, base, j);
    }
  }

  /** The parent of node `j` is before it, and its block contains it. */
  ghost predicate InsideAt(t: seq<NodeData>, base: nat, j: nat)
    requires j < |t|
  {
    && t[j].parent.Some?
    && var p := t[j].parent.value;
    base <= p < base + j && base + j < p + t[p - base].treeSize
  }

  lemma NestedBelow(n: NodeData, rest: seq<NodeData>, base: nat)
    requires Nested(rest, base + 1, base) && n.treeSize == 1 + |rest|
    ensures forall j | 0 < j <= |rest| :: InsideAt([n] + rest, base, j)
  {
    forall j | 0 < j <= |rest| ensures InsideAt([n] + rest, base, j) {
      assert NestedAt(rest, base + 1, base, j - 1);
    }
  }

  lemma {:induction false} TablesNested(e: Expr, roles: seq<Role>, k: nat, base: nat, parent: nat)
    requires Filled(e, roles)
    ensures Nested(Tables(e, roles, k, base, parent), base, parent)
    decreases e, 0, |roles|
  {
    hide Get;
    hide Roles;
    hide NestedAt;
    if roles != [] {
      var c := Get(e, roles[0]).value;
      TableSize(c, base, Some(parent), k, Relation(e, roles[0], k));
      TableNested(c, base, parent, k, Relation(e, roles[0], k));
      TablesNested(e, roles[1..], k + 1, base + Size(c), parent);
      NestedJoin(Table(c, base, Some(parent), k, Relation(e, roles[0], k)),
        Tables(e, roles[1..], k + 1, base + Size(c), parent), base, parent);
    }
  }

  // ---------- subtrees are runs of the preorder table ----------

  /** The table of a whole expression. */
  ghost function Whole(e: Expr): (t: seq<NodeData>) {
    Table(e, 0, None, -1, CUnspecified)
  }

  lemma TableInside(e: Expr, base: nat, parent: Option<nat>, childIndex: int, relation: ChildKind)
    ensures var t := Table(e, base, parent, childIndex, relation);
      |t| == Size(e) && forall j | 0 < j < |t| :: InsideAt(t, base, j)
  {
    RolesFilled(e);
    TableSize(e, base, parent, childIndex, relation);
    TablesSize(e, Roles(e), 0, base + 1, base);
    TablesNested(e, Roles(e), 0, base + 1, base);
    var t := Table(e, base, parent, childIndex, relation);
    NestedBelow(t[0], Tables(e, Roles(e), 0, base + 1, base), base);
  }

  lemma WholeLinks(e: Expr)
    ensures Blocks(Whole(e), 0) && |Whole(e)| == Size(e) && Whole(e)[0].parent == None
    ensures forall j | 0 < j < Size(e) :: InsideAt(Whole(e), 0, j)
  {
    TableInBlocks(e, 0, None, -1, CUnspecified);
    TableInside(e, 0, None, -1, CUnspecified);
  }

  /** Node `m` is `i` or below it: following parents from `m` leads to `i`. */
  ghost predicate Descends(t: seq<NodeData>, m: nat, i: nat)
    requires m < |t|
    decreases m
  {
    m == i || (t[m].parent.Some? && t[m].parent.value < m && Descends(t, t[m].parent.value, i))
  }

  /** The subtree's own table, read off the whole one. */
  lemma Subtable(e: Expr, i: nat)
    requires i < Size(e)
    ensures |Whole(e)| == Size(e)
    ensures
      var t := Whole(e);
      var n := t[i];
      var block := Table(n.expr, i, n.parent, n.childIndex, n.parentRelation);
      && n.index == i && n.treeSize == Size(n.expr) == |block| && n.height == Height(n.expr) && i + |block| <= |t|
      && t[i..i + |block|] == block
      && forall j | 0 <= j < |block| :: t[i + j] == block[j]
  {
    hide Get;
    hide Roles;
    WholeLinks(e);
    var t := Whole(e);
    var n := t[i];
    assert Block(t, 0, i);
    hide Whole;
    hide Blocks;
    hide Table;
    var block := Table(n.expr, i, n.parent, n.childIndex, n.parentRelation);
    TableSize(n.expr, i, n.parent, n.childIndex, n.parentRelation);
    forall j | 0 <= j < |block| ensures t[i + j] == block[j] {
      assert t[i..i + |block|][j] == t[i + j];
    }
  }

  /** The parents inside a block are those of the block's own expression. */
  lemma InsideBlock(e: Expr, i: nat, m: nat)
    requires |Whole(e)| == Size(e) && i < m < Size(e) && m < i + Whole(e)[i].treeSize
    ensures var t := Whole(e);
      t[m].parent.Some? && var p := t[m].parent.value; i <= p < m && m < p + t[p].treeSize
  {
    hide Whole;
    hide Table;
    Subtable(e, i);
    var n := Whole(e)[i];
    TableInside(n.expr, i, n.parent, n.childIndex, n.parentRelation);
    var block := Table(n.expr, i, n.parent, n.childIndex, n.parentRelation);
    assert InsideAt(block, i, m - i);
    assert Whole(e)[i + (m - i)] == block[m - i];
    var p := Whole(e)[m].parent.value;
    assert Whole(e)[i + (p - i)] == block[p - i];
  }

  /** The descendants of a node are exactly the `treeSize` entries of the table that start at it. */
  lemma {:induction false} DescendantsAreARun(e: Expr, i: nat, m: nat)
    requires i < Size(e) && m < Size(e)
    ensures |Whole(e)| == Size(e)
    ensures Descends(Whole(e), m, i) <==> i <= m < i + Whole(e)[i].treeSize
    decreases m
  {
    WholeLinks(e);
    var t := Whole(e);
    assert Block(t, 0, i);
    hide Whole;
    hide Blocks;
    if m > 0 {
      assert InsideAt(t, 0, m);
      var p := t[m].parent.value;
      DescendantsAreARun(e, i, p);
      if i < m < i + t[i].treeSize {
        InsideBlock(e, i, m);
      } else if i <= p < i + t[i].treeSize && m != i {
        BlockInBlock(e, i, p);
      }
    }
  }

  /** Blocks do not stick out of blocks. */
  lemma BlockInBlock(e: Expr, i: nat, p: nat)
    requires |Whole(e)| == Size(e) && i <= p < Size(e) && p < i + Whole(e)[i].treeSize
    ensures p + Whole(e)[p].treeSize <= i + Whole(e)[i].treeSize
  {
    hide Whole;
    hide Table;
    Subtable(e, i);
    var n := Whole(e)[i];
    TableInBlocks(n.expr, i, n.parent, n.childIndex, n.parentRelation);
    var block := Table(n.expr, i, n.parent, n.childIndex, n.parentRelation);
    assert Block(block, i, p - i);
    assert Whole(e)[i + (p - i)] == block[p - i];
  }

  // ---------- children ----------

  /** Entry `c` of a table that starts at `base` is the `k`-th child of `e`, which has index `parent`. */
  ghost predicate IsChild(t: seq<NodeData>, base: nat, c: int, e: Expr, role: Role, k: nat, parent: nat) {
    && base <= c < base + |t|
    && var n := t[c - base];
    && n.parent == Some(parent) && n.childIndex == k
    && n.parentRelation == Relation(e, role, k) && Get(e, role) == Some(n.expr)
  }

  lemma IsChildAfter(
      first: seq<NodeData>, rest: seq<NodeData>, base: nat, c: int, e: Expr, role: Role, k: nat, parent: nat)
    requires IsChild(rest, base + |first|, c, e, role, k, parent)
    ensures IsChild(first + rest, base, c, e, role, k, parent)
  {
  }

  lemma {:induction false} ChildrenListed(e: Expr, roles: seq<Role>, k: nat, base: nat, parent: nat, j: nat)
    requires Filled(e, roles) && j < |roles|
    ensures |ChildIndices(e, roles, base)| == |roles|
    ensures IsChild(Tables(e, roles, k, base, parent), base, ChildIndices(e, roles, base)[j],
      e, roles[j], k + j, parent)
    decreases |roles|
  {
    hide IsChild;
    hide Table;
    hide Tables;
    hide Relation;
    hide Size;
    CountChildren(e, roles, base);
    if j == 0 {
      FirstListed(e, roles, k, base, parent);
    } else {
      var x := Get(e, roles[0]).value;
      var first, rest :=
        Table(x, base, Some(parent), k, Relation(e, roles[0], k)), Tables(e, roles[1..], k + 1, base + Size(x), parent);
      TablesUnfold(e, roles, k, base, parent);
      ChildrenListed(e, roles[1..], k + 1, base + Size(x), parent, j - 1);
      IsChildAfter(first, rest, base, ChildIndices(e, roles, base)[j], e, roles[j], k + j, parent);
    }
  }

  lemma FirstListed(e: Expr, roles: seq<Role>, k: nat, base: nat, parent: nat)
    requires Filled(e, roles) && roles != [] && ChildIndices(e, roles, base) != []
    ensures IsChild(Tables(e, roles, k, base, parent), base, ChildIndices(e, roles, base)[0], e, roles[0], k, parent)
  {
    var x := Get(e, roles[0]).value;
    TableStarts(x, base, Some(parent), k, Relation(e, roles[0], k));
    hide Table;
    hide Relation;
    var first, rest :=
      Table(x, base, Some(parent), k, Relation(e, roles[0], k)), Tables(e, roles[1..], k + 1, base + Size(x), parent);
    assert IsChild(first, base, base, e, roles[0], k, parent);
    assert (first + rest)[0] == first[0];
  }

  lemma TableStarts(e: Expr, base: nat, parent: Option<nat>, childIndex: int, relation: ChildKind)
    ensures
      var t := Table(e, base, parent, childIndex, relation);
      && |t| == Size(e) && t[0].parent == parent && t[0].childIndex == childIndex && t[0].parentRelation == relation
      && t[0].expr == e && Filled(e, Roles(e)) && t[0].children == ChildIndices(e, Roles(e), base + 1)
      && t[1..] == Tables(e, Roles(e), 0, base + 1, base)
  {
    RolesFilled(e);
    TableSize(e, base, parent, childIndex, relation);
  }

  lemma {:induction false} CountChildren(e: Expr, roles: seq<Role>, base: nat)
    requires Filled(e, roles)
    ensures |ChildIndices(e, roles, base)| == |roles|
    decreases |roles|
  {
    if roles != [] {
      CountChildren(e, roles[1..], base + Size(Get(e, roles[0]).value));
    }
  }

  /** The `k`-th child a node lists is the node of its `k`-th child expression, and links back. */
  lemma ChildrenLinkBack(e: Expr, i: nat, k: nat)
    requires |Whole(e)| == Size(e) && i < Size(e) && k < |Roles(Whole(e)[i].expr)|
    ensures
      var t := Whole(e);
      var n := t[i];
      && |n.children| == |Roles(n.expr)|
      && var c, role := n.children[k], Roles(n.expr)[k];
      && i < c < i + n.treeSize && i + n.treeSize <= |t|
      && t[c].parent == Some(i) && t[c].childIndex == k
      && Get(n.expr, role) == Some(t[c].expr) && t[c].parentRelation == Relation(n.expr, role, k)
  {
    hide Whole;
    hide Table;
    hide Tables;
    hide Relation;
    hide Roles;
    Subtable(e, i);
    var n := Whole(e)[i];
    TableStarts(n.expr, i, n.parent, n.childIndex, n.parentRelation);
    var block := Table(n.expr, i, n.parent, n.childIndex, n.parentRelation);
    assert block[0] == Whole(e)[i + 0];
    ChildrenListed(n.expr, Roles(n.expr), 0, i + 1, i, k);
    var c := n.children[k];
    assert block[1..][c - (i + 1)] == block[c - i];
    assert block[c - i] == Whole(e)[i + (c - i)];
  }

  // ---------- the relations of map children ----------

  /** Keys come at even places among the set keys and values of a map, starting from an even place or not. */
  predicate InStep(entries: seq<Entry>, i: nat, even: bool)
    requires i <= |entries|
    decreases |entries| - i
  {
    if i == |entries| then true
    else
      var afterKey := if entries[i].key.Some? then !even else even;
      && (entries[i].key.Some? ==> even)
      && (entries[i].value.Some? ==> !afterKey)
      && InStep(entries, i + 1, if entries[i].value.Some? then !afterKey else afterKey)
  }

  predicate Alternates(roles: seq<Role>, even: bool) {
    roles == [] || ((roles[0].EntryKey? <==> even) && Alternates(roles[1..], !even))
  }

  lemma {:induction false} AlternatesEverywhere(roles: seq<Role>, even: bool)
    ensures Alternates(roles, even) <==> forall k | 0 <= k < |roles| :: roles[k].EntryKey? <==> even == (k % 2 == 0)
    decreases |roles|
  {
    if roles != [] {
      AlternatesEverywhere(roles[1..], !even);
      if Alternates(roles, even) {
        forall k | 0 <= k < |roles| ensures roles[k].EntryKey? <==> even == (k % 2 == 0) {
          assert k > 0 ==> roles[k] == roles[1..][k - 1];
        }
      }
    }
  }

  lemma {:induction false} StepsTellKeys(entries: seq<Entry>, i: nat, even: bool)
    requires i <= |entries|
    ensures InStep(entries, i, even) <==> Alternates(EntryRoles(entries, i), even)
    decreases |entries| - i
  {
    if i < |entries| {
      var roles, rest := EntryRoles(entries, i), EntryRoles(entries, i + 1);
      StepsTellKeys(entries, i + 1, even);
      StepsTellKeys(entries, i + 1, !even);
      if entries[i].key.Some? {
        assert roles[0] == EntryKey(i);
        if entries[i].value.Some? {
          assert roles[1..][0] == EntryValue(i) && roles[1..][1..] == rest;
        } else {
          assert roles[1..] == rest;
        }
      } else if entries[i].value.Some? {
        assert roles[0] == EntryValue(i) && roles[1..] == rest;
      } else {
        assert roles == rest;
      }
    }
  }

  /** A child's relation is that of its role, exactly unless a map's keys and values are out of step. */
  lemma RelationsAreRoles(e: Expr)
    ensures (forall k | 0 <= k < |Roles(e)| :: Relation(e, Roles(e)[k], k) == RoleKind(Roles(e)[k]))
       <==> (e.kind.Map? ==> InStep(e.kind.entries, 0, true))
  {
    hide EntryRoles;
    hide InStep;
    hide Alternates;
    if e.kind.Map? {
      StepsTellKeys(e.kind.entries, 0, true);
      AlternatesEverywhere(Roles(e), true);
      RolesComplete(e);
      forall k | 0 <= k < |Roles(e)| ensures Roles(e)[k].EntryKey? || Roles(e)[k].EntryValue? {
        assert Roles(e)[k] in Roles(e);
      }
    }
  }

  /** Maps whose entries have both key and value are in step. */
  lemma {:induction false} CompleteEntriesAreInStep(entries: seq<Entry>, i: nat)
    requires i <= |entries| && forall k | 0 <= k < |entries| :: entries[k].key.Some? && entries[k].value.Some?
    ensures InStep(entries, i, true)
    decreases |entries| - i
  {
    if i < |entries| {
      CompleteEntriesAreInStep(entries, i + 1);
    }
  }

  /** The value of an entry without a key is taken for a key. */
  lemma ValueTakenForKey()
    ensures
      var e := Expr(1, Map([Entry(2, None, Some(Expr(3, Ident("v"))), false)]));
      Roles(e) == [EntryValue(0)] && Relation(e, EntryValue(0), 0) == MapKey
  {
  }

  // ---------- subtrees are runs of the postorder list ----------

  /** How many ancestors entry `j` has within the table. */
  ghost function Depth(t: seq<NodeData>, base: nat, j: nat): nat
    requires j < |t|
    decreases j
  {
    if t[j].parent.Some? && base <= t[j].parent.value < base + j then 1 + Depth(t, base, t[j].parent.value - base)
      else 0
  }

  lemma {:induction false} DepthBefore(a: seq<NodeData>, b: seq<NodeData>, base: nat, j: nat)
    requires j < |a|
    ensures Depth(a + b, base, j) == Depth(a, base, j)
    decreases j
  {
    if a[j].parent.Some? && base <= a[j].parent.value < base + j {
      DepthBefore(a, b, base, a[j].parent.value - base);
    }
  }

  lemma {:induction false} DepthAfter(a: seq<NodeData>, b: seq<NodeData>, base: nat, parent: nat, j: nat)
    requires j < |b| && Nested(b, base + |a|, parent) && parent < base
    ensures Depth(a + b, base, |a| + j) == Depth(b, base + |a|, j)
    decreases j
  {
    assert NestedAt(b, base + |a|, parent, j);
    var p := b[j].parent.value;
    if p != parent {
      DepthAfter(a, b, base, parent, p - (base + |a|));
    }
  }

  lemma {:induction false} DepthBelow(n: NodeData, rest: seq<NodeData>, base: nat, j: nat)
    requires j < |rest| && Nested(rest, base + 1, base)
    requires n.parent.Some? ==> n.parent.value < base
    ensures Depth([n] + rest, base, 1 + j) == 1 + Depth(rest, base + 1, j)
    decreases j
  {
    assert NestedAt(rest, base + 1, base, j);
    var p := rest[j].parent.value;
    if p != base {
      DepthBelow(n, rest, base, p - (base + 1));
    } else {
      assert Depth([n] + rest, base, 0) == 0;
    }
  }

  /** A subtree's run of the postorder list ends at its root, after the subtrees of earlier nodes. */
  ghost predicate RunsAt(t: seq<NodeData>, post: seq<nat>, base: nat, j: nat)
    requires j < |t|
  {
    var d, n := Depth(t, base, j), t[j].treeSize;
    d <= j && j - d + n <= |post| && post[j - d..j - d + n] == Postorder(t[j].expr, base + j)
  }

  ghost predicate Runs(t: seq<NodeData>, post: seq<nat>, base: nat) {
    |t| == |post| && forall j | 0 <= j < |t| :: RunsAt(t, post, base, j)
  }

  lemma SliceOfFirst<T>(x: seq<T>, y: seq<T>, lo: nat, hi: nat)
    requires lo <= hi <= |x|
    ensures (x + y)[lo..hi] == x[lo..hi]
  {
  }

  lemma SliceOfSecond<T>(x: seq<T>, y: seq<T>, lo: nat, hi: nat)
    requires lo <= hi <= |y|
    ensures (x + y)[|x| + lo..|x| + hi] == y[lo..hi]
  {
  }

  lemma RunsInFirst(a: seq<NodeData>, b: seq<NodeData>, x: seq<nat>, y: seq<nat>, base: nat, j: nat)
    requires j < |a| && RunsAt(a, x, base, j)
    ensures RunsAt(a + b, x + y, base, j)
  {
    DepthBefore(a, b, base, j);
    hide Depth;
    hide Postorder;
    var d, n := Depth(a, base, j), a[j].treeSize;
    SliceOfFirst(x, y, j - d, j - d + n);
  }

  lemma RunsInSecond(a: seq<NodeData>, b: seq<NodeData>, x: seq<nat>, y: seq<nat>, base: nat, parent: nat, i: nat)
    requires i < |b| && RunsAt(b, y, base + |a|, i) && |x| == |a|
    requires Nested(b, base + |a|, parent) && parent < base
    ensures RunsAt(a + b, x + y, base, |a| + i)
  {
    DepthAfter(a, b, base, parent, i);
    hide Depth;
    hide Postorder;
    hide Nested;
    var d, n := Depth(b, base + |a|, i), b[i].treeSize;
    SliceOfSecond(x, y, i - d, i - d + n);
  }

  lemma RunsJoin(a: seq<NodeData>, b: seq<NodeData>, x: seq<nat>, y: seq<nat>, base: nat, parent: nat)
    requires Runs(a, x, base) && Runs(b, y, base + |a|) && Nested(b, base + |a|, parent) && parent < base
    ensures Runs(a + b, x + y, base)
  {
    hide RunsAt;
    hide Nested;
    forall j | 0 <= j < |a + b| ensures RunsAt(a + b, x + y, base, j) {
      if j < |a| {
        RunsInFirst(a, b, x, y, base, j);
      } else {
        RunsInSecond(a, b, x, y, base, parent, j - |a|);
      }
    }
  }

  lemma RunsAtTop(n: NodeData, rest: seq<NodeData>, post: seq<nat>, base: nat)
    requires n.parent.Some? ==> n.parent.value < base
    requires n.treeSize == 1 + |rest| == |post| && post == Postorder(n.expr, base)
    ensures RunsAt([n] + rest, post, base, 0)
  {
    hide Postorder;
    hide Depth;
    DepthOfTop(n, rest, base);
    WholeSlice(post);
  }

  lemma DepthOfTop(n: NodeData, rest: seq<NodeData>, base: nat)
    requires n.parent.Some? ==> n.parent.value < base
    ensures Depth([n] + rest, base, 0) == 0
  {
  }

  lemma WholeSlice<T>(s: seq<T>)
    ensures s[0..|s|] == s
  {
  }

  /** A node on top of a forest ends the forest's postorder list. */
  lemma RunsBelow(n: NodeData, rest: seq<NodeData>, posts: seq<nat>, base: nat)
    requires Runs(rest, posts, base + 1) && Nested(rest, base + 1, base)
    requires n.parent.Some? ==> n.parent.value < base
    requires n.treeSize == 1 + |rest| && posts + [base] == Postorder(n.expr, base)
    ensures Runs([n] + rest, posts + [base], base)
  {
    hide Nested;
    hide Postorder;
    hide RunsAt;
    RunsAtTop(n, rest, posts + [base], base);
    forall j | 0 < j < |[n] + rest| ensures RunsAt([n] + rest, posts + [base], base, j) {
      RunsAtBelow(n, rest, posts, base, j - 1);
    }
  }

  lemma RunsAtBelow(n: NodeData, rest: seq<NodeData>, posts: seq<nat>, base: nat, j: nat)
    requires j < |rest| && RunsAt(rest, posts, base + 1, j) && Nested(rest, base + 1, base)
    requires n.parent.Some? ==> n.parent.value < base
    ensures RunsAt([n] + rest, posts + [base], base, 1 + j)
  {
    DepthBelow(n, rest, base, j);
    hide Depth;
    hide Postorder;
    hide Nested;
    var d, n := Depth(rest, base + 1, j), rest[j].treeSize;
    SliceOfFirst(posts, [base], j - d, j - d + n);
  }

  lemma {:induction false} TableRuns(e: Expr, base: nat, parent: Option<nat>, childIndex: int, relation: ChildKind)
    requires parent.Some? ==> parent.value < base
    ensures Runs(Table(e, base, parent, childIndex, relation), Postorder(e, base), base)
    decreases e, 1, 0
  {
    TableStarts(e, base, parent, childIndex, relation);
    TablesSize(e, Roles(e), 0, base + 1, base);
    TablesRun(e, Roles(e), 0, base + 1, base);
    TablesNested(e, Roles(e), 0, base + 1, base);
    var t := Table(e, base, parent, childIndex, relation);
    var rest, posts := Tables(e, Roles(e), 0, base + 1, base), Postorders(e, Roles(e), base + 1);
    assert t == [t[0]] + rest && t[0].treeSize == Size(e);
    hide Runs;
    hide Nested;
    RunsBelow(t[0], rest, posts, base);
  }

  lemma {:induction false} TablesRun(e: Expr, roles: seq<Role>, k: nat, base: nat, parent: nat)
    requires Filled(e, roles) && parent < base
    ensures Runs(Tables(e, roles, k, base, parent), Postorders(e, roles, base), base)
    decreases e, 0, |roles|
  {
    if roles != [] {
      var c := Get(e, roles[0]).value;
      TableSize(c, base, Some(parent), k, Relation(e, roles[0], k));
      TableRuns(c, base, Some(parent), k, Relation(e, roles[0], k));
      TablesRun(e, roles[1..], k + 1, base + Size(c), parent);
      TablesNested(e, roles[1..], k + 1, base + Size(c), parent);
      RunsJoin(Table(c, base, Some(parent), k, Relation(e, roles[0], k)),
        Tables(e, roles[1..], k + 1, base + Size(c), parent),
        Postorder(c, base), Postorders(e, roles[1..], base + Size(c)), base, parent);
    }
  }

  /** The postorder list of a tree holds its nodes, each once. */
  ghost predicate Lists(post: seq<nat>, base: nat) {
    && (forall x :: x in post <==> base <= x < base + |post|)
    && (forall i, j | 0 <= i < j < |post| :: post[i] != post[j])
  }

  lemma {:induction false} PostorderLists(e: Expr, base: nat)
    ensures Lists(Postorder(e, base), base) && |Postorder(e, base)| == Size(e)
    decreases e, 1, 0
  {
    RolesFilled(e);
    PostordersList(e, Roles(e), base + 1);
    var posts := Postorders(e, Roles(e), base + 1);
    forall i | 0 <= i < |posts| ensures posts[i] > base {
      assert posts[i] in posts;
    }
    assert Postorder(e, base) == posts + [base];
  }

  lemma {:induction false} PostordersList(e: Expr, roles: seq<Role>, base: nat)
    requires Filled(e, roles)
    ensures Lists(Postorders(e, roles, base), base) && |Postorders(e, roles, base)| == Sizes(e, roles)
    decreases e, 0, |roles|
  {
    hide Get;
    hide Roles;
    hide Lists;
    hide Postorder;
    hide Size;
    if roles == [] {
      NoLists(base);
    } else {
      var c := Get(e, roles[0]).value;
      PostorderLists(c, base);
      PostordersList(e, roles[1..], base + Size(c));
      ListsJoin(Postorder(c, base), Postorders(e, roles[1..], base + Size(c)), base);
    }
  }

  lemma NoLists(base: nat)
    ensures Lists([], base)
  {
  }

  lemma ListsJoin(a: seq<nat>, b: seq<nat>, base: nat)
    requires Lists(a, base) && Lists(b, base + |a|)
    ensures Lists(a + b, base)
  {
    forall i, j | 0 <= i < j < |a + b| ensures (a + b)[i] != (a + b)[j] {
      if i < |a| <= j {
        assert a[i] in a && b[j - |a|] in b;
      }
    }
  }

  /**
   * A node's descendants are exactly the `treeSize` entries of the postorder list that end at the node, which
   * stands as many places before index + treeSize - 1 as it has ancestors.
   */
  lemma SubtreeInPostorder(e: Expr, i: nat)
    requires i < Size(e)
    ensures |Whole(e)| == Size(e) == |Postorder(e, 0)|
    ensures
      var d, n := Depth(Whole(e), 0, i), Whole(e)[i].treeSize;
      && n > 0 && d <= i && i - d + n <= Size(e)
      && Lists(Postorder(e, 0)[i - d..i - d + n], i) && Postorder(e, 0)[i - d + n - 1] == i
  {
    hide Get;
    hide Roles;
    hide Nested;
    hide Table;
    hide Depth;
    hide Postorder;
    hide Lists;
    Subtable(e, i);
    PostorderLists(e, 0);
    WholeRuns(e, i);
    PostorderLists(Whole(e)[i].expr, i);
    EndsAtRoot(Whole(e)[i].expr, i);
  }

  lemma WholeRuns(e: Expr, i: nat)
    requires i < Size(e)
    ensures |Whole(e)| == Size(e) && RunsAt(Whole(e), Postorder(e, 0), 0, i)
  {
    hide Postorder;
    hide Get;
    hide Roles;
    hide Size;
    hide RunsAt;
    WholeLinks(e);
    TableRuns(e, 0, None, -1, CUnspecified);
    hide Table;
  }

  lemma EndsAtRoot(e: Expr, base: nat)
    ensures Postorder(e, base) != [] && Postorder(e, base)[|Postorder(e, base)| - 1] == base
  {
  }

  // ---------- the span DescendantsPostorder takes ----------

  /** The entries of the postorder list that DescendantsPostorder gives: it starts at the node's preorder index. */
  ghost function DescendantsPostorder(e: Expr, i: nat): seq<nat>
    requires i < Size(e)
  {
    SubtreeInPostorder(e, i);
    Subtable(e, i);
    Postorder(e, 0)[i..i + Whole(e)[i].treeSize]
  }

  /** An entry outside a node's run of the postorder list is not a descendant. */
  lemma OutsideTheRun(post: seq<nat>, base: nat, lo: nat, hi: nat, i: nat, q: nat)
    requires Lists(post, base) && lo <= hi <= |post| && Lists(post[lo..hi], i)
    requires hi <= q < |post|
    ensures !(i <= post[q] < i + (hi - lo))
  {
    assert post[q] !in post[lo..hi];
  }

  lemma EntryInRange(post: seq<nat>, base: nat, q: nat)
    requires Lists(post, base) && q < |post|
    ensures base <= post[q] < base + |post|
  {
    assert post[q] in post;
  }

  lemma OnlyRootHasNoAncestors(e: Expr, i: nat)
    requires i < Size(e)
    ensures |Whole(e)| == Size(e) && (Depth(Whole(e), 0, i) == 0 <==> i == 0)
  {
    WholeLinks(e);
    if i > 0 {
      assert InsideAt(Whole(e), 0, i);
    }
  }

  /** Where the span lies, and where the run of descendants does. */
  lemma SpanFacts(e: Expr, i: nat)
    requires i < Size(e)
    ensures |Whole(e)| == Size(e)
    ensures
      var post, n, d := Postorder(e, 0), Whole(e)[i].treeSize, Depth(Whole(e), 0, i);
      && |post| == Size(e) && n > 0 && d <= i && i + n <= |post| && (i > 0 ==> d > 0)
      && Lists(post, 0) && Lists(post[i - d..i - d + n], i)
      && DescendantsPostorder(e, i) == post[i..i + n]
  {
    hide Table;
    hide Lists;
    hide Postorder;
    hide Get;
    Subtable(e, i);
    SubtreeInPostorder(e, i);
    OnlyRootHasNoAncestors(e, i);
    PostorderLists(e, 0);
  }

  lemma LastOfSlice(post: seq<nat>, i: nat, n: nat)
    requires n > 0 && i + n <= |post|
    ensures post[i + n - 1] in post[i..i + n]
  {
    assert post[i..i + n][n - 1] == post[i + n - 1];
  }

  /** Below the root the span takes in a node that is no descendant. */
  lemma SpanMissesBelowRoot(e: Expr, i: nat) returns (m: nat)
    requires 0 < i < Size(e)
    ensures m < Size(e) == |Whole(e)| && m in DescendantsPostorder(e, i) && !(i <= m < i + Whole(e)[i].treeSize)
  {
    hide Lists;
    hide DescendantsPostorder;
    hide Whole;
    hide Postorder;
    hide Depth;
    hide Size;
    SpanFacts(e, i);
    var post, n, d := Postorder(e, 0), Whole(e)[i].treeSize, Depth(Whole(e), 0, i);
    OutsideTheRun(post, 0, i - d, i - d + n, i, i + n - 1);
    m := post[i + n - 1];
    EntryInRange(post, 0, i + n - 1);
    LastOfSlice(post, i, n);
  }

  /** It gives the node's descendants exactly when the node is the root. */
  lemma PostorderSpanOnlyAtRoot(e: Expr, i: nat)
    requires i < Size(e)
    ensures |Whole(e)| == Size(e)
    ensures (forall m: nat | m < Size(e) :: m in DescendantsPostorder(e, i) <==> Descends(Whole(e), m, i)) <==> i == 0
  {
    Subtable(e, i);
    if i == 0 {
      RootSpan(e);
    } else {
      var m := SpanMissesBelowRoot(e, i);
      DescendantsAreARun(e, i, m);
    }
  }

  lemma RootSpan(e: Expr)
    ensures |Whole(e)| == Size(e)
    ensures forall m: nat | m < Size(e) :: m in DescendantsPostorder(e, 0) && Descends(Whole(e), m, 0)
  {
    SubtreeInPostorder(e, 0);
    PostorderLists(e, 0);
    var t, post := Whole(e), Postorder(e, 0);
    assert t[0].treeSize == Size(e) && post[0..Size(e)] == post;
    forall m: nat | m < Size(e) ensures m in DescendantsPostorder(e, 0) && Descends(t, m, 0) {
      DescendantsAreARun(e, 0, m);
    }
  }

  /** For `v.f`, the operand's postorder descendants are given as the selection itself. */
  lemma PostorderSpanOfOperand()
    ensures
      var e := Expr(1, Select(Some(Expr(2, Ident("v"))), "f", false));
      Postorder(e, 0) == [1, 0] && Size(e) == 2 && DescendantsPostorder(e, 1) == [0]
  {
    hide Postorder;
    hide Size;
    hide Depth;
    hide Lists;
    hide Whole;
    hide DescendantsPostorder;
    var v := Expr(2, Ident("v"));
    var e := Expr(1, Select(Some(v), "f", false));
    OperandPostorder(v, e);
    SpanFacts(e, 1);
    LastListed(e);
    assert [1, 0][1..2] == [0];
  }

  lemma OperandPostorder(v: Expr, e: Expr)
    requires v.kind.Ident? && e.kind == Select(Some(v), "f", false)
    ensures Size(v) == 1 && Size(e) == 2 && Postorder(e, 0) == [1, 0]
  {
    var roles := [Operand];
    IdentAlone(v, 1);
    assert Roles(e) == roles && roles[1..] == [] && Get(e, Operand) == Some(v);
    assert Filled(e, roles) && Filled(e, []);
    assert Sizes(e, []) == 0 && Postorders(e, [], 2) == [];
    assert Sizes(e, roles) == Size(v) + Sizes(e, roles[1..]);
    assert Postorders(e, roles, 1) == Postorder(v, 1) + Postorders(e, roles[1..], 1 + Size(v));
    assert Size(e) == 1 + Sizes(e, roles) && Postorder(e, 0) == Postorders(e, roles, 1) + [0];
  }

  lemma IdentAlone(v: Expr, base: nat)
    requires v.kind.Ident?
    ensures Size(v) == 1 && Postorder(v, base) == [base]
  {
    assert Roles(v) == [] && Filled(v, []);
    assert Sizes(v, []) == 0 && Postorders(v, [], base + 1) == [];
  }

  /** The last of two nodes is a leaf. */
  lemma LastListed(e: Expr)
    requires Size(e) == 2
    ensures |Whole(e)| == 2 && Whole(e)[1].treeSize == 1
  {
    hide Size;
    Subtable(e, 1);
  }
}
