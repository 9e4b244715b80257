/**
 * common/navigable_ast.cc and common/ast/navigable_ast_internal.h: a table of the nodes of an expression in
 * preorder, with parents, sizes and heights, built by a visitor while the expression is traversed.
 */
module NavigableAst {
  import opened Results
  import opened Exprs
  import opened Traversals

  datatype NodeKind =
    | KUnspecified | KConstant | KIdent | KSelect | KCall | KList | KMap | KStruct | KComprehension

  datatype ChildKind =
    | CUnspecified
    | SelectOperand
    | CallReceiver
    | CallArg
    | ListElem
    | MapKey
    | MapValue
    | StructValue
    | ComprehensionRange
    | ComprehensionInit
    | ComprehensionCondition
    | ComprehensionLoopStep
    | ComprehensionResult

  /** A node's entry. References to nodes are indices into the preorder table. */
  datatype NodeData = NodeData(
    parent: Option<nat>,
    expr: Expr,
    parentRelation: ChildKind,
    nodeKind: NodeKind,
    index: nat,
    treeSize: nat,
    height: nat,
    childIndex: int,
    children: seq<nat>)

  function GetNodeKind(e: Expr): NodeKind {
    match e.kind
    case Const(_) => KConstant
    case Ident(_) => KIdent
    case Select(_, _, _) => KSelect
    case Call(_, _, _) => KCall
    case List(_) => KList
    case Struct(_, _) => KStruct
    case Map(_) => KMap
    case Comprehension(_, _, _, _, _, _, _, _) => KComprehension
    case Unspecified => KUnspecified
  }

  function PartKind(part: Part): ChildKind {
    match part
    case IterRange => ComprehensionRange
    case AccuInit => ComprehensionInit
    case LoopCondition => ComprehensionCondition
    case LoopStep => ComprehensionLoopStep
    case Result => ComprehensionResult
  }

  function GetChildKind(parent: NodeData, childIndex: nat, comprehensionArg: Option<Part>): ChildKind {
    match parent.nodeKind
    case KStruct => StructValue
    case KMap => if childIndex % 2 == 0 then MapKey else MapValue
    case KList => ListElem
    case KSelect => SelectOperand
    case KCall =>
      if childIndex == 0 && parent.expr.kind.Call? && parent.expr.kind.target.Some? then CallReceiver else CallArg
    case KComprehension => if comprehensionArg.None? then CUnspecified else PartKind(comprehensionArg.value)
    case _ => CUnspecified
  }

  // ---------- the table, recursively ----------

  /** The relation of the child in a role, as the role itself says. */
  function RoleKind(role: Role): ChildKind {
    match role
    case Operand => SelectOperand
    case Target => CallReceiver
    case Arg(_) => CallArg
    case Elem(_) => ListElem
    case FieldValue(_) => StructValue
    case EntryKey(_) => MapKey
    case EntryValue(_) => MapValue
    case Sub(part) => PartKind(part)
  }

  /** The relation given to the `k`-th child: of a map's children the position decides, not the role. */
  function Relation(e: Expr, role: Role, k: nat): ChildKind {
    if e.kind.Map? then (if k % 2 == 0 then MapKey else MapValue) else RoleKind(role)
  }

  ghost function ChildIndices(e: Expr, roles: seq<Role>, base: nat): seq<nat>
    requires Filled(e, roles)
    decreases |roles|
  {
    if roles == [] then []
    else [base] + ChildIndices(e, roles[1..], base + Size(Get(e, roles[0]).value))
  }

  ghost function Table(e: Expr, base: nat, parent: Option<nat>, childIndex: int, relation: ChildKind): seq<NodeData>
    decreases e, 1, 0
  {
    RolesFilled(e);
    [NodeData(parent, e, relation, GetNodeKind(e), base, Size(e), Height(e), childIndex,
              ChildIndices(e, Roles(e), base + 1))]
    + Tables(e, Roles(e), 0, base + 1, base)
  }

  /** The tables of the children in `roles`, the first of which is child number `k` and has index `base`. */
  ghost function Tables(e: Expr, roles: seq<Role>, k: nat, base: nat, parent: nat): seq<NodeData>
    requires Filled(e, roles)
    decreases e, 0, |roles|
  {
    if roles == [] then []
    else
      var c := Get(e, roles[0]).value;
      Table(c, base, Some(parent), k, Relation(e, roles[0], k)) + Tables(e, roles[1..], k + 1, base + Size(c), parent)
  }

  ghost function Postorder(e: Expr, base: nat): seq<nat>
    decreases e, 1, 0
  {
    RolesFilled(e);
    Postorders(e, Roles(e), base + 1) + [base]
  }

  ghost function Postorders(e: Expr, roles: seq<Role>, base: nat): seq<nat>
    requires Filled(e, roles)
    decreases e, 0, |roles|
  {
    if roles == [] then []
    else
      var c := Get(e, roles[0]).value;
      Postorder(c, base) + Postorders(e, roles[1..], base + Size(c))
  }

  lemma {:induction false} TableSize(e: Expr, base: nat, parent: Option<nat>, childIndex: int, relation: ChildKind)
    ensures |Table(e, base, parent, childIndex, relation)| == Size(e) == |Postorder(e, base)|
    decreases e, 1, 0
  {
    RolesFilled(e);
    TablesSize(e, Roles(e), 0, base + 1, base);
  }

  lemma {:induction false} TablesSize(e: Expr, roles: seq<Role>, k: nat, base: nat, parent: nat)
    requires Filled(e, roles)
    ensures |Tables(e, roles, k, base, parent)| == Sizes(e, roles) == |Postorders(e, roles, base)|
    decreases e, 0, |roles|
  {
    if roles != [] {
      var c := Get(e, roles[0]).value;
      TableSize(c, base, Some(parent), k, Relation(e, roles[0], k));
      TablesSize(e, roles[1..], k + 1, base + Size(c), parent);
    }
  }

  // ---------- the builder ----------

  datatype State = State(
    nodes: seq<NodeData>,
    postorder: seq<nat>,
    parentStack: seq<nat>,
    comprehensionArg: Option<Part>)

  function Max(a: nat, b: nat): nat {
    if a > b then a else b
  }

  ghost predicate Fit(s: State) {
    forall k | 0 <= k < |s.parentStack| :: s.parentStack[k] < |s.nodes|
  }

  function Top(s: State): nat
    requires s.parentStack != []
  {
    s.parentStack[|s.parentStack| - 1]
  }

  /** A node that is entered joins its parent's children and becomes the parent of what follows. */
  function Enter(s: State, e: Expr): State
    requires s.parentStack != [] ==> Top(s) < |s.nodes|
  {
    var n := |s.nodes|;
    var node := NodeData(None, e, CUnspecified, GetNodeKind(e), n, 1, 1, -1, []);
    var t := s.(parentStack := s.parentStack + [n]);
    if s.parentStack == [] then t.(nodes := s.nodes + [node])
    else
      var p := Top(s);
      var k := |s.nodes[p].children|;
      t.(nodes := s.nodes[p := s.nodes[p].(children := s.nodes[p].children + [n])]
        + [node.(parent := Some(p), childIndex := k,
                 parentRelation := GetChildKind(s.nodes[p], k, s.comprehensionArg))])
  }

  /** A node that is left adds its size and height to its parent's. */
  function Leave(s: State): State
    requires s.parentStack != [] && Top(s) < |s.nodes|
    requires |s.parentStack| > 1 ==> s.parentStack[|s.parentStack| - 2] < |s.nodes|
  {
    var i := Top(s);
    var rest := s.parentStack[..|s.parentStack| - 1];
    var t := s.(postorder := s.postorder + [i], parentStack := rest);
    if rest == [] then t
    else
      var p := rest[|rest| - 1];
      t.(nodes := s.nodes[p := s.nodes[p].(
        treeSize := s.nodes[p].treeSize + s.nodes[i].treeSize,
        height := Max(s.nodes[p].height, s.nodes[i].height + 1))])
  }

  /**
   * What the builder's callbacks do; the others are those of AstVisitorBase and do nothing. `None` is where
   * the builder would read past the end of a vector.
   */
  ghost function Apply(s: State, event: Event): Option<State> {
    if !Fit(s) then None
    else
      match event
      case PreVisitExpr(e) => Some(Enter(s, e))
      case PostVisitExpr(_) => if s.parentStack == [] then None else Some(Leave(s))
      case PreVisitComprehensionSubexpression(_, part) => Some(s.(comprehensionArg := Some(part)))
      case _ => Some(s)
  }

  ghost function Run(s: State, events: seq<Event>): Option<State>
    decreases |events|
  {
    if events == [] then Some(s)
    else
      var next := Apply(s, events[0]);
      if next.None? then None else Run(next.value, events[1..])
  }

  lemma {:induction false} RunTwice(s: State, a: seq<Event>, b: seq<Event>)
    ensures Run(s, a + b) == if Run(s, a).None? then None else Run(Run(s, a).value, b)
    decreases |a|
  {
    if a == [] {
      assert a + b == b;
    } else {
      assert (a + b)[0] == a[0] && (a + b)[1..] == a[1..] + b;
      if Apply(s, a[0]).Some? {
        RunTwice(Apply(s, a[0]).value, a[1..], b);
      }
    }
  }

  /** The relation worked out from position and last announced field is that of the role. */
  lemma RelationAgrees(node: NodeData, e: Expr, k: nat, arg: Option<Part>)
    requires node.expr == e && node.nodeKind == GetNodeKind(e) && k < |Roles(e)|
    requires Roles(e)[k].Sub? ==> arg == Some(Roles(e)[k].part)
    ensures GetChildKind(node, k, arg) == Relation(e, Roles(e)[k], k)
  {
    RolesComplete(e);
    assert Roles(e)[k] in Roles(e);
  }

  // ---------- the builder run over a traversal ----------

  /** The nodes there were, the parent among them told of a new child and its subtree. */
  ghost function Hosted(s: State, size: nat, height: nat): seq<NodeData>
    requires Fit(s)
  {
    if s.parentStack == [] then s.nodes
    else
      var n := s.nodes[Top(s)];
      s.nodes[Top(s) := n.(children := n.children + [|s.nodes|], treeSize := n.treeSize + size,
                           height := Max(n.height, height + 1))]
  }

  ghost function ParentOf(s: State): Option<nat> {
    if s.parentStack == [] then None else Some(Top(s))
  }

  ghost function IndexOf(s: State): int
    requires Fit(s)
  {
    if s.parentStack == [] then -1 else |s.nodes[Top(s)].children|
  }

  ghost function RelationOf(s: State): ChildKind
    requires Fit(s)
  {
    if s.parentStack == [] then CUnspecified
    else GetChildKind(s.nodes[Top(s)], |s.nodes[Top(s)].children|, s.comprehensionArg)
  }

  /** A node whose children in `roles` have been dealt with. */
  ghost function Grown(n: NodeData, e: Expr, roles: seq<Role>, base: nat): NodeData
    requires Filled(e, roles)
  {
    n.(children := n.children + ChildIndices(e, roles, base), treeSize := n.treeSize + Sizes(e, roles),
       height := Max(n.height, 1 + Heights(e, roles)))
  }

  lemma {:induction false} RunTrace(s: State, e: Expr)
    requires Fit(s)
    ensures var t := Run(s, Trace(e, true));
      && t.Some? && t.value.parentStack == s.parentStack
      && t.value.postorder == s.postorder + Postorder(e, |s.nodes|)
      && t.value.nodes == Hosted(s, Size(e), Height(e)) + TableAt(s, e)
    decreases e, 1, 0
  {
    hide Run;
    hide Enter;
    hide Leave;
    hide Hosted;
    hide Table;
    hide Tables;
    hide Before;
    hide After;
    hide RelationOf;
    RolesFilled(e);
    var base := |s.nodes|;
    var s1 := Enter(s, e);
    EnteredNode(s, e);
    RunBefore(s, e);
    RunChildren(s1, e, Roles(e), 0);
    var s2 := Run(s1, TraceChildren(e, Roles(e), true)).value;
    RunTwice(s, Before(e), TraceChildren(e, Roles(e), true));
    RunTwice(s, Before(e) + TraceChildren(e, Roles(e), true), After(e));
    RunAfter(s2, e);
    TableOpened(s, e);
    LeaveEntered(s, e, s2);
    assert s2.postorder + [base] == s.postorder + Postorder(e, base);
  }

  predicate Quiet(event: Event) {
    !event.PreVisitExpr? && !event.PostVisitExpr? && !event.PreVisitComprehensionSubexpression?
  }

  lemma {:induction false} RunQuiet(s: State, events: seq<Event>)
    requires Fit(s) && forall k | 0 <= k < |events| :: Quiet(events[k])
    ensures Run(s, events) == Some(s)
    decreases |events|
  {
    if events != [] {
      RunQuiet(s, events[1..]);
    }
  }

  lemma RunNothing(s: State)
    ensures Run(s, []) == Some(s)
  {
  }

  lemma RunOne(s: State, event: Event)
    ensures Run(s, [event]) == Apply(s, event)
  {
    assert [event][1..] == [];
  }

  lemma RunBefore(s: State, e: Expr)
    requires Fit(s)
    ensures Run(s, Before(e)) == Some(Enter(s, e)) && Fit(Enter(s, e))
  {
    hide Enter;
    var quiet := Before(e)[1..];
    assert Before(e) == [PreVisitExpr(e)] + quiet;
    RunOne(s, PreVisitExpr(e));
    RunTwice(s, [PreVisitExpr(e)], quiet);
    EnteredNode(s, e);
    RunQuiet(Enter(s, e), quiet);
  }

  lemma RunAfter(s: State, e: Expr)
    requires Fit(s) && s.parentStack != []
    ensures Run(s, After(e)) == Some(Leave(s))
  {
    var quiet := After(e)[..|After(e)| - 1];
    assert After(e) == quiet + [PostVisitExpr(e)];
    RunQuiet(s, quiet);
    RunTwice(s, quiet, [PostVisitExpr(e)]);
    RunOne(s, PostVisitExpr(e));
  }

  lemma EnteredNode(s: State, e: Expr)
    requires Fit(s)
    ensures
      var s1, base := Enter(s, e), |s.nodes|;
      && Fit(s1) && s1.parentStack == s.parentStack + [base] && |s1.nodes| == base + 1
      && s1.postorder == s.postorder
      && s1.nodes[base]
         == NodeData(ParentOf(s), e, RelationOf(s), GetNodeKind(e), base, 1, 1, IndexOf(s), [])
      && s1.nodes[..base] == (if s.parentStack == [] then s.nodes
         else s.nodes[Top(s) := s.nodes[Top(s)].(children := s.nodes[Top(s)].children + [base])])
  {
  }

  lemma GrownNode(n: NodeData, e: Expr)
    requires Filled(e, Roles(e)) && n.expr == e && n.treeSize == 1 && n.height == 1 && n.children == []
    ensures
      var roles, base := Roles(e), n.index;
      [Grown(n, e, roles, base + 1)] + Tables(e, roles, 0, base + 1, base)
      == if n.nodeKind == GetNodeKind(e) then Table(e, base, n.parent, n.childIndex, n.parentRelation)
         else [Grown(n, e, roles, base + 1)] + Tables(e, roles, 0, base + 1, base)
  {
    assert [] + ChildIndices(e, Roles(e), n.index + 1) == ChildIndices(e, Roles(e), n.index + 1);
  }

  ghost function TableAt(s: State, e: Expr): seq<NodeData>
    requires Fit(s)
  {
    Table(e, |s.nodes|, ParentOf(s), IndexOf(s), RelationOf(s))
  }

  /** The entry of a node whose children are done is complete. */
  lemma TableOpened(s: State, e: Expr)
    requires Fit(s) && Filled(e, Roles(e))
    ensures
      var s1, base := Enter(s, e), |s.nodes|;
      && |s1.nodes| == base + 1
      && s1.nodes[base := Grown(s1.nodes[base], e, Roles(e), base + 1)] + Tables(e, Roles(e), 0, base + 1, base)
         == s1.nodes[..base] + TableAt(s, e)
  {
    hide Enter;
    hide Grown;
    hide Tables;
    hide RelationOf;
    hide IndexOf;
    hide Table;
    hide Roles;
    hide GetNodeKind;
    hide Get;
    hide Filled;
    EnteredNode(s, e);
    var s1, base := Enter(s, e), |s.nodes|;
    GrownNode(s1.nodes[base], e);
    SplitLast(s1.nodes, Grown(s1.nodes[base], e, Roles(e), base + 1), Tables(e, Roles(e), 0, base + 1, base));
  }

  lemma SplitLast(nodes: seq<NodeData>, n: NodeData, rest: seq<NodeData>)
    requires nodes != []
    ensures nodes[|nodes| - 1 := n] + rest == nodes[..|nodes| - 1] + ([n] + rest)
  {
  }

  lemma TableHead(s: State, e: Expr)
    requires Fit(s)
    ensures TableAt(s, e) != [] && TableAt(s, e)[0].treeSize == Size(e) && TableAt(s, e)[0].height == Height(e)
  {
    RolesFilled(e);
  }

  /** Leaving a node whose children are done completes its parent's entry. */
  lemma LeaveEntered(s: State, e: Expr, t: State)
    requires Fit(s) && Fit(t)
    requires t.parentStack == Enter(s, e).parentStack && |Enter(s, e).nodes| == |s.nodes| + 1
    requires t.nodes == Enter(s, e).nodes[..|s.nodes|] + TableAt(s, e)
    ensures Leave(t).nodes == Hosted(s, Size(e), Height(e)) + TableAt(s, e)
    ensures Leave(t).parentStack == s.parentStack && Leave(t).postorder == t.postorder + [|s.nodes|]
  {
    hide Sizes;
    EnteredNode(s, e);
    TableHead(s, e);
    hide Enter;
    hide TableAt;
    hide Size;
    hide Height;
    hide Hosted;
    hide GetNodeKind;
    hide GetChildKind;
    hide IndexOf;
    hide RelationOf;
    var host := Enter(s, e).nodes[..|s.nodes|];
    assert t.parentStack[..|t.parentStack| - 1] == s.parentStack;
    assert t.nodes[|s.nodes|] == TableAt(s, e)[0];
    if s.parentStack != [] {
      HostUpdated(s, host, TableAt(s, e));
    } else {
      HostUnchanged(s, Size(e), Height(e));
    }
  }

  lemma HostUnchanged(s: State, size: nat, height: nat)
    requires s.parentStack == []
    ensures Hosted(s, size, height) == s.nodes
  {
  }

  lemma HostUpdated(s: State, host: seq<NodeData>, table: seq<NodeData>)
    requires Fit(s) && s.parentStack != [] && table != []
    requires host == s.nodes[Top(s) := s.nodes[Top(s)].(children := s.nodes[Top(s)].children + [|s.nodes|])]
    ensures
      var p, all := Top(s), host + table;
      all[p := all[p].(treeSize := all[p].treeSize + table[0].treeSize,
        height := Max(all[p].height, table[0].height + 1))]
      == Hosted(s, table[0].treeSize, table[0].height) + table
  {
    var p := Top(s);
    var n := host[p].(treeSize := host[p].treeSize + table[0].treeSize,
      height := Max(host[p].height, table[0].height + 1));
    assert (host + table)[p] == host[p];
    assert (host + table)[p := n] == host[p := n] + table;
    assert host[p := n] == s.nodes[p := n];
  }

  /** A node told of a child of the given size and height, which is entered at `base`. */
  function WithChild(n: NodeData, base: nat, size: nat, height: nat): NodeData {
    n.(children := n.children + [base], treeSize := n.treeSize + size, height := Max(n.height, height + 1))
  }

  lemma AnnouncePart(s: State, e: Expr, role: Role)
    requires Fit(s)
    ensures Run(s, BeforeChild(e, role, true)) == Some(if role.Sub? then s.(comprehensionArg := Some(role.part)) else s)
  {
    if role.Sub? {
      assert BeforeChild(e, role, true)[1..] == [];
    }
  }

  lemma PassChild(s: State, e: Expr, role: Role)
    requires Fit(s)
    ensures Run(s, AfterChild(e, role, true)) == Some(s)
  {
    if AfterChild(e, role, true) != [] {
      assert AfterChild(e, role, true)[1..] == [];
    }
  }

  lemma {:induction false} RunChild(s: State, e: Expr, k: nat)
    requires Fit(s) && s.parentStack != [] && Filled(e, Roles(e)) && k < |Roles(e)|
    requires var n := s.nodes[Top(s)]; n.expr == e && n.nodeKind == GetNodeKind(e) && |n.children| == k
    ensures
      var role, base := Roles(e)[k], |s.nodes|;
      var t, c := Run(s, TraceChild(e, role, true)), Get(e, role).value;
      && t.Some? && t.value.parentStack == s.parentStack && Fit(t.value)
      && t.value.postorder == s.postorder + Postorder(c, base)
      && t.value.nodes == s.nodes[Top(s) := WithChild(s.nodes[Top(s)], base, Size(c), Height(c))]
                        + Table(c, base, Some(Top(s)), k, Relation(e, role, k))
    decreases e, 0, 0
  {
    hide Trace;
    hide Apply;
    hide Roles;
    hide Table;
    hide Run;
    var role := Roles(e)[k];
    var c := Get(e, role).value;
    var s1 := if role.Sub? then s.(comprehensionArg := Some(role.part)) else s;
    AnnouncePart(s, e, role);
    RelationAgrees(s.nodes[Top(s)], e, k, s1.comprehensionArg);
    RunTrace(s1, c);
    RunTwice(s, BeforeChild(e, role, true), Trace(c, true));
    RunTwice(s, BeforeChild(e, role, true) + Trace(c, true), AfterChild(e, role, true));
    PassChild(Run(s1, Trace(c, true)).value, e, role);
  }

  lemma GrowTwice(nodes: seq<NodeData>, p: nat, n1: NodeData, n2: NodeData, x: seq<NodeData>, y: seq<NodeData>)
    requires p < |nodes|
    ensures (nodes[p := n1] + x)[p] == n1
    ensures (nodes[p := n1] + x)[p := n2] + y == nodes[p := n2] + (x + y)
  {
  }

  lemma GrownOnce(n: NodeData, e: Expr, roles: seq<Role>, base: nat)
    requires roles != [] && Filled(e, roles)
    ensures
      var c := Get(e, roles[0]).value;
      Grown(WithChild(n, base, Size(c), Height(c)), e, roles[1..], base + Size(c)) == Grown(n, e, roles, base)
  {
    var c := Get(e, roles[0]).value;
    assert n.children + [base] + ChildIndices(e, roles[1..], base + Size(c))
      == n.children + ChildIndices(e, roles, base);
  }

  lemma {:induction false} RunChildren(s: State, e: Expr, roles: seq<Role>, k: nat)
    requires Fit(s) && s.parentStack != [] && Filled(e, Roles(e)) && Filled(e, roles)
    requires k <= |Roles(e)| && roles == Roles(e)[k..]
    requires var n := s.nodes[Top(s)];
      n.expr == e && n.nodeKind == GetNodeKind(e) && |n.children| == k && n.height >= 1
    ensures var t := Run(s, TraceChildren(e, roles, true));
      && t.Some? && t.value.parentStack == s.parentStack && Fit(t.value)
      && t.value.postorder == s.postorder + Postorders(e, roles, |s.nodes|)
      && t.value.nodes == s.nodes[Top(s) := Grown(s.nodes[Top(s)], e, roles, |s.nodes|)]
                        + Tables(e, roles, k, |s.nodes|, Top(s))
    decreases e, 0, |roles|
  {
    hide Roles;
    hide Apply;
    hide Run;
    hide Table;
    hide TraceChild;
    hide Relation;
    hide Postorder;
    hide GetNodeKind;
    hide Get;
    hide FieldRoles;
    var p, base := Top(s), |s.nodes|;
    if roles == [] {
      RunNothing(s);
      assert s.nodes[p].children + [] == s.nodes[p].children;
      assert s.nodes[p := Grown(s.nodes[p], e, roles, base)] == s.nodes;
    } else {
      var c := Get(e, roles[0]).value;
      RunChild(s, e, k);
      TableSize(c, base, Some(p), k, Relation(e, roles[0], k));
      var t := Run(s, TraceChild(e, roles[0], true)).value;
      RunChildren(t, e, roles[1..], k + 1);
      RunTwice(s, TraceChild(e, roles[0], true), TraceChildren(e, roles[1..], true));
      ChildrenJoin(s.nodes, p, e, roles, k);
    }
  }

  /** One child and then the rest are all the children. */
  lemma ChildrenJoin(nodes: seq<NodeData>, p: nat, e: Expr, roles: seq<Role>, k: nat)
    requires p < |nodes| && roles != [] && Filled(e, roles)
    ensures
      var c, base := Get(e, roles[0]).value, |nodes|;
      var n1 := WithChild(nodes[p], base, Size(c), Height(c));
      var first := Table(c, base, Some(p), k, Relation(e, roles[0], k));
      var after := nodes[p := n1] + first;
      && after[p] == n1
      && after[p := Grown(n1, e, roles[1..], base + Size(c))] + Tables(e, roles[1..], k + 1, base + Size(c), p)
         == nodes[p := Grown(nodes[p], e, roles, base)] + Tables(e, roles, k, base, p)
  {
    hide Table;
    hide Tables;
    hide Relation;
    hide Grown;
    hide Size;
    hide Height;
    hide WithChild;
    hide Get;
    var c, base := Get(e, roles[0]).value, |nodes|;
    GrownOnce(nodes[p], e, roles, base);
    TablesUnfold(e, roles, k, base, p);
    GrowTwice(nodes, p, WithChild(nodes[p], base, Size(c), Height(c)), Grown(nodes[p], e, roles, base),
      Table(c, base, Some(p), k, Relation(e, roles[0], k)), Tables(e, roles[1..], k + 1, base + Size(c), p));
  }

  lemma TablesUnfold(e: Expr, roles: seq<Role>, k: nat, base: nat, parent: nat)
    requires Filled(e, roles) && roles != []
    ensures
      var x := Get(e, roles[0]).value;
      var first := Table(x, base, Some(parent), k, Relation(e, roles[0], k));
      |first| == Size(x)
        && Tables(e, roles, k, base, parent) == first + Tables(e, roles[1..], k + 1, base + Size(x), parent)
  {
    var x := Get(e, roles[0]).value;
    TableSize(x, base, Some(parent), k, Relation(e, roles[0], k));
  }

  // ---------- the builder's code ----------

  /** NavigableExprBuilderVisitor: the callbacks that do something, and the metadata they fill. */
  class Builder {
    var nodes: seq<NodeData>
    var postorder: seq<nat>
    var idToNode: map<int, nat>
    var parentStack: seq<nat>
    var comprehensionArg: Option<Part>

    constructor ()
      ensures AsState() == State([], [], [], None) && IdsAreFirst()
    {
      nodes := [];
      postorder := [];
      idToNode := map[];
      parentStack := [];
      comprehensionArg := None;
    }

    ghost function AsState(): State
      reads this
    {
      State(nodes, postorder, parentStack, comprehensionArg)
    }

    /** Of the nodes with an id, the table knows the first in preorder. */
    ghost predicate IdsAreFirst()
      reads this
    {
      && (forall k | 0 <= k < |nodes| :: nodes[k].expr.id in idToNode && idToNode[nodes[k].expr.id] <= k)
      && (forall id | id in idToNode :: idToNode[id] < |nodes| && nodes[idToNode[id]].expr.id == id)
    }

    method PreVisitExpr(expr: Expr)
      requires Fit(AsState()) && IdsAreFirst()
      modifies this
      ensures AsState() == Enter(old(AsState()), expr) && IdsAreFirst()
    {
      var index := |nodes|;
      var node := NodeData(None, expr, CUnspecified, GetNodeKind(expr), index, 1, 1, -1, []);
      nodes := nodes + [node];
      if expr.id !in idToNode {
        idToNode := idToNode[expr.id := index];
      }
      if parentStack != [] {
        var parent := parentStack[|parentStack| - 1];
        var childIndex := |nodes[parent].children|;
        var relation := GetChildKind(nodes[parent], childIndex, comprehensionArg);
        nodes := nodes[parent := nodes[parent].(children := nodes[parent].children + [index])];
        nodes := nodes[index := node.(parent := Some(parent), parentRelation := relation, childIndex := childIndex)];
      }
      parentStack := parentStack + [index];
    }

    method PreVisitComprehensionSubexpression(part: Part)
      requires IdsAreFirst()
      modifies this`comprehensionArg
      ensures AsState() == old(AsState()).(comprehensionArg := Some(part)) && IdsAreFirst()
    {
      comprehensionArg := Some(part);
    }

    method PostVisitExpr()
      requires Fit(AsState()) && parentStack != [] && IdsAreFirst()
      modifies this
      ensures AsState() == Leave(old(AsState())) && IdsAreFirst()
    {
      var index := parentStack[|parentStack| - 1];
      parentStack := parentStack[..|parentStack| - 1];
      postorder := postorder + [index];
      var node := nodes[index];
      if parentStack != [] {
        var parent := parentStack[|parentStack| - 1];
        nodes := nodes[parent := nodes[parent].(
          treeSize := nodes[parent].treeSize + node.treeSize,
          height := Max(nodes[parent].height, node.height + 1))];
      }
    }

    method Visit(event: Event)
      requires Apply(AsState(), event).Some? && IdsAreFirst()
      modifies this
      ensures Apply(old(AsState()), event) == Some(AsState()) && IdsAreFirst()
    {
      match event {
        case PreVisitExpr(e) => PreVisitExpr(e);
        case PostVisitExpr(_) => PostVisitExpr();
        case PreVisitComprehensionSubexpression(_, part) => PreVisitComprehensionSubexpression(part);
        case _ =>
      }
    }

    method FindId(id: int) returns (node: Option<nat>)
      requires IdsAreFirst()
      ensures node.None? <==> forall k | 0 <= k < |nodes| :: nodes[k].expr.id != id
      ensures node.Some? ==> node.value < |nodes| && nodes[node.value].expr.id == id
      ensures node.Some? ==> forall k | 0 <= k < node.value :: nodes[k].expr.id != id
    {
      if id in idToNode {
        return Some(idToNode[id]);
      }
      return None;
    }

    method IdsAreUnique() returns (unique: bool)
      requires IdsAreFirst()
      ensures unique <==> forall j, k | 0 <= j < k < |nodes| :: nodes[j].expr.id != nodes[k].expr.id
    {
      unique := |idToNode| == |nodes|;
      ghost var ids := seq(|nodes|, k requires 0 <= k < |nodes| reads this => nodes[k].expr.id);
      IdsCounted(ids);
      forall id | id in idToNode ensures id in ids {
        assert ids[idToNode[id]] == id;
      }
      forall k | 0 <= k < |nodes| ensures ids[k] in idToNode {
        assert ids[k] == nodes[k].expr.id;
      }
      assert idToNode.Keys == set id | id in ids;
      assert forall k | 0 <= k < |nodes| :: ids[k] == nodes[k].expr.id;
    }
  }

  lemma {:induction false} IdsCounted(ids: seq<int>)
    ensures |set id | id in ids| <= |ids|
    ensures |set id | id in ids| == |ids| <==> forall j, k | 0 <= j < k < |ids| :: ids[j] != ids[k]
    decreases |ids|
  {
    if ids != [] {
      var last, rest := ids[|ids| - 1], ids[..|ids| - 1];
      IdsCounted(rest);
      assert ids == rest + [last];
      assert (set id | id in ids) == (set id | id in rest) + {last};
      if last in rest {
        var j :| 0 <= j < |rest| && rest[j] == last;
        assert ids[j] == ids[|ids| - 1];
      } else {
        assert forall j | 0 <= j < |rest| :: ids[j] == rest[j];
      }
    }
  }

  const START := State([], [], [], None)

  lemma RunFromStart(e: Expr)
    ensures var t := Run(START, Trace(e, true));
      t.Some? && t.value.nodes == Table(e, 0, None, -1, CUnspecified) && t.value.postorder == Postorder(e, 0)
  {
    RunTrace(START, e);
    assert START.postorder + Postorder(e, 0) == Postorder(e, 0);
  }

  lemma RunNext(s: State, events: seq<Event>, i: nat)
    requires i < |events|
    ensures Run(s, events[i..]).Some? ==>
      Apply(s, events[i]).Some? && Run(s, events[i..]) == Run(Apply(s, events[i]).value, events[i + 1..])
  {
    assert events[i..][1..] == events[i + 1..];
  }

  /** NavigableAst::Build makes the preorder table and the postorder list of the expression. */
  method Build(expr: Expr) returns (builder: Builder)
    ensures builder.nodes == Table(expr, 0, None, -1, CUnspecified)
    ensures builder.postorder == Postorder(expr, 0)
    ensures builder.IdsAreFirst()
  {
    hide Run;
    hide Apply;
    hide Trace;
    hide Table;
    hide Postorder;
    var visitor := new Visitor();
    AstTraverse(expr, visitor, true);
    builder := new Builder();
    var log := visitor.log;
    RunFromStart(expr);
    assert log == Trace(expr, true) && log[0..] == log;
    for i := 0 to |log|
      invariant fresh(builder) && builder.IdsAreFirst()
      invariant Run(builder.AsState(), log[i..]) == Run(START, log)
    {
      RunNext(builder.AsState(), log, i);
      builder.Visit(log[i]);
    }
    assert log[|log|..] == [];
    RunNothing(builder.AsState());
  }
}
