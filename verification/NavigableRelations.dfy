/**
 * What the table of a navigable expression says of each node's children, kind by kind: which child expression stands
 * at which place and under which relation (common/navigable_ast.cc:67-107).
 */
module NavigableRelations {
  import opened Results
  import opened Exprs
  import opened NavigableAst
  import opened NavigableLayout

  /** The `k`-th child of node `i` is the node of `child`, links back, and has the relation. */
  predicate HasChild(t: seq<NodeData>, i: nat, k: nat, child: Expr, relation: ChildKind)
    requires i < |t|
  {
    && k < |t[i].children|
    && var c := t[i].children[k];
    && i < c < |t| && t[c].expr == child && t[c].parentRelation == relation
    && t[c].parent == Some(i) && t[c].childIndex == k
  }

  lemma ChildInRole(e: Expr, i: nat, k: nat, role: Role)
    requires |Whole(e)| == Size(e) && i < Size(e)
    requires k < |Roles(Whole(e)[i].expr)| && Roles(Whole(e)[i].expr)[k] == role
    ensures
      var n := Whole(e)[i];
      && |n.children| == |Roles(n.expr)| && Get(n.expr, role).Some?
      && HasChild(Whole(e), i, k, Get(n.expr, role).value, Relation(n.expr, role, k))
  {
    hide Whole;
    hide Roles;
    hide Get;
    hide Relation;
    ChildrenLinkBack(e, i, k);
  }

  lemma ChildrenCounted(e: Expr, i: nat)
    requires i < Size(e)
    ensures |Whole(e)| == Size(e) && |Whole(e)[i].children| == |Roles(Whole(e)[i].expr)|
  {
    hide Table;
    hide Roles;
    Subtable(e, i);
    var n := Whole(e)[i];
    TableStarts(n.expr, i, n.parent, n.childIndex, n.parentRelation);
    CountChildren(n.expr, Roles(n.expr), i + 1);
    var block := Table(n.expr, i, n.parent, n.childIndex, n.parentRelation);
    assert block[0] == Whole(e)[i + 0];
  }

  /** Node kinds are the kinds of the expressions. */
  lemma NodeKinds(e: Expr, i: nat)
    requires i < Size(e)
    ensures |Whole(e)| == Size(e)
    ensures
      var n := Whole(e)[i];
      && (n.nodeKind == KUnspecified <==> n.expr.kind.Unspecified?)
      && (n.nodeKind == KConstant <==> n.expr.kind.Const?)
      && (n.nodeKind == KIdent <==> n.expr.kind.Ident?)
      && (n.nodeKind == KSelect <==> n.expr.kind.Select?)
      && (n.nodeKind == KCall <==> n.expr.kind.Call?)
      && (n.nodeKind == KList <==> n.expr.kind.List?)
      && (n.nodeKind == KMap <==> n.expr.kind.Map?)
      && (n.nodeKind == KStruct <==> n.expr.kind.Struct?)
      && (n.nodeKind == KComprehension <==> n.expr.kind.Comprehension?)
  {
    hide Roles;
    hide Tables;
    Subtable(e, i);
    var n := Whole(e)[i];
    var block := Table(n.expr, i, n.parent, n.childIndex, n.parentRelation);
    assert block[0] == Whole(e)[i + 0];
    assert block[0].nodeKind == GetNodeKind(n.expr);
  }

  /** A comprehension's five parts, each under its own relation. */
  lemma ComprehensionChildren(e: Expr, i: nat)
    requires |Whole(e)| == Size(e) && i < Size(e) && Whole(e)[i].expr.kind.Comprehension?
    ensures
      var t := Whole(e);
      var kind := t[i].expr.kind;
      && |t[i].children| == 5
      && HasChild(t, i, 0, kind.iterRange, ComprehensionRange)
      && HasChild(t, i, 1, kind.accuInit, ComprehensionInit)
      && HasChild(t, i, 2, kind.loopCondition, ComprehensionCondition)
      && HasChild(t, i, 3, kind.loopStep, ComprehensionLoopStep)
      && HasChild(t, i, 4, kind.result, ComprehensionResult)
  {
    hide Whole;
    hide HasChild;
    ChildrenCounted(e, i);
    ChildInRole(e, i, 0, Sub(IterRange));
    ChildInRole(e, i, 1, Sub(AccuInit));
    ChildInRole(e, i, 2, Sub(LoopCondition));
    ChildInRole(e, i, 3, Sub(LoopStep));
    ChildInRole(e, i, 4, Sub(Result));
  }

  lemma SelectChildren(e: Expr, i: nat)
    requires |Whole(e)| == Size(e) && i < Size(e) && Whole(e)[i].expr.kind.Select?
    ensures
      var t := Whole(e);
      var operand := t[i].expr.kind.operand;
      if operand.None? then t[i].children == []
      else |t[i].children| == 1 && HasChild(t, i, 0, operand.value, SelectOperand)
  {
    hide Whole;
    hide HasChild;
    ChildrenCounted(e, i);
    if Whole(e)[i].expr.kind.operand.Some? {
      ChildInRole(e, i, 0, Operand);
    }
  }

  /** A receiver is the first child; the arguments follow in order, or stand alone. */
  lemma CallChildren(e: Expr, i: nat)
    requires |Whole(e)| == Size(e) && i < Size(e) && Whole(e)[i].expr.kind.Call?
    ensures
      var t := Whole(e);
      var kind := t[i].expr.kind;
      var first := if kind.target.Some? then 1 else 0;
      && |t[i].children| == first + |kind.args|
      && (kind.target.Some? ==> HasChild(t, i, 0, kind.target.value, CallReceiver))
      && forall k | 0 <= k < |kind.args| :: HasChild(t, i, first + k, kind.args[k], CallArg)
  {
    hide Whole;
    hide HasChild;
    ChildrenCounted(e, i);
    var t := Whole(e);
    var kind := t[i].expr.kind;
    var first := if kind.target.Some? then 1 else 0;
    if kind.target.Some? {
      ChildInRole(e, i, 0, Target);
    }
    forall k | 0 <= k < |kind.args| ensures HasChild(t, i, first + k, kind.args[k], CallArg) {
      ChildInRole(e, i, first + k, Arg(k));
    }
  }

  lemma ListChildren(e: Expr, i: nat)
    requires |Whole(e)| == Size(e) && i < Size(e) && Whole(e)[i].expr.kind.List?
    ensures
      var t := Whole(e);
      var elements := t[i].expr.kind.elements;
      && |t[i].children| == |elements|
      && forall k | 0 <= k < |elements| :: HasChild(t, i, k, elements[k].expr, ListElem)
  {
    hide Whole;
    hide HasChild;
    ChildrenCounted(e, i);
    var t := Whole(e);
    var elements := t[i].expr.kind.elements;
    forall k | 0 <= k < |elements| ensures HasChild(t, i, k, elements[k].expr, ListElem) {
      ChildInRole(e, i, k, Elem(k));
    }
  }

  /** How many of the first `j` fields have a value. */
  function ValuesBefore(fields: seq<Field>, j: nat): nat
    requires j <= |fields|
  {
    if j == 0 then 0 else ValuesBefore(fields, j - 1) + if fields[j - 1].value.Some? then 1 else 0
  }

  lemma ValuesStep(fields: seq<Field>, j: nat)
    requires j < |fields|
    ensures ValuesBefore(fields, j + 1) == ValuesBefore(fields, j) + if fields[j].value.Some? then 1 else 0
  {
  }

  lemma NoFieldBefore(fields: seq<Field>)
    ensures ValuesBefore(fields, 0) == 0
  {
  }

  lemma DropTwice(roles: seq<Role>, n: nat, k: nat)
    requires n + k <= |roles|
    ensures roles[n..][k..] == roles[n + k..]
  {
  }

  lemma FieldSplits(fields: seq<Field>, j: nat)
    requires j <= |fields|
    ensures j == |fields| ==> FieldRoles(fields, j) == []
    ensures j < |fields| && fields[j].value.Some? ==>
      && FieldRoles(fields, j) != [] && FieldRoles(fields, j)[0] == FieldValue(j)
      && FieldRoles(fields, j)[1..] == FieldRoles(fields, j + 1)
    ensures j < |fields| && fields[j].value.None? ==> FieldRoles(fields, j) == FieldRoles(fields, j + 1)
  {
  }

  /** The roles of the later fields are what is left of all roles when those of the first `j` are dropped. */
  lemma {:induction false} LaterFields(fields: seq<Field>, j: nat)
    requires j <= |fields|
    ensures ValuesBefore(fields, j) <= |FieldRoles(fields, 0)|
    ensures FieldRoles(fields, 0)[ValuesBefore(fields, j)..] == FieldRoles(fields, j)
    decreases j
  {
    hide FieldRoles;
    hide ValuesBefore;
    if j == 0 {
      NoFieldBefore(fields);
    } else {
      LaterFields(fields, j - 1);
      FieldSplits(fields, j - 1);
      ValuesStep(fields, j - 1);
      if fields[j - 1].value.Some? {
        DropTwice(FieldRoles(fields, 0), ValuesBefore(fields, j - 1), 1);
      }
    }
  }

  lemma FieldPlace(fields: seq<Field>, j: nat)
    requires j <= |fields|
    ensures |FieldRoles(fields, 0)| == ValuesBefore(fields, |fields|)
    ensures j < |fields| && fields[j].value.Some? ==>
      var k := ValuesBefore(fields, j);
      k < |FieldRoles(fields, 0)| && FieldRoles(fields, 0)[k] == FieldValue(j)
  {
    hide FieldRoles;
    hide ValuesBefore;
    LaterFields(fields, j);
    LaterFields(fields, |fields|);
    FieldSplits(fields, j);
    FieldSplits(fields, |fields|);
    var n := ValuesBefore(fields, j);
    if j < |fields| && fields[j].value.Some? {
      assert FieldRoles(fields, 0)[n..][0] == FieldRoles(fields, 0)[n];
    }
  }

  /** The values that are there are a struct's children, in order. */
  lemma StructChildren(e: Expr, i: nat)
    requires |Whole(e)| == Size(e) && i < Size(e) && Whole(e)[i].expr.kind.Struct?
    ensures
      var t := Whole(e);
      var fields := t[i].expr.kind.fields;
      && |t[i].children| == ValuesBefore(fields, |fields|)
      && forall j | 0 <= j < |fields| && fields[j].value.Some? ::
           HasChild(t, i, ValuesBefore(fields, j), fields[j].value.value, StructValue)
  {
    hide Whole;
    hide HasChild;
    hide ValuesBefore;
    hide FieldRoles;
    ChildrenCounted(e, i);
    var t := Whole(e);
    var fields := t[i].expr.kind.fields;
    FieldPlace(fields, 0);
    forall j | 0 <= j < |fields| && fields[j].value.Some?
      ensures HasChild(t, i, ValuesBefore(fields, j), fields[j].value.value, StructValue)
    {
      FieldPlace(fields, j);
      ChildInRole(e, i, ValuesBefore(fields, j), FieldValue(j));
    }
  }

  /** How many keys and values the first `j` entries have. */
  function FilledBefore(entries: seq<Entry>, j: nat): nat
    requires j <= |entries|
  {
    if j == 0 then 0
    else
      FilledBefore(entries, j - 1)
      + (if entries[j - 1].key.Some? then 1 else 0) + (if entries[j - 1].value.Some? then 1 else 0)
  }

  /** The place of an entry's value among the children. */
  function ValuePlace(entries: seq<Entry>, j: nat): nat
    requires j < |entries|
  {
    FilledBefore(entries, j) + if entries[j].key.Some? then 1 else 0
  }

  /** How many roles an entry fills. */
  function EntryCount(entries: seq<Entry>, j: nat): nat
    requires j < |entries|
  {
    (if entries[j].key.Some? then 1 else 0) + (if entries[j].value.Some? then 1 else 0)
  }

  lemma FilledStep(entries: seq<Entry>, j: nat)
    requires j < |entries|
    ensures FilledBefore(entries, j + 1) == FilledBefore(entries, j) + EntryCount(entries, j)
  {
  }

  lemma NoEntryBefore(entries: seq<Entry>)
    ensures FilledBefore(entries, 0) == 0
  {
  }

  lemma EntrySplits(entries: seq<Entry>, j: nat)
    requires j <= |entries|
    ensures j == |entries| ==> EntryRoles(entries, j) == []
    ensures j < |entries| ==>
      var roles := EntryRoles(entries, j);
      && EntryCount(entries, j) <= |roles| && roles[EntryCount(entries, j)..] == EntryRoles(entries, j + 1)
      && (entries[j].key.Some? ==> roles[0] == EntryKey(j))
      && (entries[j].value.Some? ==> roles[if entries[j].key.Some? then 1 else 0] == EntryValue(j))
  {
  }

  /** The roles of the later entries are what is left of all roles when those of the first `j` are dropped. */
  lemma {:induction false} LaterRoles(entries: seq<Entry>, j: nat)
    requires j <= |entries|
    ensures FilledBefore(entries, j) <= |EntryRoles(entries, 0)|
    ensures EntryRoles(entries, 0)[FilledBefore(entries, j)..] == EntryRoles(entries, j)
    decreases j
  {
    hide EntryRoles;
    hide FilledBefore;
    hide EntryCount;
    if j == 0 {
      NoEntryBefore(entries);
    } else {
      LaterRoles(entries, j - 1);
      EntrySplits(entries, j - 1);
      FilledStep(entries, j - 1);
      DropTwice(EntryRoles(entries, 0), FilledBefore(entries, j - 1), EntryCount(entries, j - 1));
    }
  }

  lemma EntryPlace(entries: seq<Entry>, j: nat)
    requires j <= |entries|
    ensures |EntryRoles(entries, 0)| == FilledBefore(entries, |entries|)
    ensures j < |entries| && entries[j].key.Some? ==>
      var k := FilledBefore(entries, j);
      k < |EntryRoles(entries, 0)| && EntryRoles(entries, 0)[k] == EntryKey(j)
    ensures j < |entries| && entries[j].value.Some? ==>
      var k := ValuePlace(entries, j);
      k < |EntryRoles(entries, 0)| && EntryRoles(entries, 0)[k] == EntryValue(j)
  {
    hide EntryRoles;
    hide FilledBefore;
    LaterRoles(entries, j);
    LaterRoles(entries, |entries|);
    EntrySplits(entries, j);
    EntrySplits(entries, |entries|);
    var all, n := EntryRoles(entries, 0), FilledBefore(entries, j);
    if j < |entries| && entries[j].key.Some? {
      assert all[n..][0] == all[n];
    }
    if j < |entries| && entries[j].value.Some? {
      var k := if entries[j].key.Some? then 1 else 0;
      assert all[n..][k] == all[n + k];
    }
  }

  /** The relation of a map's child at a place. */
  function Parity(k: nat): ChildKind {
    if k % 2 == 0 then MapKey else MapValue
  }

  /** The keys and values that are there are a map's children, in order, with relations by the parity of their place. */
  lemma MapChildren(e: Expr, i: nat)
    requires |Whole(e)| == Size(e) && i < Size(e) && Whole(e)[i].expr.kind.Map?
    ensures
      var t := Whole(e);
      var entries := t[i].expr.kind.entries;
      && |t[i].children| == FilledBefore(entries, |entries|)
      && (forall j | 0 <= j < |entries| && entries[j].key.Some? ::
            HasChild(t, i, FilledBefore(entries, j), entries[j].key.value, Parity(FilledBefore(entries, j))))
      && (forall j | 0 <= j < |entries| && entries[j].value.Some? ::
            HasChild(t, i, ValuePlace(entries, j), entries[j].value.value, Parity(ValuePlace(entries, j))))
  {
    hide Whole;
    hide HasChild;
    hide FilledBefore;
    hide ValuePlace;
    hide EntryRoles;
    ChildrenCounted(e, i);
    var t := Whole(e);
    var entries := t[i].expr.kind.entries;
    EntryPlace(entries, 0);
    forall j | 0 <= j < |entries| && entries[j].key.Some?
      ensures HasChild(t, i, FilledBefore(entries, j), entries[j].key.value, Parity(FilledBefore(entries, j)))
    {
      EntryPlace(entries, j);
      ChildInRole(e, i, FilledBefore(entries, j), EntryKey(j));
    }
    forall j | 0 <= j < |entries| && entries[j].value.Some?
      ensures HasChild(t, i, ValuePlace(entries, j), entries[j].value.value, Parity(ValuePlace(entries, j)))
    {
      EntryPlace(entries, j);
      ChildInRole(e, i, ValuePlace(entries, j), EntryValue(j));
    }
  }

  /** Keys are called keys and values values throughout exactly when the entries are in step. */
  lemma {:induction false} ParityIsInStep(entries: seq<Entry>, i: nat)
    requires i <= |entries|
    ensures InStep(entries, i, FilledBefore(entries, i) % 2 == 0)
      <==>
      forall j | i <= j < |entries| ::
        && (entries[j].key.Some? ==> Parity(FilledBefore(entries, j)) == MapKey)
        && (entries[j].value.Some? ==> Parity(ValuePlace(entries, j)) == MapValue)
    decreases |entries| - i
  {
    if i < |entries| {
      ParityIsInStep(entries, i + 1);
    }
  }

  /** So in a map that is in step each key and each value has its own relation. */
  lemma MapChildrenInStep(e: Expr, i: nat)
    requires |Whole(e)| == Size(e) && i < Size(e) && Whole(e)[i].expr.kind.Map?
    requires InStep(Whole(e)[i].expr.kind.entries, 0, true)
    ensures
      var t := Whole(e);
      var entries := t[i].expr.kind.entries;
      && (forall j | 0 <= j < |entries| && entries[j].key.Some? ::
            HasChild(t, i, FilledBefore(entries, j), entries[j].key.value, MapKey))
      && (forall j | 0 <= j < |entries| && entries[j].value.Some? ::
            HasChild(t, i, ValuePlace(entries, j), entries[j].value.value, MapValue))
  {
    hide Whole;
    hide HasChild;
    hide ValuePlace;
    hide Parity;
    hide InStep;
    var entries := Whole(e)[i].expr.kind.entries;
    MapChildren(e, i);
    ParityIsInStep(entries, 0);
  }

  lemma {:induction false} HeightsMean(e: Expr, roles: seq<Role>)
    requires Filled(e, roles)
    ensures forall k | 0 <= k < |roles| :: Height(Get(e, roles[k]).value) <= Heights(e, roles)
    ensures roles != [] ==> exists k :: 0 <= k < |roles| && Height(Get(e, roles[k]).value) == Heights(e, roles)
    ensures roles == [] ==> Heights(e, roles) == 0
    decreases |roles|
  {
    hide Get;
    hide Height;
    if roles != [] {
      HeightsMean(e, roles[1..]);
      assert forall k | 0 < k < |roles| :: roles[k] == roles[1..][k - 1];
      if |roles| > 1 && Heights(e, roles[1..]) > Height(Get(e, roles[0]).value) {
        var k :| 0 <= k < |roles[1..]| && Height(Get(e, roles[1..][k]).value) == Heights(e, roles[1..]);
        assert roles[k + 1] == roles[1..][k];
      }
    }
  }

  /** The height of the node that child `k` of node `i` leads to. */
  function ChildHeight(t: seq<NodeData>, i: nat, k: nat): nat
    requires i < |t| && k < |t[i].children|
  {
    var c := t[i].children[k];
    if c < |t| then t[c].height else 0
  }

  /** A node is one higher than its highest child, and a node without children has height one. */
  lemma HeightMeans(e: Expr, i: nat)
    requires |Whole(e)| == Size(e) && i < Size(e)
    ensures
      var t := Whole(e);
      && (t[i].children == [] ==> t[i].height == 1)
      && (forall k | 0 <= k < |t[i].children| :: ChildHeight(t, i, k) < t[i].height)
      && (t[i].children != [] ==> exists k :: 0 <= k < |t[i].children| && t[i].height == 1 + ChildHeight(t, i, k))
  {
    hide Whole;
    hide Get;
    hide Roles;
    hide Relation;
    hide Heights;
    var t, n := Whole(e), Whole(e)[i].expr;
    ChildrenCounted(e, i);
    RolesFilled(n);
    HeightsMean(n, Roles(n));
    Subtable(e, i);
    forall k | 0 <= k < |Roles(n)| ensures ChildHeight(t, i, k) == Height(Get(n, Roles(n)[k]).value) {
      ChildInRole(e, i, k, Roles(n)[k]);
      Subtable(e, t[i].children[k]);
    }
    if Roles(n) != [] {
      var k :| 0 <= k < |Roles(n)| && Height(Get(n, Roles(n)[k]).value) == Heights(n, Roles(n));
      assert ChildHeight(t, i, k) == Heights(n, Roles(n));
    }
  }
}
