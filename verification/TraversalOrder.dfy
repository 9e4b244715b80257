/**
 * The order that common/ast_visitor.h promises of a traversal: a node before its children and again after them, the
 * children first to last, and what the visitor is told around each of them.
 */
module TraversalOrder {
  import opened Results
  import opened Exprs
  import opened Traversals

  // ---------- which child comes before which ----------

  /** A comprehension's range, then its initial value, condition, step and result. */
  predicate PartEarlier(p: Part, q: Part) {
    || (p.IterRange? && !q.IterRange?)
    || (p.AccuInit? && (q.LoopCondition? || q.LoopStep? || q.Result?))
    || (p.LoopCondition? && (q.LoopStep? || q.Result?))
    || (p.LoopStep? && q.Result?)
  }

  /** The target before the arguments, a smaller position before a greater one, a key before its value. */
  predicate Earlier(r: Role, s: Role) {
    match (r, s)
    case (Target, Arg(_)) => true
    case (Arg(i), Arg(j)) => i < j
    case (Elem(i), Elem(j)) => i < j
    case (FieldValue(i), FieldValue(j)) => i < j
    case (EntryKey(i), EntryKey(j)) => i < j
    case (EntryKey(i), EntryValue(j)) => i <= j
    case (EntryValue(i), EntryKey(j)) => i < j
    case (EntryValue(i), EntryValue(j)) => i < j
    case (Sub(p), Sub(q)) => PartEarlier(p, q)
    case _ => false
  }

  ghost predicate Increasing(roles: seq<Role>) {
    forall i, j | 0 <= i < j < |roles| :: Earlier(roles[i], roles[j])
  }

  lemma IncreasingJoin(a: seq<Role>, b: seq<Role>)
    requires Increasing(a) && Increasing(b) && forall r, s | r in a && s in b :: Earlier(r, s)
    ensures Increasing(a + b)
  {
    hide Earlier;
    var c := a + b;
    forall i, j | 0 <= i < j < |c| ensures Earlier(c[i], c[j]) {
      if i < |a| <= j {
        assert c[i] in a && c[j] in b;
      }
    }
  }

  lemma {:induction false} FieldRolesIncrease(fields: seq<Field>, i: nat)
    requires i <= |fields|
    ensures Increasing(FieldRoles(fields, i))
    decreases |fields| - i
  {
    if i < |fields| {
      FieldRolesIncrease(fields, i + 1);
      FieldRolesComplete(fields, i + 1);
      IncreasingJoin(if fields[i].value.Some? then [FieldValue(i)] else [], FieldRoles(fields, i + 1));
    }
  }

  lemma NoEntries(entries: seq<Entry>)
    ensures Increasing(EntryRoles(entries, |entries|))
  {
  }

  /** What an entry fills, and what the later ones do. */
  lemma EntryHere(entries: seq<Entry>, i: nat)
    requires i < |entries|
    ensures
      var here := (if entries[i].key.Some? then [EntryKey(i)] else [])
        + (if entries[i].value.Some? then [EntryValue(i)] else []);
      && EntryRoles(entries, i) == here + EntryRoles(entries, i + 1) && Increasing(here)
      && forall r | r in here :: r == EntryKey(i) || r == EntryValue(i)
  {
  }

  lemma LaterEntries(entries: seq<Entry>, i: nat)
    requires i < |entries|
    ensures forall s | s in EntryRoles(entries, i + 1) :: Earlier(EntryKey(i), s) && Earlier(EntryValue(i), s)
  {
    hide EntryRoles;
    hide Earlier;
    hide Distinct;
    EntryRolesComplete(entries, i + 1);
    forall s | s in EntryRoles(entries, i + 1) ensures Earlier(EntryKey(i), s) && Earlier(EntryValue(i), s) {
      LaterEntry(i, s);
    }
  }

  lemma LaterEntry(i: nat, s: Role)
    requires (s.EntryKey? || s.EntryValue?) && i < s.i
    ensures Earlier(EntryKey(i), s) && Earlier(EntryValue(i), s)
  {
  }

  lemma {:induction false} EntryRolesIncrease(entries: seq<Entry>, i: nat)
    requires i <= |entries|
    ensures Increasing(EntryRoles(entries, i))
    decreases |entries| - i
  {
    hide EntryRoles;
    hide Earlier;
    hide Increasing;
    if i == |entries| {
      NoEntries(entries);
    } else {
      EntryRolesIncrease(entries, i + 1);
      EntryHere(entries, i);
      LaterEntries(entries, i);
      var here := (if entries[i].key.Some? then [EntryKey(i)] else [])
        + (if entries[i].value.Some? then [EntryValue(i)] else []);
      IncreasingJoin(here, EntryRoles(entries, i + 1));
    }
  }

  /** The children are listed in that order. */
  lemma RolesIncrease(e: Expr)
    ensures Increasing(Roles(e))
  {
    hide FieldRoles;
    hide EntryRoles;
    match e.kind {
      case Struct(_, fields) => FieldRolesIncrease(fields, 0);
      case Map(entries) => EntryRolesIncrease(entries, 0);
      case _ =>
    }
  }

  // ---------- where a child's events are among its parent's ----------

  predicate Occurs(t: seq<Event>, i: nat, a: seq<Event>) {
    i + |a| <= |t| && t[i..i + |a|] == a
  }

  /** `a` and after it `b` are parts of `t`, with something before and behind. */
  ghost predicate InOrder(t: seq<Event>, a: seq<Event>, b: seq<Event>) {
    exists i: nat, j: nat :: 0 < i && i + |a| <= j && j + |b| < |t| && Occurs(t, i, a) && Occurs(t, j, b)
  }

  lemma InOrderBetween(t: seq<Event>, x: seq<Event>, a: seq<Event>, y: seq<Event>, b: seq<Event>, z: seq<Event>)
    requires t == x + a + y + b + z && x != [] && z != []
    ensures InOrder(t, a, b)
  {
    var i, j := |x|, |x + a + y|;
    assert Occurs(t, i, a) && Occurs(t, j, b);
  }

  lemma {:induction false} TracedAround(e: Expr, roles: seq<Role>, k: nat, callbacks: bool)
    requires Filled(e, roles) && k < |roles|
    ensures Filled(e, roles[..k]) && Filled(e, roles[k + 1..])
    ensures TraceChildren(e, roles, callbacks)
         == TraceChildren(e, roles[..k], callbacks) + TraceChild(e, roles[k], callbacks)
            + TraceChildren(e, roles[k + 1..], callbacks)
    decreases k
  {
    hide TraceChild;
    hide Get;
    if k > 0 {
      TracedAround(e, roles[1..], k - 1, callbacks);
      assert roles[1..][..k - 1] == roles[..k][1..] && roles[1..][k..] == roles[k + 1..];
    }
  }

  lemma FoundRole(e: Expr, r: Role) returns (k: nat)
    requires Get(e, r).Some?
    ensures k < |Roles(e)| && Roles(e)[k] == r
  {
    RolesComplete(e);
    k :| 0 <= k < |Roles(e)| && Roles(e)[k] == r;
  }

  lemma {:induction false} Irreflexive(r: Role, s: Role)
    requires Earlier(r, s)
    ensures !Earlier(s, r) && r != s
  {
  }

  /** Of any two children, all that is told of the earlier one comes before all that is told of the later one. */
  lemma ChildrenInOrder(e: Expr, r: Role, s: Role, callbacks: bool)
    requires Get(e, r).Some? && Get(e, s).Some? && Earlier(r, s)
    ensures InOrder(Trace(e, callbacks), TraceChild(e, r, callbacks), TraceChild(e, s, callbacks))
  {
    hide Get;
    hide Roles;
    hide Earlier;
    hide TraceChild;
    hide TraceChildren;
    RolesFilled(e);
    RolesIncrease(e);
    Irreflexive(r, s);
    var roles := Roles(e);
    var i := FoundRole(e, r);
    var j := FoundRole(e, s);
    assert i < j;
    TracedAround(e, roles, i, callbacks);
    TracedAround(e, roles[i + 1..], j - i - 1, callbacks);
    assert roles[i + 1..][j - i - 1] == s;
    var x, a := Before(e) + TraceChildren(e, roles[..i], callbacks), TraceChild(e, r, callbacks);
    var y, b := TraceChildren(e, roles[i + 1..][..j - i - 1], callbacks), TraceChild(e, s, callbacks);
    var z := TraceChildren(e, roles[i + 1..][j - i..], callbacks);
    assert Before(e) + (TraceChildren(e, roles[..i], callbacks) + a + (y + b + z)) + After(e)
      == x + a + y + b + (z + After(e));
    InOrderBetween(Trace(e, callbacks), x, a, y, b, z + After(e));
  }

  // ---------- what the visitor is told around a child ----------

  /** After a target comes PostVisitTarget, after an argument PostVisitArg with its position, after others nothing. */
  lemma AroundChild(e: Expr, r: Role, callbacks: bool)
    requires Get(e, r).Some? && !r.Sub?
    ensures r.Target? ==> TraceChild(e, r, callbacks) == Trace(Get(e, r).value, callbacks) + [PostVisitTarget(e)]
    ensures r.Arg? ==> TraceChild(e, r, callbacks) == Trace(Get(e, r).value, callbacks) + [PostVisitArg(e, r.i)]
    ensures !r.Target? && !r.Arg? ==> TraceChild(e, r, callbacks) == Trace(Get(e, r).value, callbacks)
  {
  }

  // ---------- kind by kind ----------

  /** What comes first and last at each kind of node. */
  lemma Surroundings(e: Expr, callbacks: bool)
    ensures Filled(e, Roles(e))
    ensures
      var children := TraceChildren(e, Roles(e), callbacks);
      Trace(e, callbacks)
      == match e.kind
         case Unspecified => [PreVisitExpr(e)] + children + [PostVisitExpr(e)]
         case Const(_) => [PreVisitExpr(e)] + children + [PostVisitConst(e), PostVisitExpr(e)]
         case Ident(_) => [PreVisitExpr(e)] + children + [PostVisitIdent(e), PostVisitExpr(e)]
         case Select(_, _, _) =>
           [PreVisitExpr(e), PreVisitSelect(e)] + children + [PostVisitSelect(e), PostVisitExpr(e)]
         case Call(_, _, _) => [PreVisitExpr(e), PreVisitCall(e)] + children + [PostVisitCall(e), PostVisitExpr(e)]
         case List(_) => [PreVisitExpr(e)] + children + [PostVisitList(e), PostVisitExpr(e)]
         case Struct(_, _) => [PreVisitExpr(e)] + children + [PostVisitStruct(e), PostVisitExpr(e)]
         case Map(_) => [PreVisitExpr(e)] + children + [PostVisitMap(e), PostVisitExpr(e)]
         case Comprehension(_, _, _, _, _, _, _, _) =>
           [PreVisitExpr(e), PreVisitComprehension(e)] + children
           + [PostVisitComprehension(e), PostVisitExpr(e)]
  {
    hide Roles;
    hide TraceChildren;
    RolesFilled(e);
  }

  lemma SelectTrace(e: Expr, callbacks: bool)
    requires e.kind.Select? && e.kind.operand.Some?
    ensures Trace(e, callbacks)
         == [PreVisitExpr(e), PreVisitSelect(e)] + Trace(e.kind.operand.value, callbacks)
            + [PostVisitSelect(e), PostVisitExpr(e)]
  {
    hide Trace;
    hide TraceChild;
    hide TraceChildren;
    Surroundings(e, callbacks);
    OneChild(e, Operand, callbacks);
    AroundChild(e, Operand, callbacks);
  }

  lemma OneChild(e: Expr, r: Role, callbacks: bool)
    requires Get(e, r).Some? && Roles(e) == [r]
    ensures Filled(e, [r]) && TraceChildren(e, [r], callbacks) == TraceChild(e, r, callbacks)
  {
    hide TraceChild;
    RolesFilled(e);
    assert [r][1..] == [];
  }

  lemma TargetBeforeArguments(e: Expr, i: nat, callbacks: bool)
    requires e.kind.Call? && e.kind.target.Some? && i < |e.kind.args|
    ensures InOrder(Trace(e, callbacks),
      Trace(e.kind.target.value, callbacks) + [PostVisitTarget(e)],
      Trace(e.kind.args[i], callbacks) + [PostVisitArg(e, i)])
  {
    hide Trace;
    hide InOrder;
    ChildrenInOrder(e, Target, Arg(i), callbacks);
    AroundChild(e, Target, callbacks);
    AroundChild(e, Arg(i), callbacks);
  }

  lemma ArgumentsInOrder(e: Expr, i: nat, j: nat, callbacks: bool)
    requires e.kind.Call? && i < j < |e.kind.args|
    ensures InOrder(Trace(e, callbacks),
      Trace(e.kind.args[i], callbacks) + [PostVisitArg(e, i)],
      Trace(e.kind.args[j], callbacks) + [PostVisitArg(e, j)])
  {
    hide Trace;
    hide InOrder;
    ChildrenInOrder(e, Arg(i), Arg(j), callbacks);
    AroundChild(e, Arg(i), callbacks);
    AroundChild(e, Arg(j), callbacks);
  }

  lemma ElementsInOrder(e: Expr, i: nat, j: nat, callbacks: bool)
    requires e.kind.List? && i < j < |e.kind.elements|
    ensures InOrder(Trace(e, callbacks),
      Trace(e.kind.elements[i].expr, callbacks), Trace(e.kind.elements[j].expr, callbacks))
  {
    hide Trace;
    hide InOrder;
    ChildrenInOrder(e, Elem(i), Elem(j), callbacks);
    AroundChild(e, Elem(i), callbacks);
    AroundChild(e, Elem(j), callbacks);
  }

  lemma FieldsInOrder(e: Expr, i: nat, j: nat, callbacks: bool)
    requires e.kind.Struct? && i < j < |e.kind.fields|
    requires e.kind.fields[i].value.Some? && e.kind.fields[j].value.Some?
    ensures InOrder(Trace(e, callbacks),
      Trace(e.kind.fields[i].value.value, callbacks), Trace(e.kind.fields[j].value.value, callbacks))
  {
    hide Trace;
    hide InOrder;
    ChildrenInOrder(e, FieldValue(i), FieldValue(j), callbacks);
    AroundChild(e, FieldValue(i), callbacks);
    AroundChild(e, FieldValue(j), callbacks);
  }

  lemma KeyBeforeValue(e: Expr, i: nat, callbacks: bool)
    requires e.kind.Map? && i < |e.kind.entries|
    requires e.kind.entries[i].key.Some? && e.kind.entries[i].value.Some?
    ensures InOrder(Trace(e, callbacks),
      Trace(e.kind.entries[i].key.value, callbacks), Trace(e.kind.entries[i].value.value, callbacks))
  {
    hide Trace;
    hide InOrder;
    ChildrenInOrder(e, EntryKey(i), EntryValue(i), callbacks);
    AroundChild(e, EntryKey(i), callbacks);
    AroundChild(e, EntryValue(i), callbacks);
  }

  /** A key or value of an entry before each key and value of a later one. */
  lemma EntriesInOrder(e: Expr, i: nat, j: nat, x: Expr, y: Expr, callbacks: bool)
    requires e.kind.Map? && i < j < |e.kind.entries|
    requires e.kind.entries[i].key == Some(x) || e.kind.entries[i].value == Some(x)
    requires e.kind.entries[j].key == Some(y) || e.kind.entries[j].value == Some(y)
    ensures InOrder(Trace(e, callbacks), Trace(x, callbacks), Trace(y, callbacks))
  {
    hide Trace;
    hide InOrder;
    var r := if e.kind.entries[i].key == Some(x) then EntryKey(i) else EntryValue(i);
    var s := if e.kind.entries[j].key == Some(y) then EntryKey(j) else EntryValue(j);
    ChildrenInOrder(e, r, s, callbacks);
    AroundChild(e, r, callbacks);
    AroundChild(e, s, callbacks);
  }

  /** A part of a comprehension, for a visitor that asked to be told of them. */
  ghost function PartTrace(e: Expr, c: Expr, part: Part): seq<Event> {
    [PreVisitComprehensionSubexpression(e, part)] + Trace(c, true) + [PostVisitComprehensionSubexpression(e, part)]
  }

  /** The parts of a comprehension, each told as what it is. */
  lemma ComprehensionTrace(e: Expr)
    requires e.kind.Comprehension?
    ensures Trace(e, true)
         == [PreVisitExpr(e), PreVisitComprehension(e)]
            + PartTrace(e, e.kind.iterRange, IterRange) + PartTrace(e, e.kind.accuInit, AccuInit)
            + PartTrace(e, e.kind.loopCondition, LoopCondition) + PartTrace(e, e.kind.loopStep, LoopStep)
            + PartTrace(e, e.kind.result, Result)
            + [PostVisitComprehension(e), PostVisitExpr(e)]
  {
    hide Trace;
    hide PartTrace;
    hide TraceChildren;
    Surroundings(e, true);
    FiveChildren(e, true);
    PartsTold(e);
    RegroupParts([PreVisitExpr(e), PreVisitComprehension(e)], PartTrace(e, e.kind.iterRange, IterRange),
      PartTrace(e, e.kind.accuInit, AccuInit), PartTrace(e, e.kind.loopCondition, LoopCondition),
      PartTrace(e, e.kind.loopStep, LoopStep), PartTrace(e, e.kind.result, Result));
  }

  lemma PartsTold(e: Expr)
    requires e.kind.Comprehension?
    ensures TraceChild(e, Sub(IterRange), true) == PartTrace(e, e.kind.iterRange, IterRange)
    ensures TraceChild(e, Sub(AccuInit), true) == PartTrace(e, e.kind.accuInit, AccuInit)
    ensures TraceChild(e, Sub(LoopCondition), true) == PartTrace(e, e.kind.loopCondition, LoopCondition)
    ensures TraceChild(e, Sub(LoopStep), true) == PartTrace(e, e.kind.loopStep, LoopStep)
    ensures TraceChild(e, Sub(Result), true) == PartTrace(e, e.kind.result, Result)
  {
    hide Trace;
  }

  /** A part for a visitor that did not ask: an argument with this number. */
  ghost function NumberedTrace(e: Expr, c: Expr, n: int): seq<Event> {
    Trace(c, false) + [PostVisitArg(e, n)]
  }

  /** The parts of a comprehension, told as arguments 0 to 4. */
  lemma ComprehensionAsArguments(e: Expr)
    requires e.kind.Comprehension?
    ensures Trace(e, false)
         == [PreVisitExpr(e), PreVisitComprehension(e)]
            + NumberedTrace(e, e.kind.iterRange, 0) + NumberedTrace(e, e.kind.accuInit, 1)
            + NumberedTrace(e, e.kind.loopCondition, 2) + NumberedTrace(e, e.kind.loopStep, 3)
            + NumberedTrace(e, e.kind.result, 4)
            + [PostVisitComprehension(e), PostVisitExpr(e)]
  {
    hide Trace;
    hide NumberedTrace;
    hide TraceChildren;
    Surroundings(e, false);
    FiveChildren(e, false);
    PartsNumbered(e);
    RegroupParts([PreVisitExpr(e), PreVisitComprehension(e)], NumberedTrace(e, e.kind.iterRange, 0),
      NumberedTrace(e, e.kind.accuInit, 1), NumberedTrace(e, e.kind.loopCondition, 2),
      NumberedTrace(e, e.kind.loopStep, 3), NumberedTrace(e, e.kind.result, 4));
  }

  lemma PartsNumbered(e: Expr)
    requires e.kind.Comprehension?
    ensures TraceChild(e, Sub(IterRange), false) == NumberedTrace(e, e.kind.iterRange, 0)
    ensures TraceChild(e, Sub(AccuInit), false) == NumberedTrace(e, e.kind.accuInit, 1)
    ensures TraceChild(e, Sub(LoopCondition), false) == NumberedTrace(e, e.kind.loopCondition, 2)
    ensures TraceChild(e, Sub(LoopStep), false) == NumberedTrace(e, e.kind.loopStep, 3)
    ensures TraceChild(e, Sub(Result), false) == NumberedTrace(e, e.kind.result, 4)
  {
    hide Trace;
  }

  lemma RegroupParts(x: seq<Event>, a: seq<Event>, b: seq<Event>, c: seq<Event>, d: seq<Event>, e: seq<Event>)
    ensures x + (a + b + c + d + e) == x + a + b + c + d + e
  {
  }

  lemma FirstTraced(e: Expr, r: Role, rest: seq<Role>, callbacks: bool)
    requires Filled(e, [r] + rest)
    ensures Filled(e, rest)
    ensures TraceChildren(e, [r] + rest, callbacks)
         == TraceChild(e, r, callbacks) + TraceChildren(e, rest, callbacks)
  {
    hide TraceChild;
    hide Get;
    assert ([r] + rest)[1..] == rest;
  }

  lemma NoneTraced(e: Expr, callbacks: bool)
    ensures TraceChildren(e, [], callbacks) == []
  {
  }

  lemma FiveChildren(e: Expr, callbacks: bool)
    requires e.kind.Comprehension? && Filled(e, Roles(e))
    ensures TraceChildren(e, Roles(e), callbacks)
         == TraceChild(e, Sub(IterRange), callbacks) + TraceChild(e, Sub(AccuInit), callbacks)
            + TraceChild(e, Sub(LoopCondition), callbacks) + TraceChild(e, Sub(LoopStep), callbacks)
            + TraceChild(e, Sub(Result), callbacks)
  {
    hide TraceChild;
    hide TraceChildren;
    hide Get;
    var a, b, c, d, r := Sub(IterRange), Sub(AccuInit), Sub(LoopCondition), Sub(LoopStep), Sub(Result);
    assert Roles(e) == [a] + ([b] + ([c] + ([d] + ([r] + []))));
    FirstTraced(e, a, [b] + ([c] + ([d] + ([r] + []))), callbacks);
    FirstTraced(e, b, [c] + ([d] + ([r] + [])), callbacks);
    FirstTraced(e, c, [d] + ([r] + []), callbacks);
    FirstTraced(e, d, [r] + [], callbacks);
    FirstTraced(e, r, [], callbacks);
    NoneTraced(e, callbacks);
  }
}
