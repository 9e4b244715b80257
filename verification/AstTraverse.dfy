/**
 * common/ast_traverse.cc: a traversal with an explicit stack of records, run to its end (AstTraverse) or a
 * step at a time (AstTraversal), against the recursive traversal its header describes.
 */
module Traversals {
  import opened Exprs

  /** The calls a visitor gets. */
  datatype Event =
    | PreVisitExpr(e: Expr)
    | PostVisitExpr(e: Expr)
    | PostVisitConst(e: Expr)
    | PostVisitIdent(e: Expr)
    | PreVisitSelect(e: Expr)
    | PostVisitSelect(e: Expr)
    | PreVisitCall(e: Expr)
    | PostVisitCall(e: Expr)
    | PostVisitTarget(e: Expr)
    | PostVisitArg(e: Expr, argNum: int)
    | PreVisitComprehension(e: Expr)
    | PostVisitComprehension(e: Expr)
    | PreVisitComprehensionSubexpression(e: Expr, part: Part)
    | PostVisitComprehensionSubexpression(e: Expr, part: Part)
    | PostVisitList(e: Expr)
    | PostVisitStruct(e: Expr)
    | PostVisitMap(e: Expr)

  function ArgNumber(part: Part): int {
    match part
    case IterRange => 0
    case AccuInit => 1
    case LoopCondition => 2
    case LoopStep => 3
    case Result => 4
  }

  // ---------- the recursive traversal ----------

  function Before(e: Expr): seq<Event> {
    [PreVisitExpr(e)] + match e.kind
      case Select(_, _, _) => [PreVisitSelect(e)]
      case Call(_, _, _) => [PreVisitCall(e)]
      case Comprehension(_, _, _, _, _, _, _, _) => [PreVisitComprehension(e)]
      case _ => []
  }

  function After(e: Expr): seq<Event> {
    (match e.kind
      case Const(_) => [PostVisitConst(e)]
      case Ident(_) => [PostVisitIdent(e)]
      case Select(_, _, _) => [PostVisitSelect(e)]
      case Call(_, _, _) => [PostVisitCall(e)]
      case List(_) => [PostVisitList(e)]
      case Struct(_, _) => [PostVisitStruct(e)]
      case Map(_) => [PostVisitMap(e)]
      case Comprehension(_, _, _, _, _, _, _, _) => [PostVisitComprehension(e)]
      case Unspecified => []) + [PostVisitExpr(e)]
  }

  /** What surrounds the traversal of the child in a role. */
  function BeforeChild(e: Expr, role: Role, callbacks: bool): seq<Event> {
    if role.Sub? && callbacks then [PreVisitComprehensionSubexpression(e, role.part)] else []
  }

  function AfterChild(e: Expr, role: Role, callbacks: bool): seq<Event> {
    match role
    case Target => [PostVisitTarget(e)]
    case Arg(i) => [PostVisitArg(e, i)]
    case Sub(part) =>
      if callbacks then [PostVisitComprehensionSubexpression(e, part)] else [PostVisitArg(e, ArgNumber(part))]
    case _ => []
  }

  /** The traversal order of the header: a node, its children first to last, the node again. */
  ghost function Trace(e: Expr, callbacks: bool): seq<Event>
    decreases e, 1, 0
  {
    RolesFilled(e);
    Before(e) + TraceChildren(e, Roles(e), callbacks) + After(e)
  }

  ghost function TraceChild(e: Expr, role: Role, callbacks: bool): seq<Event>
    requires Get(e, role).Some?
    decreases e, 0, 0
  {
    BeforeChild(e, role, callbacks) + Trace(Get(e, role).value, callbacks) + AfterChild(e, role, callbacks)
  }

  ghost function TraceChildren(e: Expr, roles: seq<Role>, callbacks: bool): seq<Event>
    requires Filled(e, roles)
    decreases e, 0, |roles| + 1
  {
    if roles == [] then [] else TraceChild(e, roles[0], callbacks) + TraceChildren(e, roles[1..], callbacks)
  }

  // ---------- the stack machine ----------

  const TARGET := -2

  datatype Record =
    | ExprRecord(expr: Expr)
    | ArgRecord(expr: Expr, callingExpr: Expr, callArg: int)
    | ComprehensionRecord(expr: Expr, comprehensionExpr: Expr, part: Part)

  datatype StackRecord = StackRecord(record: Record, visited: bool)

  class Visitor {
    var log: seq<Event>

    constructor ()
      ensures log == []
    {
      log := [];
    }

    method Call(event: Event)
      modifies this
      ensures log == old(log) + [event]
    {
      log := log + [event];
    }
  }

  /** What a record is there for: events before its child, its child, events after. */
  function RecordBefore(r: Record): seq<Event> {
    match r
    case ComprehensionRecord(_, e, part) => [PreVisitComprehensionSubexpression(e, part)]
    case _ => []
  }

  function RecordAfter(r: Record): seq<Event> {
    match r
    case ExprRecord(e) => After(e)
    case ArgRecord(_, e, n) => if n == TARGET then [PostVisitTarget(e)] else [PostVisitArg(e, n)]
    case ComprehensionRecord(_, e, part) => [PostVisitComprehensionSubexpression(e, part)]
  }

  /** The events still to come for a record on the stack. */
  ghost function Owed(r: StackRecord, callbacks: bool): seq<Event> {
    if r.visited then RecordAfter(r.record)
    else if r.record.ExprRecord? then Trace(r.record.expr, callbacks)
    else RecordBefore(r.record) + Trace(r.record.expr, callbacks) + RecordAfter(r.record)
  }

  /** The events still to come for the whole stack, whose top is its last record. */
  ghost function Pending(stack: seq<StackRecord>, callbacks: bool): seq<Event> {
    if stack == [] then []
    else Owed(stack[|stack| - 1], callbacks) + Pending(stack[..|stack| - 1], callbacks)
  }

  /** The record the source pushes for the child in a role. */
  function ToRecord(e: Expr, role: Role, callbacks: bool): StackRecord
    requires Get(e, role).Some?
  {
    var c := Get(e, role).value;
    StackRecord(
      match role
      case Target => ArgRecord(c, e, TARGET)
      case Arg(i) => ArgRecord(c, e, i)
      case Sub(part) => if callbacks then ComprehensionRecord(c, e, part) else ArgRecord(c, e, ArgNumber(part))
      case _ => ExprRecord(c),
      false)
  }

  /** Children pushed last to first, so that the first is on top. */
  function PushAll(stack: seq<StackRecord>, e: Expr, roles: seq<Role>, callbacks: bool): seq<StackRecord>
    requires Filled(e, roles)
    decreases |roles|
  {
    if roles == [] then stack
    else PushAll(stack, e, roles[1..], callbacks) + [ToRecord(e, roles[0], callbacks)]
  }

  lemma OwedByChild(e: Expr, role: Role, callbacks: bool)
    requires Get(e, role).Some?
    ensures Owed(ToRecord(e, role, callbacks), callbacks) == TraceChild(e, role, callbacks)
  {
    hide Trace;
  }

  lemma {:induction false} PendingPushed(stack: seq<StackRecord>, e: Expr, roles: seq<Role>, callbacks: bool)
    requires Filled(e, roles)
    ensures Pending(PushAll(stack, e, roles, callbacks), callbacks)
         == TraceChildren(e, roles, callbacks) + Pending(stack, callbacks)
    decreases |roles|
  {
    hide Trace;
    hide Owed;
    hide ToRecord;
    hide TraceChild;
    hide Get;
    if roles != [] {
      var rest := PushAll(stack, e, roles[1..], callbacks);
      var top := ToRecord(e, roles[0], callbacks);
      PendingPushed(stack, e, roles[1..], callbacks);
      OwedByChild(e, roles[0], callbacks);
      assert (rest + [top])[..|rest|] == rest;
    }
  }

  // ---------- steps left ----------

  /** How many steps a node takes: two for every record it and its descendants are given. */
  ghost function Steps(e: Expr): (n: nat)
    ensures n >= 2
    decreases e, 1, 0
  {
    RolesFilled(e);
    2 + StepsOfChildren(e, Roles(e))
  }

  ghost function StepsOfChildren(e: Expr, roles: seq<Role>): nat
    requires Filled(e, roles)
    decreases e, 0, |roles|
  {
    if roles == [] then 0
    else
      (if roles[0].Target? || roles[0].Arg? || roles[0].Sub? then 2 else 0)
      + Steps(Get(e, roles[0]).value) + StepsOfChildren(e, roles[1..])
  }

  ghost function StepsOwed(r: StackRecord): (n: nat)
    ensures n >= 1
  {
    if r.visited then 1 else if r.record.ExprRecord? then Steps(r.record.expr) else 2 + Steps(r.record.expr)
  }

  ghost function StepsLeft(stack: seq<StackRecord>): nat {
    if stack == [] then 0 else StepsOwed(stack[|stack| - 1]) + StepsLeft(stack[..|stack| - 1])
  }

  lemma {:induction false} StepsPushed(stack: seq<StackRecord>, e: Expr, roles: seq<Role>, callbacks: bool)
    requires Filled(e, roles)
    ensures StepsLeft(PushAll(stack, e, roles, callbacks)) == StepsOfChildren(e, roles) + StepsLeft(stack)
    decreases |roles|
  {
    if roles != [] {
      var rest := PushAll(stack, e, roles[1..], callbacks);
      var top := ToRecord(e, roles[0], callbacks);
      StepsPushed(stack, e, roles[1..], callbacks);
      assert (rest + [top])[..|rest|] == rest;
    }
  }

  // ---------- the code ----------

  method PreVisit(record: Record, visitor: Visitor)
    modifies visitor
    ensures visitor.log == old(visitor.log) + (if record.ExprRecord? then Before(record.expr) else RecordBefore(record))
  {
    match record {
      case ExprRecord(e) =>
        visitor.Call(PreVisitExpr(e));
        if e.kind.Select? {
          visitor.Call(PreVisitSelect(e));
        } else if e.kind.Call? {
          visitor.Call(PreVisitCall(e));
        } else if e.kind.Comprehension? {
          visitor.Call(PreVisitComprehension(e));
        }
      case ArgRecord(_, _, _) =>
      case ComprehensionRecord(_, e, part) =>
        visitor.Call(PreVisitComprehensionSubexpression(e, part));
    }
  }

  method PostVisit(record: Record, visitor: Visitor)
    modifies visitor
    ensures visitor.log == old(visitor.log) + RecordAfter(record)
  {
    match record {
      case ExprRecord(e) =>
        match e.kind {
          case Const(_) => visitor.Call(PostVisitConst(e));
          case Ident(_) => visitor.Call(PostVisitIdent(e));
          case Select(_, _, _) => visitor.Call(PostVisitSelect(e));
          case Call(_, _, _) => visitor.Call(PostVisitCall(e));
          case List(_) => visitor.Call(PostVisitList(e));
          case Struct(_, _) => visitor.Call(PostVisitStruct(e));
          case Map(_) => visitor.Call(PostVisitMap(e));
          case Comprehension(_, _, _, _, _, _, _, _) => visitor.Call(PostVisitComprehension(e));
          case Unspecified =>
        }
        visitor.Call(PostVisitExpr(e));
      case ArgRecord(_, e, n) =>
        if n == TARGET {
          visitor.Call(PostVisitTarget(e));
        } else {
          visitor.Call(PostVisitArg(e, n));
        }
      case ComprehensionRecord(_, e, part) =>
        visitor.Call(PostVisitComprehensionSubexpression(e, part));
    }
  }

  lemma {:induction false} PushAllTwice(stack: seq<StackRecord>, e: Expr, a: seq<Role>, b: seq<Role>, callbacks: bool)
    requires Filled(e, a) && Filled(e, b) && Filled(e, a + b)
    ensures PushAll(stack, e, a + b, callbacks) == PushAll(PushAll(stack, e, b, callbacks), e, a, callbacks)
    decreases |a|
  {
    if a == [] {
      assert a + b == b;
    } else {
      PushAllTwice(stack, e, a[1..], b, callbacks);
      assert (a + b)[1..] == a[1..] + b;
    }
  }

  method PushSelectDeps(e: Expr, stack: seq<StackRecord>, ghost callbacks: bool) returns (pushed: seq<StackRecord>)
    requires e.kind.Select? && Filled(e, Roles(e))
    ensures pushed == PushAll(stack, e, Roles(e), callbacks)
  {
    pushed := stack;
    if e.kind.operand.Some? {
      pushed := pushed + [StackRecord(ExprRecord(e.kind.operand.value), false)];
    }
  }

  method PushCallDeps(e: Expr, stack: seq<StackRecord>, ghost callbacks: bool) returns (pushed: seq<StackRecord>)
    requires e.kind.Call? && Filled(e, Roles(e))
    ensures pushed == PushAll(stack, e, Roles(e), callbacks)
  {
    var args := e.kind.args;
    ghost var roles := seq(|args|, i requires 0 <= i => Arg(i));
    pushed := stack;
    var i := |args|;
    while i > 0
      invariant 0 <= i <= |args|
      invariant Filled(e, roles[i..]) && pushed == PushAll(stack, e, roles[i..], callbacks)
    {
      i := i - 1;
      assert roles[i..][0] == Arg(i) && roles[i..][1..] == roles[i + 1..];
      pushed := pushed + [StackRecord(ArgRecord(args[i], e, i), false)];
    }
    assert roles[0..] == roles;
    if e.kind.target.Some? {
      assert Roles(e) == [Target] + roles && Roles(e)[1..] == roles;
      pushed := pushed + [StackRecord(ArgRecord(e.kind.target.value, e, TARGET), false)];
    } else {
      assert Roles(e) == roles;
    }
  }

  method PushListDeps(e: Expr, stack: seq<StackRecord>, ghost callbacks: bool) returns (pushed: seq<StackRecord>)
    requires e.kind.List? && Filled(e, Roles(e))
    ensures pushed == PushAll(stack, e, Roles(e), callbacks)
  {
    var elements := e.kind.elements;
    ghost var roles := Roles(e);
    pushed := stack;
    var i := |elements|;
    while i > 0
      invariant 0 <= i <= |elements|
      invariant pushed == PushAll(stack, e, roles[i..], callbacks)
    {
      i := i - 1;
      assert roles[i..][0] == Elem(i) && roles[i..][1..] == roles[i + 1..];
      pushed := pushed + [StackRecord(ExprRecord(elements[i].expr), false)];
    }
    assert roles[0..] == roles;
  }

  method PushStructDeps(e: Expr, stack: seq<StackRecord>, ghost callbacks: bool) returns (pushed: seq<StackRecord>)
    requires e.kind.Struct? && Filled(e, Roles(e))
    ensures pushed == PushAll(stack, e, Roles(e), callbacks)
  {
    var fields := e.kind.fields;
    pushed := stack;
    var i := |fields|;
    while i > 0
      invariant 0 <= i <= |fields|
      invariant Filled(e, FieldRoles(fields, i)) && pushed == PushAll(stack, e, FieldRoles(fields, i), callbacks)
    {
      i := i - 1;
      ghost var here := if fields[i].value.Some? then [FieldValue(i)] else [];
      PushAllTwice(stack, e, here, FieldRoles(fields, i + 1), callbacks);
      if fields[i].value.Some? {
        pushed := pushed + [StackRecord(ExprRecord(fields[i].value.value), false)];
      }
    }
  }

  /** One entry's key and value, the key on top. */
  function PushEntry(stack: seq<StackRecord>, entry: Entry): seq<StackRecord> {
    stack
    + (if entry.value.Some? then [StackRecord(ExprRecord(entry.value.value), false)] else [])
    + (if entry.key.Some? then [StackRecord(ExprRecord(entry.key.value), false)] else [])
  }

  lemma EntryPushed(stack: seq<StackRecord>, e: Expr, i: nat, callbacks: bool)
    requires e.kind.Map? && i < |e.kind.entries| && Filled(e, EntryRoles(e.kind.entries, i))
    ensures Filled(e, EntryRoles(e.kind.entries, i + 1))
    ensures PushAll(stack, e, EntryRoles(e.kind.entries, i), callbacks)
         == PushEntry(PushAll(stack, e, EntryRoles(e.kind.entries, i + 1), callbacks), e.kind.entries[i])
  {
    hide EntryRoles;
    hide Roles;
    hide PushAll;
    hide Get;
    var entries := e.kind.entries;
    var rest := EntryRoles(entries, i + 1);
    var key := if entries[i].key.Some? then [EntryKey(i)] else [];
    var value := if entries[i].value.Some? then [EntryValue(i)] else [];
    EntrySplit(entries, i);
    FilledKey(e, i);
    PushAllTwice(stack, e, key, value + rest, callbacks);
    PushAllTwice(stack, e, value, rest, callbacks);
    PushAtMostOne(PushAll(stack, e, rest, callbacks), e, value, callbacks);
    PushAtMostOne(PushAll(stack, e, value + rest, callbacks), e, key, callbacks);
  }

  lemma FilledKey(e: Expr, i: nat)
    requires e.kind.Map? && i < |e.kind.entries|
    ensures Get(e, EntryKey(i)) == e.kind.entries[i].key && Get(e, EntryValue(i)) == e.kind.entries[i].value
  {
  }

  lemma EntrySplit(entries: seq<Entry>, i: nat)
    requires i < |entries|
    ensures
      var key := if entries[i].key.Some? then [EntryKey(i)] else [];
      var value := if entries[i].value.Some? then [EntryValue(i)] else [];
      EntryRoles(entries, i) == key + (value + EntryRoles(entries, i + 1))
  {
    var key := if entries[i].key.Some? then [EntryKey(i)] else [];
    var value := if entries[i].value.Some? then [EntryValue(i)] else [];
    assert key + value + EntryRoles(entries, i + 1) == key + (value + EntryRoles(entries, i + 1));
  }

  lemma PushAtMostOne(stack: seq<StackRecord>, e: Expr, roles: seq<Role>, callbacks: bool)
    requires Filled(e, roles) && |roles| <= 1 && forall r | r in roles :: r.EntryKey? || r.EntryValue?
    ensures PushAll(stack, e, roles, callbacks)
         == stack + if roles == [] then [] else [StackRecord(ExprRecord(Get(e, roles[0]).value), false)]
  {
    hide Get;
    hide Roles;
    if roles != [] {
      assert roles[1..] == [] && roles[0] in roles;
    }
  }

  method PushMapDeps(e: Expr, stack: seq<StackRecord>, ghost callbacks: bool) returns (pushed: seq<StackRecord>)
    requires e.kind.Map? && Filled(e, Roles(e))
    ensures pushed == PushAll(stack, e, Roles(e), callbacks)
  {
    hide PushAll;
    hide Get;
    var entries := e.kind.entries;
    pushed := stack;
    var i := |entries|;
    EntryFilled(e, i);
    EntriesDone(stack, e, callbacks);
    while i > 0
      invariant 0 <= i <= |entries| && Filled(e, EntryRoles(entries, i))
      invariant pushed == PushAll(stack, e, EntryRoles(entries, i), callbacks)
    {
      i := i - 1;
      EntryFilled(e, i);
      EntryPushed(stack, e, i, callbacks);
      if entries[i].value.Some? {
        pushed := pushed + [StackRecord(ExprRecord(entries[i].value.value), false)];
      }
      if entries[i].key.Some? {
        pushed := pushed + [StackRecord(ExprRecord(entries[i].key.value), false)];
      }
    }
  }

  lemma EntryFilled(e: Expr, i: nat)
    requires e.kind.Map? && i <= |e.kind.entries|
    ensures Filled(e, EntryRoles(e.kind.entries, i))
  {
    EntryRolesComplete(e.kind.entries, i);
  }

  lemma EntriesDone(stack: seq<StackRecord>, e: Expr, callbacks: bool)
    requires e.kind.Map? && Filled(e, EntryRoles(e.kind.entries, |e.kind.entries|))
    ensures PushAll(stack, e, EntryRoles(e.kind.entries, |e.kind.entries|), callbacks) == stack
  {
  }

  function PartRecord(e: Expr, part: Part, callbacks: bool): StackRecord
    requires e.kind.Comprehension?
  {
    var c := GetPart(e.kind, part);
    StackRecord(if callbacks then ComprehensionRecord(c, e, part) else ArgRecord(c, e, ArgNumber(part)), false)
  }

  method PushComprehensionDeps(e: Expr, stack: seq<StackRecord>, callbacks: bool) returns (pushed: seq<StackRecord>)
    requires e.kind.Comprehension? && Filled(e, Roles(e))
    ensures pushed == PushAll(stack, e, Roles(e), callbacks)
  {
    pushed := stack + [PartRecord(e, Result, callbacks)];
    assert pushed == PushAll(stack, e, [Sub(Result)], callbacks);
    pushed := pushed + [PartRecord(e, LoopStep, callbacks)];
    assert pushed == PushAll(stack, e, [Sub(LoopStep), Sub(Result)], callbacks);
    pushed := pushed + [PartRecord(e, LoopCondition, callbacks)];
    assert pushed == PushAll(stack, e, [Sub(LoopCondition), Sub(LoopStep), Sub(Result)], callbacks);
    pushed := pushed + [PartRecord(e, AccuInit, callbacks)];
    assert pushed == PushAll(stack, e, [Sub(AccuInit), Sub(LoopCondition), Sub(LoopStep), Sub(Result)], callbacks);
    pushed := pushed + [PartRecord(e, IterRange, callbacks)];
  }

  ghost function Dependencies(record: Record, stack: seq<StackRecord>, callbacks: bool): seq<StackRecord> {
    RolesFilled(record.expr);
    if record.ExprRecord? then PushAll(stack, record.expr, Roles(record.expr), callbacks)
    else stack + [StackRecord(ExprRecord(record.expr), false)]
  }

  method PushDependencies(record: Record, stack: seq<StackRecord>, callbacks: bool) returns (pushed: seq<StackRecord>)
    ensures pushed == Dependencies(record, stack, callbacks)
  {
    if record.ExprRecord? {
      var e := record.expr;
      RolesFilled(e);
      match e.kind {
        case Select(_, _, _) => pushed := PushSelectDeps(e, stack, callbacks);
        case Call(_, _, _) => pushed := PushCallDeps(e, stack, callbacks);
        case List(_) => pushed := PushListDeps(e, stack, callbacks);
        case Struct(_, _) => pushed := PushStructDeps(e, stack, callbacks);
        case Map(_) => pushed := PushMapDeps(e, stack, callbacks);
        case Comprehension(_, _, _, _, _, _, _, _) => pushed := PushComprehensionDeps(e, stack, callbacks);
        case _ => pushed := stack;
      }
    } else {
      pushed := stack + [StackRecord(ExprRecord(record.expr), false)];
    }
  }

  lemma {:induction false} PushAllAppends(stack: seq<StackRecord>, e: Expr, roles: seq<Role>, callbacks: bool)
    requires Filled(e, roles)
    ensures PushAll(stack, e, roles, callbacks) == stack + PushAll([], e, roles, callbacks)
    decreases |roles|
  {
    if roles != [] {
      PushAllAppends(stack, e, roles[1..], callbacks);
    }
  }

  /** The stack once its top has been visited and what it depends on has been pushed. */
  ghost function Visited(stack: seq<StackRecord>, callbacks: bool): (after: seq<StackRecord>)
    requires stack != []
    ensures |after| >= |stack|
  {
    var n := |stack| - 1;
    var r := stack[n].record;
    RolesFilled(r.expr);
    PushAllAppends(stack, r.expr, Roles(r.expr), callbacks);
    Dependencies(r, stack, callbacks)[n := StackRecord(r, true)]
  }

  lemma VisitedGrows(stack: seq<StackRecord>, callbacks: bool)
    requires stack != []
    ensures |Dependencies(stack[|stack| - 1].record, stack, callbacks)| >= |stack|
  {
    var r := stack[|stack| - 1].record;
    RolesFilled(r.expr);
    PushAllAppends(stack, r.expr, Roles(r.expr), callbacks);
  }

  /** It is the same as pushing on the stack whose top is marked. */
  lemma VisitedBelow(stack: seq<StackRecord>, callbacks: bool)
    requires stack != []
    ensures var r := stack[|stack| - 1].record;
      Visited(stack, callbacks) == Dependencies(r, stack[..|stack| - 1] + [StackRecord(r, true)], callbacks)
  {
    hide Roles;
    hide Get;
    hide PushAll;
    var n := |stack| - 1;
    var r := stack[n].record;
    RolesFilled(r.expr);
    PushAllAppends(stack, r.expr, Roles(r.expr), callbacks);
    PushAllAppends(stack[..n] + [StackRecord(r, true)], r.expr, Roles(r.expr), callbacks);
  }

  function EventsBefore(r: Record): seq<Event> {
    if r.ExprRecord? then Before(r.expr) else RecordBefore(r)
  }

  /** Visiting the top emits the first events owed and leaves the others owed, in one step. */
  lemma PreStep(stack: seq<StackRecord>, callbacks: bool)
    requires stack != [] && !stack[|stack| - 1].visited
    ensures Pending(stack, callbacks)
         == EventsBefore(stack[|stack| - 1].record) + Pending(Visited(stack, callbacks), callbacks)
    ensures StepsLeft(Visited(stack, callbacks)) == StepsLeft(stack) - 1
  {
    var below := stack[..|stack| - 1];
    var r := stack[|stack| - 1].record;
    var marked := below + [StackRecord(r, true)];
    VisitedBelow(stack, callbacks);
    assert marked[..|below|] == below;
    if r.ExprRecord? {
      PreStepOfExpr(below, r.expr, callbacks);
    } else {
      PreStepOfOther(below, r, callbacks);
    }
  }

  lemma PreStepOfExpr(below: seq<StackRecord>, e: Expr, callbacks: bool)
    ensures var marked := below + [StackRecord(ExprRecord(e), true)];
      && Trace(e, callbacks) + Pending(below, callbacks)
         == Before(e) + Pending(Dependencies(ExprRecord(e), marked, callbacks), callbacks)
      && StepsLeft(Dependencies(ExprRecord(e), marked, callbacks)) == Steps(e) + StepsLeft(below) - 1
  {
    var marked := below + [StackRecord(ExprRecord(e), true)];
    assert marked[..|below|] == below;
    RolesFilled(e);
    PendingPushed(marked, e, Roles(e), callbacks);
    StepsPushed(marked, e, Roles(e), callbacks);
    hide PushAll;
    hide TraceChildren;
    hide StepsOfChildren;
    hide Roles;
    hide Before;
    hide After;
    hide Filled;
    Regroup(Before(e), TraceChildren(e, Roles(e), callbacks), After(e), Pending(below, callbacks));
    assert Pending(marked, callbacks) == After(e) + Pending(below, callbacks);
  }

  lemma Regroup<T>(a: seq<T>, b: seq<T>, c: seq<T>, d: seq<T>)
    ensures a + b + c + d == a + (b + (c + d))
  {
  }

  lemma PreStepOfOther(below: seq<StackRecord>, r: Record, callbacks: bool)
    requires !r.ExprRecord?
    ensures var marked := below + [StackRecord(r, true)];
      && RecordBefore(r) + Trace(r.expr, callbacks) + RecordAfter(r) + Pending(below, callbacks)
         == RecordBefore(r) + Pending(Dependencies(r, marked, callbacks), callbacks)
      && StepsLeft(Dependencies(r, marked, callbacks)) == 2 + Steps(r.expr) + StepsLeft(below) - 1
  {
    hide Trace;
    hide RecordBefore;
    hide RecordAfter;
    hide Steps;
    var marked := below + [StackRecord(r, true)];
    var pushed := marked + [StackRecord(ExprRecord(r.expr), false)];
    assert marked[..|below|] == below && pushed[..|marked|] == marked;
    assert Pending(pushed, callbacks) == Trace(r.expr, callbacks) + Pending(marked, callbacks);
    assert Pending(marked, callbacks) == RecordAfter(r) + Pending(below, callbacks);
  }

  /** One turn of the loop: the top is visited and what it depends on pushed, or, visited before, is left. */
  method Turn(stack: seq<StackRecord>, visitor: Visitor, callbacks: bool) returns (after: seq<StackRecord>)
    requires stack != []
    modifies visitor
    ensures old(visitor.log) <= visitor.log
    ensures visitor.log + Pending(after, callbacks) == old(visitor.log) + Pending(stack, callbacks)
    ensures StepsLeft(after) == StepsLeft(stack) - 1
  {
    hide Roles;
    hide Get;
    hide PushAll;
    hide Trace;
    hide Before;
    hide RecordBefore;
    hide RecordAfter;
    hide Dependencies;
    var top := |stack| - 1;
    var record := stack[top];
    if !record.visited {
      PreStep(stack, callbacks);
      PreVisit(record.record, visitor);
      VisitedGrows(stack, callbacks);
      after := PushDependencies(record.record, stack, callbacks);
      after := after[top := StackRecord(record.record, true)];
    } else {
      PostVisit(record.record, visitor);
      after := stack[..top];
    }
  }

  /** AstTraverse emits exactly the recursive traversal. */
  method AstTraverse(expr: Expr, visitor: Visitor, callbacks: bool)
    modifies visitor
    ensures visitor.log == old(visitor.log) + Trace(expr, callbacks)
  {
    var stack := [StackRecord(ExprRecord(expr), false)];
    while stack != []
      invariant visitor.log + Pending(stack, callbacks) == old(visitor.log) + Trace(expr, callbacks)
      decreases StepsLeft(stack)
    {
      stack := Turn(stack, visitor, callbacks);
    }
  }

  /** A traversal that can be stopped between any two steps. */
  class AstTraversal {
    const callbacks: bool
    var stack: seq<StackRecord>

    constructor Create(ast: Expr, callbacks: bool)
      ensures stack == [StackRecord(ExprRecord(ast), false)] && this.callbacks == callbacks
      ensures Pending(stack, callbacks) == Trace(ast, callbacks) && StepsLeft(stack) == Steps(ast)
    {
      this.callbacks := callbacks;
      stack := [StackRecord(ExprRecord(ast), false)];
    }

    predicate IsDone()
      reads this
    {
      stack == []
    }

    /** Moves the traversal on by one: what it emits is what was owed first, and it tells whether more is owed. */
    method Step(visitor: Visitor) returns (more: bool)
      modifies this, visitor
      ensures visitor.log + Pending(stack, callbacks) == old(visitor.log) + Pending(old(stack), callbacks)
      ensures old(visitor.log) <= visitor.log
      ensures if old(IsDone()) then !more && IsDone() else StepsLeft(stack) == StepsLeft(old(stack)) - 1
      ensures more <==> StepsLeft(stack) > 0
    {
      if IsDone() {
        return false;
      }
      stack := Turn(stack, visitor, callbacks);
      more := stack != [];
    }
  }

  /** Stepping until there is no more emits the whole traversal, in a number of steps known beforehand. */
  method StepToEnd(ast: Expr, visitor: Visitor, callbacks: bool) returns (steps: nat)
    modifies visitor
    ensures visitor.log == old(visitor.log) + Trace(ast, callbacks)
    ensures steps == Steps(ast)
  {
    var traversal := new AstTraversal.Create(ast, callbacks);
    steps := 0;
    var more := true;
    while more
      invariant fresh(traversal) && traversal.callbacks == callbacks
      invariant visitor.log + Pending(traversal.stack, callbacks) == old(visitor.log) + Trace(ast, callbacks)
      invariant more <==> StepsLeft(traversal.stack) > 0
      invariant steps + StepsLeft(traversal.stack) == Steps(ast)
      decreases StepsLeft(traversal.stack)
    {
      more := traversal.Step(visitor);
      steps := steps + 1;
    }
  }
}
