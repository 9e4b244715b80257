/**
 * The expression tree (common/expr.h). A child is named by its role in its parent, so that "the child at a
 * role" and "the tree with that child replaced" stand for the source's references into a tree.
 *
 * An unset list element or comprehension field reads as the default expression, and is that here; where the
 * source tells set from unset (operand, target, field value, map key and value), so does the model.
 */
module Exprs {
  import opened Results

  datatype Constant =
    | NoConstant
    | NullConstant
    | BoolConstant(b: bool)
    | IntConstant(i: int)
    | UintConstant(u: nat)
    | DoubleConstant(d: real)
    | StringConstant(s: string)
    | BytesConstant(bytes: seq<bv8>)

  datatype Expr = Expr(id: int, kind: Kind)

  datatype Kind =
    | Unspecified
    | Const(constant: Constant)
    | Ident(name: string)
    | Select(operand: Option<Expr>, field: string, testOnly: bool)
    | Call(function_: string, target: Option<Expr>, args: seq<Expr>)
    | List(elements: seq<Element>)
    | Struct(messageName: string, fields: seq<Field>)
    | Map(entries: seq<Entry>)
    | Comprehension(iterVar: string, iterVar2: string, accuVar: string,
        iterRange: Expr, accuInit: Expr, loopCondition: Expr, loopStep: Expr, result: Expr)

  datatype Element = Element(expr: Expr, optional: bool)
  datatype Field = Field(id: int, name: string, value: Option<Expr>, optional: bool)
  datatype Entry = Entry(id: int, key: Option<Expr>, value: Option<Expr>, optional: bool)

  const DEFAULT := Expr(0, Unspecified)

  /** ComprehensionArg. */
  datatype Part = IterRange | AccuInit | LoopCondition | LoopStep | Result

  datatype Role =
    | Operand
    | Target
    | Arg(i: nat)
    | Elem(i: nat)
    | FieldValue(i: nat)
    | EntryKey(i: nat)
    | EntryValue(i: nat)
    | Sub(part: Part)

  function GetPart(kind: Kind, part: Part): Expr
    requires kind.Comprehension?
  {
    match part
    case IterRange => kind.iterRange
    case AccuInit => kind.accuInit
    case LoopCondition => kind.loopCondition
    case LoopStep => kind.loopStep
    case Result => kind.result
  }

  function PutPart(kind: Kind, part: Part, x: Expr): Kind
    requires kind.Comprehension?
  {
    match part
    case IterRange => kind.(iterRange := x)
    case AccuInit => kind.(accuInit := x)
    case LoopCondition => kind.(loopCondition := x)
    case LoopStep => kind.(loopStep := x)
    case Result => kind.(result := x)
  }

  /** The child in the given role, if there is one. */
  function Get(e: Expr, role: Role): (c: Option<Expr>)
    ensures c.Some? ==> c.value < e
  {
    match (role, e.kind)
    case (Operand, Select(operand, _, _)) => operand
    case (Target, Call(_, target, _)) => target
    case (Arg(i), Call(_, _, args)) => if i < |args| then Some(args[i]) else None
    case (Elem(i), List(elements)) => if i < |elements| then Some(elements[i].expr) else None
    case (FieldValue(i), Struct(_, fields)) => if i < |fields| then fields[i].value else None
    case (EntryKey(i), Map(entries)) => if i < |entries| then entries[i].key else None
    case (EntryValue(i), Map(entries)) => if i < |entries| then entries[i].value else None
    case (Sub(part), Comprehension(_, _, _, _, _, _, _, _)) => Some(GetPart(e.kind, part))
    case _ => None
  }

  /** The tree with the child in the given role replaced. */
  function Put(e: Expr, role: Role, x: Expr): Expr
    requires Get(e, role).Some?
  {
    var k := e.kind;
    Expr(e.id,
      match role
      case Operand => k.(operand := Some(x))
      case Target => k.(target := Some(x))
      case Arg(i) => k.(args := k.args[i := x])
      case Elem(i) => k.(elements := k.elements[i := k.elements[i].(expr := x)])
      case FieldValue(i) => k.(fields := k.fields[i := k.fields[i].(value := Some(x))])
      case EntryKey(i) => k.(entries := k.entries[i := k.entries[i].(key := Some(x))])
      case EntryValue(i) => k.(entries := k.entries[i := k.entries[i].(value := Some(x))])
      case Sub(part) => PutPart(k, part, x))
  }

  function FieldRoles(fields: seq<Field>, i: nat): seq<Role>
    requires i <= |fields|
    decreases |fields| - i
  {
    if i == |fields| then []
    else (if fields[i].value.Some? then [FieldValue(i)] else []) + FieldRoles(fields, i + 1)
  }

  function EntryRoles(entries: seq<Entry>, i: nat): seq<Role>
    requires i <= |entries|
    decreases |entries| - i
  {
    if i == |entries| then []
    else
      (if entries[i].key.Some? then [EntryKey(i)] else [])
      + (if entries[i].value.Some? then [EntryValue(i)] else [])
      + EntryRoles(entries, i + 1)
  }

  /** The roles that are filled, in the order their children are visited in. */
  function Roles(e: Expr): seq<Role> {
    match e.kind
    case Select(operand, _, _) => if operand.Some? then [Operand] else []
    case Call(_, target, args) => (if target.Some? then [Target] else []) + seq(|args|, i requires 0 <= i => Arg(i))
    case List(elements) => seq(|elements|, i requires 0 <= i => Elem(i))
    case Struct(_, fields) => FieldRoles(fields, 0)
    case Map(entries) => EntryRoles(entries, 0)
    case Comprehension(_, _, _, _, _, _, _, _) =>
      [Sub(IterRange), Sub(AccuInit), Sub(LoopCondition), Sub(LoopStep), Sub(Result)]
    case _ => []
  }

  // ---------- replacing a child ----------

  lemma PutGet(e: Expr, role: Role, x: Expr)
    requires Get(e, role).Some?
    ensures Get(Put(e, role, x), role) == Some(x)
  {
  }

  lemma GetPut(e: Expr, role: Role)
    requires Get(e, role).Some?
    ensures Put(e, role, Get(e, role).value) == e
  {
  }

  lemma PutPut(e: Expr, role: Role, x: Expr, y: Expr)
    requires Get(e, role).Some?
    ensures Get(Put(e, role, x), role).Some? && Put(Put(e, role, x), role, y) == Put(e, role, y)
  {
    var yy, y1 := Put(Put(e, role, x), role, y).kind, Put(e, role, y).kind;
    match role {
      case Arg(i) => assert yy.args == y1.args;
      case Elem(i) => assert yy.elements == y1.elements;
      case FieldValue(i) => assert yy.fields == y1.fields;
      case EntryKey(i) => assert yy.entries == y1.entries;
      case EntryValue(i) => assert yy.entries == y1.entries;
      case _ =>
    }
  }

  lemma PutElsewhere(e: Expr, role: Role, x: Expr, other: Role)
    requires Get(e, role).Some? && other != role
    ensures Get(Put(e, role, x), other) == Get(e, other)
  {
  }

  // ---------- the roles are exactly the children, each once ----------

  lemma {:induction false} FieldRolesComplete(fields: seq<Field>, i: nat)
    requires i <= |fields|
    ensures forall r :: r in FieldRoles(fields, i) <==>
      r.FieldValue? && i <= r.i < |fields| && fields[r.i].value.Some?
    ensures Distinct(FieldRoles(fields, i))
    decreases |fields| - i
  {
    if i < |fields| {
      FieldRolesComplete(fields, i + 1);
    }
  }

  lemma {:induction false} EntryRolesComplete(entries: seq<Entry>, i: nat)
    requires i <= |entries|
    ensures forall r :: r in EntryRoles(entries, i) <==>
      || (r.EntryKey? && i <= r.i < |entries| && entries[r.i].key.Some?)
      || (r.EntryValue? && i <= r.i < |entries| && entries[r.i].value.Some?)
    ensures Distinct(EntryRoles(entries, i))
    decreases |entries| - i
  {
    if i < |entries| {
      EntryRolesComplete(entries, i + 1);
    }
  }

  predicate Distinct(roles: seq<Role>) {
    forall i, j | 0 <= i < j < |roles| :: roles[i] != roles[j]
  }

  lemma RolesComplete(e: Expr)
    ensures forall r :: r in Roles(e) <==> Get(e, r).Some?
    ensures Distinct(Roles(e))
  {
    match e.kind {
      case Struct(_, fields) => FieldRolesComplete(fields, 0);
      case Map(entries) => EntryRolesComplete(entries, 0);
      case Call(_, target, args) =>
        forall i | 0 <= i < |args| ensures Arg(i) in Roles(e) {
          assert Roles(e)[i + if target.Some? then 1 else 0] == Arg(i);
        }
      case List(elements) =>
        forall i | 0 <= i < |elements| ensures Elem(i) in Roles(e) {
          assert Roles(e)[i] == Elem(i);
        }
      case Comprehension(_, _, _, _, _, _, _, _) =>
        assert Roles(e)[0] == Sub(IterRange) && Roles(e)[1] == Sub(AccuInit) && Roles(e)[2] == Sub(LoopCondition);
        assert Roles(e)[3] == Sub(LoopStep) && Roles(e)[4] == Sub(Result);
      case _ =>
    }
  }

  /** The listed children are there. */
  predicate Filled(e: Expr, roles: seq<Role>) {
    forall r | r in roles :: Get(e, r).Some?
  }

  lemma RolesFilled(e: Expr)
    ensures Filled(e, Roles(e))
  {
    RolesComplete(e);
  }

  // ---------- size and height ----------

  ghost function Size(e: Expr): (n: nat)
    ensures n >= 1
    decreases e, 1, 0
  {
    RolesFilled(e);
    1 + Sizes(e, Roles(e))
  }

  ghost function Sizes(e: Expr, roles: seq<Role>): nat
    requires Filled(e, roles)
    decreases e, 0, |roles|
  {
    if roles == [] then 0 else Size(Get(e, roles[0]).value) + Sizes(e, roles[1..])
  }

  ghost function Height(e: Expr): (n: nat)
    ensures n >= 1
    decreases e, 1, 0
  {
    RolesFilled(e);
    1 + Heights(e, Roles(e))
  }

  ghost function Heights(e: Expr, roles: seq<Role>): nat
    requires Filled(e, roles)
    decreases e, 0, |roles|
  {
    if roles == [] then 0
    else
      var first, rest := Height(Get(e, roles[0]).value), Heights(e, roles[1..]);
      if first > rest then first else rest
  }

  lemma {:induction false} PartOfSizes(e: Expr, roles: seq<Role>, role: Role)
    requires Filled(e, roles) && role in roles
    ensures Size(Get(e, role).value) <= Sizes(e, roles)
    decreases |roles|
  {
    if role != roles[0] {
      PartOfSizes(e, roles[1..], role);
    }
  }

  lemma ChildIsSmaller(e: Expr, role: Role)
    requires Get(e, role).Some?
    ensures Size(Get(e, role).value) < Size(e)
  {
    RolesComplete(e);
    PartOfSizes(e, Roles(e), role);
  }
}
