/**
 * CloneImpl (common/expr.cc): copying an expression with a stack of pairs of a source expression and a place
 * in the copy still to be filled.
 */
module ExprClone {
  import opened Results
  import opened Exprs
  import opened TreePaths

  // ---------- equality ----------

  function OrDefault(o: Option<Expr>): Expr {
    if o.Some? then o.value else DEFAULT
  }

  /** A kind without its children. */
  function Blank(k: Kind): Kind {
    match k
    case Select(_, field, testOnly) => Select(None, field, testOnly)
    case Call(f, _, args) => Call(f, None, seq(|args|, _ => DEFAULT))
    case List(elements) =>
      List(seq(|elements|, i requires 0 <= i < |elements| => Element(DEFAULT, elements[i].optional)))
    case Struct(name, fields) =>
      Struct(name, seq(|fields|, i requires 0 <= i < |fields| => fields[i].(value := None)))
    case Map(entries) =>
      Map(seq(|entries|, i requires 0 <= i < |entries| => entries[i].(key := None, value := None)))
    case Comprehension(v, v2, a, _, _, _, _, _) => Comprehension(v, v2, a, DEFAULT, DEFAULT, DEFAULT, DEFAULT, DEFAULT)
    case _ => k
  }

  /** The roles a kind has room for, filled or not. */
  ghost predicate HasRole(k: Kind, role: Role) {
    match role
    case Operand => k.Select?
    case Target => k.Call?
    case Arg(i) => k.Call? && i < |k.args|
    case Elem(i) => k.List? && i < |k.elements|
    case FieldValue(i) => k.Struct? && i < |k.fields|
    case EntryKey(i) => k.Map? && i < |k.entries|
    case EntryValue(i) => k.Map? && i < |k.entries|
    case Sub(_) => k.Comprehension?
  }

  /** operator==: an unset child counts as the default expression. */
  ghost predicate Equals(a: Expr, b: Expr)
    decreases Size(a) + Size(b)
  {
    && a.id == b.id && Blank(a.kind) == Blank(b.kind)
    && forall r | HasRole(a.kind, r) ::
      (Get(a, r).None? && Get(b, r).None?)
      || (ChildrenSmaller(a, b, r); Equals(OrDefault(Get(a, r)), OrDefault(Get(b, r))))
  }

  lemma ChildrenSmaller(a: Expr, b: Expr, r: Role)
    requires Get(a, r).Some? || Get(b, r).Some?
    ensures Size(OrDefault(Get(a, r))) + Size(OrDefault(Get(b, r))) < Size(a) + Size(b)
  {
    if Get(a, r).Some? {
      ChildIsSmaller(a, r);
    }
    if Get(b, r).Some? {
      ChildIsSmaller(b, r);
    }
    assert Size(DEFAULT) == 1;
  }

  // ---------- copying, recursively ----------

  /** The children CopyNode pushes, first pushed first. */
  function CopyRoles(e: Expr): seq<Role> {
    match e.kind
    case Select(operand, _, _) => if operand.Some? then [Operand] else []
    case Call(_, target, args) => (if target.Some? then [Target] else []) + seq(|args|, i requires 0 <= i => Arg(i))
    case List(elements) => seq(|elements|, i requires 0 <= i => Elem(i))
    case Struct(_, fields) => seq(|fields|, i requires 0 <= i => FieldValue(i))
    case Map(entries) =>
      seq(2 * |entries|, i requires 0 <= i => if i % 2 == 0 then EntryKey(i / 2) else EntryValue(i / 2))
    case Comprehension(_, _, _, _, _, _, _, _) =>
      [Sub(AccuInit), Sub(IterRange), Sub(LoopCondition), Sub(LoopStep), Sub(Result)]
    case _ => []
  }

  /** What CopyNode leaves at its destination: everything but the children it pushes, which are made and empty. */
  function Shell(e: Expr): Expr {
    Expr(e.id, match e.kind
      case Select(operand, field, testOnly) => Select(if operand.Some? then Some(DEFAULT) else None, field, testOnly)
      case Call(f, target, args) => Call(f, if target.Some? then Some(DEFAULT) else None, seq(|args|, _ => DEFAULT))
      case List(elements) =>
        List(seq(|elements|, i requires 0 <= i < |elements| => Element(DEFAULT, elements[i].optional)))
      case Struct(name, fields) =>
        Struct(name, seq(|fields|, i requires 0 <= i < |fields| => fields[i].(value := Some(DEFAULT))))
      case Map(entries) =>
        Map(seq(|entries|, i requires 0 <= i < |entries| => entries[i].(key := Some(DEFAULT), value := Some(DEFAULT))))
      case Comprehension(v, v2, a, _, _, _, _, _) =>
        Comprehension(v, v2, a, DEFAULT, DEFAULT, DEFAULT, DEFAULT, DEFAULT)
      case _ => e.kind)
  }

  ghost function CloneOf(e: Expr): Expr
    decreases e, 1, 0
  {
    ShellReady(e);
    Fill(e, Shell(e), CopyRoles(e))
  }

  ghost function CloneChild(e: Expr, role: Role): Expr
    decreases e, 0, 0
  {
    if Get(e, role).Some? then CloneOf(Get(e, role).value) else DEFAULT
  }

  /** The children put in place, last pushed first. */
  ghost function Fill(e: Expr, cur: Expr, roles: seq<Role>): Expr
    requires Filled(cur, roles)
    decreases e, 0, |roles| + 1
  {
    if roles == [] then cur
    else
      var last := roles[|roles| - 1];
      FillOn(cur, roles, CloneChild(e, last));
      Fill(e, Put(cur, last, CloneChild(e, last)), roles[..|roles| - 1])
  }

  lemma FillOn(cur: Expr, roles: seq<Role>, x: Expr)
    requires Filled(cur, roles) && roles != []
    ensures Filled(Put(cur, roles[|roles| - 1], x), roles[..|roles| - 1])
  {
    var last := roles[|roles| - 1];
    forall r | r in roles[..|roles| - 1] ensures Get(Put(cur, last, x), r).Some? {
      if r == last {
        PutGet(cur, last, x);
      } else {
        PutElsewhere(cur, last, x, r);
      }
    }
  }

  lemma ShellReady(e: Expr)
    ensures Filled(Shell(e), CopyRoles(e))
    ensures forall r | r in CopyRoles(e) :: Get(Shell(e), r) == Some(DEFAULT)
  {
    forall r | r in CopyRoles(e) ensures Get(Shell(e), r) == Some(DEFAULT) {
      match e.kind {
        case Comprehension(_, _, _, _, _, _, _, _) => SubReady(e, r);
        case _ =>
      }
    }
  }

  lemma SubReady(e: Expr, r: Role)
    requires e.kind.Comprehension? && r.Sub?
    ensures Get(Shell(e), r) == Some(DEFAULT)
  {
  }

  // ---------- the copy is equal to the original ----------

  lemma PutKeepsBlank(e: Expr, role: Role, x: Expr)
    requires Get(e, role).Some?
    ensures Blank(Put(e, role, x).kind) == Blank(e.kind) && Put(e, role, x).id == e.id
  {
  }

  lemma {:induction false} FillGets(e: Expr, cur: Expr, roles: seq<Role>)
    requires Filled(cur, roles) && Distinct(roles)
    ensures Fill(e, cur, roles).id == cur.id && Blank(Fill(e, cur, roles).kind) == Blank(cur.kind)
    ensures forall r :: Get(Fill(e, cur, roles), r) == if r in roles then Some(CloneChild(e, r)) else Get(cur, r)
    decreases |roles|
  {
    if roles != [] {
      var last, rest := roles[|roles| - 1], roles[..|roles| - 1];
      var x := CloneChild(e, last);
      FillOn(cur, roles, x);
      PutKeepsBlank(cur, last, x);
      FillGets(e, Put(cur, last, x), rest);
      forall r ensures Get(Fill(e, cur, roles), r) == if r in roles then Some(CloneChild(e, r)) else Get(cur, r) {
        if r == last {
          PutGet(cur, last, x);
          assert last !in rest;
        } else {
          PutElsewhere(cur, last, x, r);
          assert r in roles <==> r in rest;
        }
      }
    }
  }

  lemma ShellBlank(e: Expr)
    ensures Blank(Shell(e).kind) == Blank(e.kind) && Shell(e).id == e.id
    ensures Distinct(CopyRoles(e))
  {
  }

  lemma RolesCopied(e: Expr, r: Role)
    requires HasRole(e.kind, r)
    ensures r in CopyRoles(e) || (Get(e, r).None? && Get(Shell(e), r).None?)
  {
    var roles := CopyRoles(e);
    match r {
      case Arg(i) => assert roles[if e.kind.target.Some? then i + 1 else i] == r;
      case Elem(i) => assert roles[i] == r;
      case FieldValue(i) => assert roles[i] == r;
      case EntryKey(i) => assert roles[2 * i] == r;
      case EntryValue(i) => assert roles[2 * i + 1] == r;
      case Sub(part) => assert roles[0] == Sub(AccuInit) && roles[1] == Sub(IterRange) && roles[2] == Sub(LoopCondition)
          && roles[3] == Sub(LoopStep) && roles[4] == Sub(Result);
      case Operand => assert e.kind.operand.Some? ==> roles[0] == r;
      case Target => assert e.kind.target.Some? ==> roles[0] == r;
    }
  }

  /** The copy equals the original. */
  lemma {:induction false} CloneEquals(e: Expr)
    ensures Equals(CloneOf(e), e)
    decreases e
  {
    ShellReady(e);
    ShellBlank(e);
    FillGets(e, Shell(e), CopyRoles(e));
    var c := CloneOf(e);
    forall r | HasRole(c.kind, r)
      ensures (Get(c, r).None? && Get(e, r).None?) || Equals(OrDefault(Get(c, r)), OrDefault(Get(e, r)))
    {
      SameRoles(c, e, r);
      RolesCopied(e, r);
      if Get(e, r).Some? {
        CloneEquals(Get(e, r).value);
      } else {
        DefaultEquals();
      }
    }
  }

  lemma SameRoles(a: Expr, b: Expr, r: Role)
    requires Blank(a.kind) == Blank(b.kind)
    ensures HasRole(a.kind, r) <==> HasRole(b.kind, r)
  {
    BlankSizes(a.kind);
    BlankSizes(b.kind);
  }

  lemma BlankSizes(k: Kind)
    ensures k.Call? ==> |Blank(k).args| == |k.args|
    ensures k.List? ==> |Blank(k).elements| == |k.elements|
    ensures k.Struct? ==> |Blank(k).fields| == |k.fields|
    ensures k.Map? ==> |Blank(k).entries| == |k.entries|
  {
  }

  lemma DefaultEquals()
    ensures Equals(DEFAULT, DEFAULT)
  {
  }

  // ---------- when it is the same ----------

  /** All field values, keys and values are set, here and below. */
  ghost predicate AllSet(e: Expr) {
    && (e.kind.Struct? ==> forall i | 0 <= i < |e.kind.fields| :: e.kind.fields[i].value.Some?)
    && (e.kind.Map? ==>
          forall i | 0 <= i < |e.kind.entries| :: e.kind.entries[i].key.Some? && e.kind.entries[i].value.Some?)
    && forall r | Get(e, r).Some? :: AllSet(Get(e, r).value)
  }

  /** An expression is made up of what is left when its children are taken out, and of its children. */
  lemma MadeOfChildren(a: Expr, b: Expr)
    requires a.id == b.id && Blank(a.kind) == Blank(b.kind) && forall r :: Get(a, r) == Get(b, r)
    ensures a == b
  {
    BlankSizes(a.kind);
    BlankSizes(b.kind);
    match a.kind {
      case Select(_, _, _) => assert Get(a, Operand) == Get(b, Operand);
      case Call(_, _, args) =>
        assert Get(a, Target) == Get(b, Target);
        SameArguments(a, b);
      case List(elements) => SameElements(a, b);
      case Struct(_, fields) => SameFields(a, b);
      case Map(entries) => SameEntries(a, b);
      case Comprehension(_, _, _, _, _, _, _, _) => SameParts(a, b);
      case _ =>
    }
  }

  lemma SameArguments(a: Expr, b: Expr)
    requires a.kind.Call? && b.kind.Call? && |a.kind.args| == |b.kind.args|
    requires forall r :: Get(a, r) == Get(b, r)
    ensures a.kind.args == b.kind.args
  {
    forall i | 0 <= i < |a.kind.args| ensures a.kind.args[i] == b.kind.args[i] {
      assert Get(a, Arg(i)) == Get(b, Arg(i));
    }
  }

  lemma SameElements(a: Expr, b: Expr)
    requires a.kind.List? && b.kind.List? && |a.kind.elements| == |b.kind.elements|
    requires Blank(a.kind) == Blank(b.kind) && forall r :: Get(a, r) == Get(b, r)
    ensures a.kind.elements == b.kind.elements
  {
    forall i | 0 <= i < |a.kind.elements| ensures a.kind.elements[i] == b.kind.elements[i] {
      assert Get(a, Elem(i)) == Get(b, Elem(i)) && Blank(a.kind).elements[i] == Blank(b.kind).elements[i];
    }
  }

  lemma SameFields(a: Expr, b: Expr)
    requires a.kind.Struct? && b.kind.Struct? && |a.kind.fields| == |b.kind.fields|
    requires Blank(a.kind) == Blank(b.kind) && forall r :: Get(a, r) == Get(b, r)
    ensures a.kind.fields == b.kind.fields
  {
    forall i | 0 <= i < |a.kind.fields| ensures a.kind.fields[i] == b.kind.fields[i] {
      assert Get(a, FieldValue(i)) == Get(b, FieldValue(i)) && Blank(a.kind).fields[i] == Blank(b.kind).fields[i];
    }
  }

  lemma SameEntries(a: Expr, b: Expr)
    requires a.kind.Map? && b.kind.Map? && |a.kind.entries| == |b.kind.entries|
    requires Blank(a.kind) == Blank(b.kind) && forall r :: Get(a, r) == Get(b, r)
    ensures a.kind.entries == b.kind.entries
  {
    forall i | 0 <= i < |a.kind.entries| ensures a.kind.entries[i] == b.kind.entries[i] {
      assert Get(a, EntryKey(i)) == Get(b, EntryKey(i)) && Get(a, EntryValue(i)) == Get(b, EntryValue(i));
      assert Blank(a.kind).entries[i] == Blank(b.kind).entries[i];
    }
  }

  lemma SameParts(a: Expr, b: Expr)
    requires a.kind.Comprehension? && b.kind.Comprehension?
    requires Blank(a.kind) == Blank(b.kind) && forall r :: Get(a, r) == Get(b, r)
    ensures a.kind == b.kind
  {
    assert Get(a, Sub(IterRange)) == Get(b, Sub(IterRange)) && Get(a, Sub(AccuInit)) == Get(b, Sub(AccuInit));
    assert Get(a, Sub(LoopCondition)) == Get(b, Sub(LoopCondition)) && Get(a, Sub(LoopStep)) == Get(b, Sub(LoopStep));
    assert Get(a, Sub(Result)) == Get(b, Sub(Result));
  }

  /** What stands in the roles of a copy. */
  lemma CloneGets(e: Expr, r: Role)
    ensures Get(CloneOf(e), r) == if r in CopyRoles(e) then Some(CloneChild(e, r)) else None
    ensures r in CopyRoles(e) ==> HasRole(e.kind, r)
    ensures Get(e, r).Some? ==> r in CopyRoles(e)
  {
    ShellReady(e);
    ShellBlank(e);
    FillGets(e, Shell(e), CopyRoles(e));
    hide CloneOf;
    hide Fill;
    hide CloneChild;
    if HasRole(e.kind, r) {
      RolesCopied(e, r);
    }
  }

  lemma {:induction false} CloneIsAllSet(e: Expr)
    ensures AllSet(CloneOf(e))
    decreases e
  {
    hide CloneOf;
    hide CopyRoles;
    var c := CloneOf(e);
    forall r | Get(c, r).Some? ensures AllSet(Get(c, r).value) {
      CloneGets(e, r);
      if Get(e, r).Some? {
        CloneIsAllSet(Get(e, r).value);
      } else {
        NothingSet();
      }
    }
    CloneKind(e);
    RolesAreFilled(e);
  }

  lemma NothingSet()
    ensures AllSet(DEFAULT)
  {
  }

  lemma CloneKind(e: Expr)
    ensures CloneOf(e).id == e.id && Blank(CloneOf(e).kind) == Blank(e.kind)
  {
    ShellReady(e);
    ShellBlank(e);
    FillGets(e, Shell(e), CopyRoles(e));
  }

  /** A copy has all its values and keys. */
  lemma RolesAreFilled(e: Expr)
    ensures
      var k := CloneOf(e).kind;
      && (k.Struct? ==> forall i | 0 <= i < |k.fields| :: k.fields[i].value.Some?)
      && (k.Map? ==> forall i | 0 <= i < |k.entries| :: k.entries[i].key.Some? && k.entries[i].value.Some?)
  {
    hide CloneOf;
    hide CopyRoles;
    hide CloneChild;
    CloneKind(e);
    var c := CloneOf(e);
    BlankSizes(c.kind);
    BlankSizes(e.kind);
    if c.kind.Struct? {
      forall i | 0 <= i < |c.kind.fields| ensures c.kind.fields[i].value.Some? {
        InCopyRoles(e, FieldValue(i));
        CloneGets(e, FieldValue(i));
      }
    }
    if c.kind.Map? {
      forall i | 0 <= i < |c.kind.entries| ensures c.kind.entries[i].key.Some? && c.kind.entries[i].value.Some? {
        InCopyRoles(e, EntryKey(i));
        CloneGets(e, EntryKey(i));
        InCopyRoles(e, EntryValue(i));
        CloneGets(e, EntryValue(i));
      }
    }
  }

  lemma InCopyRoles(e: Expr, r: Role)
    requires HasRole(e.kind, r) && (r.FieldValue? || r.EntryKey? || r.EntryValue?)
    ensures r in CopyRoles(e)
  {
    RolesCopied(e, r);
  }

  /** The copy is the original itself exactly when all field values, keys and values in it are set. */
  lemma {:induction false} CloneIsOriginal(e: Expr)
    ensures CloneOf(e) == e <==> AllSet(e)
    decreases e
  {
    hide CloneOf;
    hide CopyRoles;
    CloneIsAllSet(e);
    if AllSet(e) {
      CloneKind(e);
      forall r ensures Get(CloneOf(e), r) == Get(e, r) {
        CloneGets(e, r);
        if Get(e, r).Some? {
          CloneIsOriginal(Get(e, r).value);
        } else {
          NotCopied(e, r);
        }
      }
      MadeOfChildren(CloneOf(e), e);
    }
  }

  lemma NotCopied(e: Expr, r: Role)
    requires AllSet(e) && Get(e, r).None?
    ensures r !in CopyRoles(e)
  {
  }

  // ---------- the stack machine ----------

  /** A source expression and the place in the copy that it goes to. */
  datatype CopyStackRecord = CopyStackRecord(src: Expr, dst: Path)

  function ToRecords(e: Expr, path: Path, roles: seq<Role>): (records: seq<CopyStackRecord>)
    ensures |records| == |roles|
    ensures forall i | 0 <= i < |roles| :: records[i] == CopyStackRecord(OrDefault(Get(e, roles[i])), path + [roles[i]])
  {
    seq(|roles|, i requires 0 <= i < |roles| => CopyStackRecord(OrDefault(Get(e, roles[i])), path + [roles[i]]))
  }

  /** The pending places are there, still empty, and none is inside another. */
  ghost predicate Pending(dst: Expr, stack: seq<CopyStackRecord>) {
    && (forall i | 0 <= i < |stack| :: At(dst, stack[i].dst) == Some(DEFAULT))
    && (forall i, j | 0 <= i < j < |stack| :: Apart(stack[i].dst, stack[j].dst))
  }

  /** The copy once all that is pending has been filled in. */
  ghost function Complete(dst: Expr, stack: seq<CopyStackRecord>): Expr
    decreases |stack|
  {
    if stack == [] then dst
    else
      var top := stack[|stack| - 1];
      Complete(if At(dst, top.dst).Some? then Replace(dst, top.dst, CloneOf(top.src)) else dst, stack[..|stack| - 1])
  }

  lemma {:induction false} CompleteChildren(
      dst: Expr, below: seq<CopyStackRecord>, e: Expr, path: Path, cur: Expr, roles: seq<Role>)
    requires At(dst, path) == Some(cur) && Filled(cur, roles)
    ensures Complete(dst, below + ToRecords(e, path, roles)) == Complete(Replace(dst, path, Fill(e, cur, roles)), below)
    decreases |roles|
  {
    hide Get;
    hide Put;
    hide At;
    hide Replace;
    if roles == [] {
      assert below + ToRecords(e, path, roles) == below;
      ReplaceSame(dst, path);
    } else {
      var last, rest := roles[|roles| - 1], roles[..|roles| - 1];
      var x := CloneChild(e, last);
      var stack := below + ToRecords(e, path, roles);
      assert stack[..|stack| - 1] == below + ToRecords(e, path, rest);
      assert CloneOf(OrDefault(Get(e, last))) == x by {
        CloneOfDefault();
      }
      AtExtended(dst, path, last);
      ReplaceExtended(dst, path, last, x);
      FillOn(cur, roles, x);
      AtReplace(dst, path, Put(cur, last, x));
      CompleteChildren(Replace(dst, path, Put(cur, last, x)), below, e, path, Put(cur, last, x), rest);
      ReplaceTwice(dst, path, Put(cur, last, x), Fill(e, Put(cur, last, x), rest));
    }
  }

  lemma CloneOfDefault()
    ensures CloneOf(DEFAULT) == DEFAULT
  {
  }

  /** Copying one node and leaving its children pending completes to the same tree. */
  lemma CopyStep(dst: Expr, below: seq<CopyStackRecord>, e: Expr, path: Path)
    requires At(dst, path).Some?
    ensures
      Complete(Replace(dst, path, Shell(e)), below + ToRecords(e, path, CopyRoles(e)))
      == Complete(dst, below + [CopyStackRecord(e, path)])
  {
    ShellReady(e);
    AtReplace(dst, path, Shell(e));
    CompleteChildren(Replace(dst, path, Shell(e)), below, e, path, Shell(e), CopyRoles(e));
    ReplaceTwice(dst, path, Shell(e), CloneOf(e));
    assert (below + [CopyStackRecord(e, path)])[..|below|] == below;
  }

  lemma ApartBelow(p: Path, role: Role, q: Path)
    requires Apart(p, q)
    ensures Apart(p + [role], q)
  {
    assert q <= p + [role] ==> q <= p || q == p + [role];
  }

  /** Filling a place and making its children pending keeps all pending places there, empty and apart. */
  lemma PendingStep(dst: Expr, below: seq<CopyStackRecord>, e: Expr, path: Path)
    requires Pending(dst, below + [CopyStackRecord(e, path)])
    ensures At(dst, path) == Some(DEFAULT)
    ensures Pending(Replace(dst, path, Shell(e)), below + ToRecords(e, path, CopyRoles(e)))
  {
    var before := below + [CopyStackRecord(e, path)];
    var roles := CopyRoles(e);
    var after := below + ToRecords(e, path, roles);
    assert before[|below|].dst == path;
    ShellReady(e);
    ShellBlank(e);
    AtReplace(dst, path, Shell(e));
    hide Shell;
    hide CopyRoles;
    hide At;
    hide Replace;
    forall i | 0 <= i < |below| ensures Apart(path, below[i].dst) && At(dst, below[i].dst) == Some(DEFAULT) {
      assert before[i] == below[i];
    }
    forall i | 0 <= i < |after| ensures At(Replace(dst, path, Shell(e)), after[i].dst) == Some(DEFAULT) {
      if i < |below| {
        AtElsewhere(dst, path, Shell(e), below[i].dst);
      } else {
        AtExtended(Replace(dst, path, Shell(e)), path, roles[i - |below|]);
      }
    }
    forall i, j | 0 <= i < j < |after| ensures Apart(after[i].dst, after[j].dst) {
      if j < |below| {
        assert before[i] == below[i] && before[j] == below[j];
      } else if i < |below| {
        ApartBelow(path, roles[j - |below|], below[i].dst);
      } else {
        var a, b := roles[i - |below|], roles[j - |below|];
        assert (path + [a])[|path|] == a && (path + [b])[|path|] == b;
      }
    }
  }

  // ---------- how long it takes ----------

  ghost function CopySteps(e: Expr): (n: nat)
    ensures n >= 1
    decreases e, 1, 0
  {
    1 + StepsOfRoles(e, CopyRoles(e))
  }

  ghost function StepsOfRoles(e: Expr, roles: seq<Role>): nat
    decreases e, 0, |roles|
  {
    if roles == [] then 0
    else
      var last := roles[|roles| - 1];
      StepsOfRoles(e, roles[..|roles| - 1]) + if Get(e, last).Some? then CopySteps(Get(e, last).value) else 1
  }

  ghost function StepsLeft(stack: seq<CopyStackRecord>): nat
    decreases |stack|
  {
    if stack == [] then 0 else StepsLeft(stack[..|stack| - 1]) + CopySteps(stack[|stack| - 1].src)
  }

  lemma {:induction false} StepsOfRecords(below: seq<CopyStackRecord>, e: Expr, path: Path, roles: seq<Role>)
    ensures StepsLeft(below + ToRecords(e, path, roles)) == StepsLeft(below) + StepsOfRoles(e, roles)
    decreases |roles|
  {
    hide CopySteps;
    hide CopyRoles;
    hide Get;
    if roles == [] {
      assert below + ToRecords(e, path, roles) == below;
    } else {
      var rest := roles[..|roles| - 1];
      var stack := below + ToRecords(e, path, roles);
      assert stack[..|stack| - 1] == below + ToRecords(e, path, rest);
      StepsOfRecords(below, e, path, rest);
      DefaultSteps();
    }
  }

  lemma DefaultSteps()
    ensures CopySteps(DEFAULT) == 1
  {
  }

  // ---------- the code ----------

  lemma RecordPushed(e: Expr, path: Path, roles: seq<Role>, i: nat)
    requires i < |roles|
    ensures ToRecords(e, path, roles[..i + 1])
      == ToRecords(e, path, roles[..i]) + [CopyStackRecord(OrDefault(Get(e, roles[i])), path + [roles[i]])]
  {
  }

  // ---------- pointers into vectors ----------

  /** The place lies in the buffer of a vector that the owner holds: resizing that vector moves it. */
  predicate InBuffer(owner: Path, place: Path) {
    && Below(owner, place)
    && var r := place[|owner|]; r.Arg? || r.Elem? || r.FieldValue? || r.EntryKey? || r.EntryValue?
  }

  /** A pointer to the place, taken after `since` resizes, is still good: none after that has moved the place. */
  ghost predicate Live(place: Path, since: nat, resizes: seq<Path>) {
    forall k | since <= k < |resizes| :: !InBuffer(resizes[k], place)
  }

  /** All pending destinations are good pointers; `taken` says when each was taken. */
  ghost predicate AllLive(stack: seq<CopyStackRecord>, taken: seq<nat>, resizes: seq<Path>) {
    |taken| == |stack| && forall i | 0 <= i < |stack| :: Live(stack[i].dst, taken[i], resizes)
  }

  lemma ResizeKeeps(stack: seq<CopyStackRecord>, taken: seq<nat>, resizes: seq<Path>, owner: Path)
    requires AllLive(stack, taken, resizes) && forall i | 0 <= i < |stack| :: !InBuffer(owner, stack[i].dst)
    ensures AllLive(stack, taken, resizes + [owner])
  {
  }

  lemma PushKeeps(stack: seq<CopyStackRecord>, taken: seq<nat>, resizes: seq<Path>, r: CopyStackRecord)
    requires AllLive(stack, taken, resizes)
    ensures AllLive(stack + [r], taken + [|resizes|], resizes)
  {
  }

  /** No pending destination lies inside the one being written. */
  ghost predicate Untouched(path: Path, stack: seq<CopyStackRecord>) {
    forall i | 0 <= i < |stack| :: !InBuffer(path, stack[i].dst)
  }

  lemma ApartIsUntouched(dst: Expr, below: seq<CopyStackRecord>, r: CopyStackRecord)
    requires Pending(dst, below + [r])
    ensures Untouched(r.dst, below)
  {
    var stack := below + [r];
    forall i | 0 <= i < |below| ensures !InBuffer(r.dst, below[i].dst) {
      assert stack[i] == below[i] && stack[|below|] == r;
      assert Apart(stack[i].dst, stack[|below|].dst);
    }
  }

  /** CopyNode: writes what is not a child to the destination, and pushes the children with their new places. */
  method CopyNode(
      src: Expr, path: Path, dst0: Expr, stack0: seq<CopyStackRecord>,
      ghost since: nat, ghost taken0: seq<nat>, ghost resizes0: seq<Path>)
    returns (dst: Expr, stack: seq<CopyStackRecord>, ghost taken: seq<nat>, ghost resizes: seq<Path>)
    requires At(dst0, path) == Some(DEFAULT) && Live(path, since, resizes0)
    requires Untouched(path, stack0) && AllLive(stack0, taken0, resizes0)
    ensures AllLive(stack, taken, resizes)
    ensures dst == Replace(dst0, path, Shell(src))
    ensures stack == stack0 + ToRecords(src, path, CopyRoles(src))
  {
    var written;
    match src.kind {
      case Select(_, _, _) => written, stack, taken, resizes := CopySelect(src, path, stack0, taken0, resizes0);
      case Call(_, _, _) => written, stack, taken, resizes := CopyCall(src, path, stack0, taken0, resizes0);
      case List(_) => written, stack, taken, resizes := CopyList(src, path, stack0, taken0, resizes0);
      case Struct(_, _) => written, stack, taken, resizes := CopyStruct(src, path, stack0, taken0, resizes0);
      case Map(_) => written, stack, taken, resizes := CopyMap(src, path, stack0, taken0, resizes0);
      case Comprehension(_, _, _, _, _, _, _, _) =>
        written, stack, taken, resizes := CopyComprehension(src, path, stack0, taken0, resizes0);
      case _ =>
        written := src.kind;
        stack, taken, resizes := stack0, taken0, resizes0;
        assert stack0 + ToRecords(src, path, CopyRoles(src)) == stack0;
    }
    dst := Replace(dst0, path, Expr(src.id, written));
  }

  method CopySelect(
      src: Expr, path: Path, stack0: seq<CopyStackRecord>, ghost taken0: seq<nat>, ghost resizes0: seq<Path>)
    returns (kind: Kind, stack: seq<CopyStackRecord>, ghost taken: seq<nat>, ghost resizes: seq<Path>)
    requires src.kind.Select?
    requires Untouched(path, stack0) && AllLive(stack0, taken0, resizes0)
    ensures kind == Shell(src).kind && stack == stack0 + ToRecords(src, path, CopyRoles(src))
    ensures AllLive(stack, taken, resizes)
  {
    kind := Select(None, src.kind.field, src.kind.testOnly);
    stack, taken, resizes := stack0, taken0, resizes0;
    if src.kind.operand.Some? {
      kind := kind.(operand := Some(DEFAULT));
      PushKeeps(stack, taken, resizes, CopyStackRecord(src.kind.operand.value, path + [Operand]));
      stack, taken := stack + [CopyStackRecord(src.kind.operand.value, path + [Operand])], taken + [|resizes|];
    }
  }

  method CopyCall(
      src: Expr, path: Path, stack0: seq<CopyStackRecord>, ghost taken0: seq<nat>, ghost resizes0: seq<Path>)
    returns (kind: Kind, stack: seq<CopyStackRecord>, ghost taken: seq<nat>, ghost resizes: seq<Path>)
    requires src.kind.Call?
    requires Untouched(path, stack0) && AllLive(stack0, taken0, resizes0)
    ensures kind == Shell(src).kind && stack == stack0 + ToRecords(src, path, CopyRoles(src))
    ensures AllLive(stack, taken, resizes)
  {
    hide AllLive;
    hide CopyRoles;
    var target := None;
    stack, taken, resizes := stack0, taken0, resizes0;
    if src.kind.target.Some? {
      target := Some(DEFAULT);
      PushKeeps(stack, taken, resizes, CopyStackRecord(src.kind.target.value, path + [Target]));
      stack, taken := stack + [CopyStackRecord(src.kind.target.value, path + [Target])], taken + [|resizes|];
    }
    ResizeKeeps(stack, taken, resizes, path);
    resizes := resizes + [path];
    kind := Call(src.kind.function_, target, seq(|src.kind.args|, _ => DEFAULT));
    stack, taken := CopyArgs(src, path, stack0, stack, taken, resizes);
  }

  /** The loop over the arguments, once their vector has its size. */
  method CopyArgs(
      src: Expr, path: Path, ghost below: seq<CopyStackRecord>, stack0: seq<CopyStackRecord>,
      ghost taken0: seq<nat>, ghost resizes: seq<Path>)
    returns (stack: seq<CopyStackRecord>, ghost taken: seq<nat>)
    requires src.kind.Call? && AllLive(stack0, taken0, resizes)
    requires stack0 == below + if src.kind.target.Some?
      then [CopyStackRecord(src.kind.target.value, path + [Target])] else []
    ensures stack == below + ToRecords(src, path, CopyRoles(src)) && AllLive(stack, taken, resizes)
  {
    hide AllLive;
    var args := src.kind.args;
    stack, taken := stack0, taken0;
    ghost var roles := CopyRoles(src);
    ghost var first := if src.kind.target.Some? then 1 else 0;
    for i := 0 to |args|
      invariant AllLive(stack, taken, resizes)
      invariant stack == below + ToRecords(src, path, roles[..first + i])
    {
      assert roles[first + i] == Arg(i);
      RecordPushed(src, path, roles, first + i);
      PushKeeps(stack, taken, resizes, CopyStackRecord(args[i], path + [Arg(i)]));
      stack, taken := stack + [CopyStackRecord(args[i], path + [Arg(i)])], taken + [|resizes|];
    }
    assert roles[..first + |args|] == roles;
  }

  method CopyList(
      src: Expr, path: Path, stack0: seq<CopyStackRecord>, ghost taken0: seq<nat>, ghost resizes0: seq<Path>)
    returns (kind: Kind, stack: seq<CopyStackRecord>, ghost taken: seq<nat>, ghost resizes: seq<Path>)
    requires src.kind.List?
    requires Untouched(path, stack0) && AllLive(stack0, taken0, resizes0)
    ensures kind == Shell(src).kind && stack == stack0 + ToRecords(src, path, CopyRoles(src))
    ensures AllLive(stack, taken, resizes)
  {
    var elements := src.kind.elements;
    stack, taken, resizes := stack0, taken0, resizes0;
    ResizeKeeps(stack, taken, resizes, path);
    resizes := resizes + [path];
    var copied := seq(|elements|, _ => Element(DEFAULT, false));
    ghost var roles := CopyRoles(src);
    for i := 0 to |elements|
      invariant |copied| == |elements|
      invariant forall k | 0 <= k < i :: copied[k] == Element(DEFAULT, elements[k].optional)
      invariant AllLive(stack, taken, resizes)
      invariant stack == stack0 + ToRecords(src, path, roles[..i])
    {
      assert roles[i] == Elem(i);
      RecordPushed(src, path, roles, i);
      copied := copied[i := Element(DEFAULT, elements[i].optional)];
      PushKeeps(stack, taken, resizes, CopyStackRecord(elements[i].expr, path + [Elem(i)]));
      stack, taken := stack + [CopyStackRecord(elements[i].expr, path + [Elem(i)])], taken + [|resizes|];
    }
    assert roles[..|elements|] == roles;
    assert copied == Shell(src).kind.elements;
    kind := List(copied);
  }

  method CopyStruct(
      src: Expr, path: Path, stack0: seq<CopyStackRecord>, ghost taken0: seq<nat>, ghost resizes0: seq<Path>)
    returns (kind: Kind, stack: seq<CopyStackRecord>, ghost taken: seq<nat>, ghost resizes: seq<Path>)
    requires src.kind.Struct?
    requires Untouched(path, stack0) && AllLive(stack0, taken0, resizes0)
    ensures kind == Shell(src).kind && stack == stack0 + ToRecords(src, path, CopyRoles(src))
    ensures AllLive(stack, taken, resizes)
  {
    var fields := src.kind.fields;
    stack, taken, resizes := stack0, taken0, resizes0;
    ResizeKeeps(stack, taken, resizes, path);
    resizes := resizes + [path];
    var copied := seq(|fields|, _ => Field(0, "", None, false));
    ghost var roles := CopyRoles(src);
    for i := 0 to |fields|
      invariant |copied| == |fields|
      invariant forall k | 0 <= k < i :: copied[k] == fields[k].(value := Some(DEFAULT))
      invariant AllLive(stack, taken, resizes)
      invariant stack == stack0 + ToRecords(src, path, roles[..i])
    {
      assert roles[i] == FieldValue(i);
      RecordPushed(src, path, roles, i);
      copied := copied[i := Field(fields[i].id, fields[i].name, Some(DEFAULT), fields[i].optional)];
      PushKeeps(stack, taken, resizes, CopyStackRecord(OrDefault(fields[i].value), path + [FieldValue(i)]));
      stack, taken :=
        stack + [CopyStackRecord(OrDefault(fields[i].value), path + [FieldValue(i)])], taken + [|resizes|];
    }
    assert roles[..|fields|] == roles;
    assert copied == Shell(src).kind.fields;
    kind := Struct(src.kind.messageName, copied);
  }

  /** The records of one more entry: its key's and its value's. */
  lemma EntryPushed(src: Expr, path: Path, i: nat)
    requires src.kind.Map? && i < |src.kind.entries|
    ensures |CopyRoles(src)| == 2 * |src.kind.entries|
    ensures
      var roles, entry := CopyRoles(src), src.kind.entries[i];
      ToRecords(src, path, roles[..2 * (i + 1)])
      == ToRecords(src, path, roles[..2 * i])
        + [CopyStackRecord(OrDefault(entry.key), path + [EntryKey(i)])]
        + [CopyStackRecord(OrDefault(entry.value), path + [EntryValue(i)])]
  {
    var roles := CopyRoles(src);
    assert roles[2 * i] == EntryKey(i) && roles[2 * i + 1] == EntryValue(i);
    RecordPushed(src, path, roles, 2 * i);
    RecordPushed(src, path, roles, 2 * i + 1);
  }

  lemma NoEntries(src: Expr, path: Path)
    requires src.kind.Map?
    ensures |CopyRoles(src)| == 2 * |src.kind.entries| && ToRecords(src, path, CopyRoles(src)[..0]) == []
  {
  }

  method CopyMap(
      src: Expr, path: Path, stack0: seq<CopyStackRecord>, ghost taken0: seq<nat>, ghost resizes0: seq<Path>)
    returns (kind: Kind, stack: seq<CopyStackRecord>, ghost taken: seq<nat>, ghost resizes: seq<Path>)
    requires src.kind.Map?
    requires Untouched(path, stack0) && AllLive(stack0, taken0, resizes0)
    ensures kind == Shell(src).kind && stack == stack0 + ToRecords(src, path, CopyRoles(src))
    ensures AllLive(stack, taken, resizes)
  {
    hide AllLive;
    hide CopyRoles;
    hide ToRecords;
    var entries := src.kind.entries;
    stack, taken, resizes := stack0, taken0, resizes0;
    ResizeKeeps(stack, taken, resizes, path);
    resizes := resizes + [path];
    var copied := seq(|entries|, _ => Entry(0, None, None, false));
    ghost var roles := CopyRoles(src);
    NoEntries(src, path);
    for i := 0 to |entries|
      invariant |copied| == |entries|
      invariant forall k | 0 <= k < i :: copied[k] == entries[k].(key := Some(DEFAULT), value := Some(DEFAULT))
      invariant AllLive(stack, taken, resizes)
      invariant |roles| == 2 * |entries| && stack == stack0 + ToRecords(src, path, roles[..2 * i])
    {
      EntryPushed(src, path, i);
      copied := copied[i := Entry(entries[i].id, Some(DEFAULT), Some(DEFAULT), entries[i].optional)];
      PushKeeps(stack, taken, resizes, CopyStackRecord(OrDefault(entries[i].key), path + [EntryKey(i)]));
      stack, taken := stack + [CopyStackRecord(OrDefault(entries[i].key), path + [EntryKey(i)])], taken + [|resizes|];
      PushKeeps(stack, taken, resizes, CopyStackRecord(OrDefault(entries[i].value), path + [EntryValue(i)]));
      stack, taken :=
        stack + [CopyStackRecord(OrDefault(entries[i].value), path + [EntryValue(i)])], taken + [|resizes|];
    }
    assert roles[..2 * |entries|] == roles;
    assert copied == Shell(src).kind.entries;
    kind := Map(copied);
  }

  method CopyComprehension(
      src: Expr, path: Path, stack0: seq<CopyStackRecord>, ghost taken0: seq<nat>, ghost resizes0: seq<Path>)
    returns (kind: Kind, stack: seq<CopyStackRecord>, ghost taken: seq<nat>, ghost resizes: seq<Path>)
    requires src.kind.Comprehension?
    requires Untouched(path, stack0) && AllLive(stack0, taken0, resizes0)
    ensures kind == Shell(src).kind && stack == stack0 + ToRecords(src, path, CopyRoles(src))
    ensures AllLive(stack, taken, resizes)
  {
    var c := src.kind;
    kind := Comprehension(c.iterVar, c.iterVar2, c.accuVar, DEFAULT, DEFAULT, DEFAULT, DEFAULT, DEFAULT);
    stack, taken, resizes := stack0, taken0, resizes0;
    PushKeeps(stack, taken, resizes, CopyStackRecord(c.accuInit, path + [Sub(AccuInit)]));
    stack, taken := stack + [CopyStackRecord(c.accuInit, path + [Sub(AccuInit)])], taken + [|resizes|];
    PushKeeps(stack, taken, resizes, CopyStackRecord(c.iterRange, path + [Sub(IterRange)]));
    stack, taken := stack + [CopyStackRecord(c.iterRange, path + [Sub(IterRange)])], taken + [|resizes|];
    PushKeeps(stack, taken, resizes, CopyStackRecord(c.loopCondition, path + [Sub(LoopCondition)]));
    stack, taken := stack + [CopyStackRecord(c.loopCondition, path + [Sub(LoopCondition)])], taken + [|resizes|];
    PushKeeps(stack, taken, resizes, CopyStackRecord(c.loopStep, path + [Sub(LoopStep)]));
    stack, taken := stack + [CopyStackRecord(c.loopStep, path + [Sub(LoopStep)])], taken + [|resizes|];
    PushKeeps(stack, taken, resizes, CopyStackRecord(c.result, path + [Sub(Result)]));
    stack, taken := stack + [CopyStackRecord(c.result, path + [Sub(Result)])], taken + [|resizes|];
  }

  /** CloneImpl: the copy is the recursive one, and so equal to the original. */
  method CloneImpl(expr: Expr) returns (dst: Expr)
    ensures dst == CloneOf(expr) && Equals(dst, expr)
  {
    hide Shell;
    hide CopyRoles;
    hide CloneOf;
    hide At;
    hide Replace;
    dst := DEFAULT;
    var stack := [CopyStackRecord(expr, [])];
    ghost var taken, resizes := [0], [];
    CloneStarts(expr);
    while stack != []
      invariant Pending(dst, stack) && AllLive(stack, taken, resizes) && Complete(dst, stack) == CloneOf(expr)
      decreases StepsLeft(stack)
    {
      var element := stack[|stack| - 1];
      ghost var below := stack[..|stack| - 1];
      assert stack == below + [element];
      PendingStep(dst, below, element.src, element.dst);
      CopyStep(dst, below, element.src, element.dst);
      StepsOfRecords(below, element.src, element.dst, CopyRoles(element.src));
      ApartIsUntouched(dst, below, element);
      ghost var since := taken[|below|];
      stack, taken := stack[..|stack| - 1], taken[..|below|];
      dst, stack, taken, resizes := CopyNode(element.src, element.dst, dst, stack, since, taken, resizes);
    }
    CloneEquals(expr);
  }

  lemma CloneStarts(expr: Expr)
    ensures Pending(DEFAULT, [CopyStackRecord(expr, [])])
      && Complete(DEFAULT, [CopyStackRecord(expr, [])]) == CloneOf(expr)
  {
    assert [CopyStackRecord(expr, [])][..0] == [];
  }
}
