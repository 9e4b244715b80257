/**
 * common/ast_rewrite.cc: a traversal that lets its visitor replace each expression before and after the
 * visit, in place, against the recursive rewriting it stands for.
 *
 * The visitor is arbitrary: it has a state of its own, and each call may change it.
 */
module Rewriting {
  import opened Results
  import opened Exprs
  import opened TreePaths
  import opened Traversals

  /** A call to the visitor other than the two that rewrite. */
  datatype Notice =
    | Callback(event: Event)
    | TraversalStackUpdate(path: seq<Path>)

  datatype Outcome<S> = Outcome(state: S, rewritten: bool, expr: Expr)

  datatype Rewriter<!S> = Rewriter(
    on: (S, Notice) -> S,
    preVisitRewrite: (S, Expr) -> Outcome<S>,
    postVisitRewrite: (S, Expr) -> Outcome<S>)

  /** What changes outside the tree: the visitor, whether anything was rewritten, the number of turns taken. */
  datatype World<S> = World(state: S, rewritten: bool, ghost turns: nat)

  /**
   * The visitor does not grow the tree for ever: with respect to some measure, what it puts in place of an
   * expression has smaller children than the expression.
   */
  ghost predicate Shrinks<S(!new)>(v: Rewriter<S>, measure: Expr -> nat) {
    forall s, e, r ::
      var after := v.preVisitRewrite(s, e).expr;
      Get(after, r).Some? ==> measure(Get(after, r).value) < measure(e)
  }

  // ---------- the recursive rewriting ----------

  function Tell<S>(v: Rewriter<S>, s: S, events: seq<Event>): S
    decreases |events|
  {
    if events == [] then s else Tell(v, v.on(s, Callback(events[0])), events[1..])
  }

  /** Whether the child in a role has a record of its own around its expression's. */
  predicate Wrapped(role: Role) {
    role.Target? || role.Arg? || role.Sub?
  }

  function Announce<S>(v: Rewriter<S>, w: World<S>, e: Expr, role: Role, callbacks: bool): World<S> {
    if Wrapped(role) then World(Tell(v, w.state, BeforeChild(e, role, callbacks)), w.rewritten, w.turns + 1) else w
  }

  function Conclude<S>(v: Rewriter<S>, w: World<S>, e: Expr, role: Role, callbacks: bool): World<S> {
    if Wrapped(role) then World(Tell(v, w.state, AfterChild(e, role, callbacks)), w.rewritten, w.turns + 1) else w
  }

  /** Arriving at an expression: the visitor is told the way there, may replace it, and is shown what stands there. */
  function Arrive<S>(v: Rewriter<S>, path: Path, w: World<S>, e: Expr): (World<S>, Expr) {
    var pre := v.preVisitRewrite(v.on(w.state, TraversalStackUpdate(Way(path))), e);
    (World(Tell(v, pre.state, Before(pre.expr)), w.rewritten || pre.rewritten, w.turns + 1), pre.expr)
  }

  /** Leaving it: the visitor is shown it again, may replace it, and is told the way that is left. */
  function Depart<S>(v: Rewriter<S>, path: Path, w: World<S>, e: Expr): (World<S>, Expr) {
    var post := v.postVisitRewrite(Tell(v, w.state, After(e)), e);
    (World(v.on(post.state, TraversalStackUpdate(Way(path)[..|path|])), w.rewritten || post.rewritten, w.turns + 1),
      post.expr)
  }

  ghost predicate ChildrenBelow(e: Expr, roles: seq<Role>, measure: Expr -> nat, bound: nat) {
    Distinct(roles) && forall r | r in roles :: Get(e, r).Some? && measure(Get(e, r).value) < bound
  }

  ghost function RewriteAt<S(!new)>(
      v: Rewriter<S>, measure: Expr -> nat, callbacks: bool, path: Path, w: World<S>, e: Expr):
    (World<S>, Expr)
    requires Shrinks(v, measure)
    decreases measure(e), 1, 0
  {
    var (w1, e1) := Arrive(v, path, w, e);
    ArrivedSmaller(v, measure, path, w, e);
    var (w2, e2) := RewriteChildren(v, measure, callbacks, path, w1, e1, Roles(e1), measure(e));
    Depart(v, path, w2, e2)
  }

  /** The children in `roles` rewritten one after the other, each seen by what comes after it. */
  ghost function RewriteChildren<S(!new)>(
      v: Rewriter<S>, measure: Expr -> nat, callbacks: bool, path: Path, w: World<S>,
    e: Expr, roles: seq<Role>, bound: nat): (World<S>, Expr)
    requires Shrinks(v, measure) && ChildrenBelow(e, roles, measure, bound)
    decreases bound, 0, |roles|
  {
    if roles == [] then (w, e)
    else
      var (w1, c) := RewriteAt(v, measure, callbacks, path + [roles[0]],
        Announce(v, w, e, roles[0], callbacks), Get(e, roles[0]).value);
      RestBelow(e, roles, measure, bound, c);
      var e1 := Put(e, roles[0], c);
      RewriteChildren(v, measure, callbacks, path, Conclude(v, w1, e1, roles[0], callbacks), e1, roles[1..], bound)
  }

  lemma ArrivedSmaller<S(!new)>(v: Rewriter<S>, measure: Expr -> nat, path: Path, w: World<S>, e: Expr)
    requires Shrinks(v, measure)
    ensures var e1 := Arrive(v, path, w, e).1; ChildrenBelow(e1, Roles(e1), measure, measure(e))
  {
    RolesComplete(Arrive(v, path, w, e).1);
  }

  lemma RestBelow(e: Expr, roles: seq<Role>, measure: Expr -> nat, bound: nat, c: Expr)
    requires ChildrenBelow(e, roles, measure, bound) && roles != []
    ensures ChildrenBelow(Put(e, roles[0], c), roles[1..], measure, bound)
  {
    forall r | r in roles[1..]
      ensures Get(Put(e, roles[0], c), r).Some? && measure(Get(Put(e, roles[0], c), r).value) < bound
    {
      PutElsewhere(e, roles[0], c, r);
    }
  }

  // ---------- the stack machine ----------

  datatype Place =
    | ExprPlace(path: Path)
    | ArgPlace(path: Path, callingExpr: Path, callArg: int)
    | ComprehensionPlace(path: Path, comprehensionExpr: Path, part: Part)

  datatype PlaceRecord = PlaceRecord(place: Place, visited: bool)

  datatype Config<S> = Config(root: Expr, w: World<S>)

  /** The record pushed for the child in a role of the expression at `path`. */
  function ToPlace(path: Path, role: Role, callbacks: bool): PlaceRecord {
    var p := path + [role];
    PlaceRecord(
      match role
      case Target => ArgPlace(p, path, TARGET)
      case Arg(i) => ArgPlace(p, path, i)
      case Sub(part) => if callbacks then ComprehensionPlace(p, path, part) else ArgPlace(p, path, ArgNumber(part))
      case _ => ExprPlace(p),
      false)
  }

  /** The children pushed last to first. */
  function PushPlaces(stack: seq<PlaceRecord>, path: Path, roles: seq<Role>, callbacks: bool): seq<PlaceRecord>
    decreases |roles|
  {
    if roles == [] then stack else PushPlaces(stack, path, roles[1..], callbacks) + [ToPlace(path, roles[0], callbacks)]
  }

  /** The place of a record is in the tree, and a child's record names the child's parent. */
  ghost predicate Present(root: Expr, place: Place) {
    && At(root, place.path).Some?
    && (!place.ExprPlace? ==> place.path != [] && Owner(place) == place.path[..|place.path| - 1])
  }

  function Owner(place: Place): Path
    requires !place.ExprPlace?
  {
    if place.ArgPlace? then place.callingExpr else place.comprehensionExpr
  }

  lemma OwnerPresent(root: Expr, place: Place)
    requires Present(root, place) && !place.ExprPlace?
    ensures At(root, Owner(place)).Some?
  {
    var q := place.path[..|place.path| - 1];
    assert place.path == q + [place.path[|place.path| - 1]];
    AtExtended(root, q, place.path[|place.path| - 1]);
  }

  function PlaceBefore(place: Place, owner: Expr): seq<Event>
    requires !place.ExprPlace?
  {
    match place
    case ArgPlace(_, _, _) => []
    case ComprehensionPlace(_, _, part) => [PreVisitComprehensionSubexpression(owner, part)]
  }

  function PlaceAfter(place: Place, owner: Expr): seq<Event>
    requires !place.ExprPlace?
  {
    match place
    case ArgPlace(_, _, n) => if n == TARGET then [PostVisitTarget(owner)] else [PostVisitArg(owner, n)]
    case ComprehensionPlace(_, _, part) => [PostVisitComprehensionSubexpression(owner, part)]
  }

  /** The world once the visitor has been told some events in a turn. */
  function Turned<S>(v: Rewriter<S>, w: World<S>, events: seq<Event>): World<S> {
    World(Tell(v, w.state, events), w.rewritten, w.turns + 1)
  }

  // What remains to be done for a record, as a whole.

  ghost function FinishExpr<S(!new)>(
      v: Rewriter<S>, measure: Expr -> nat, callbacks: bool, c: Config<S>, path: Path): Config<S>
    requires Shrinks(v, measure) && At(c.root, path).Some?
  {
    var (w, e) := RewriteAt(v, measure, callbacks, path, c.w, At(c.root, path).value);
    Config(Replace(c.root, path, e), w)
  }

  function DepartAt<S>(v: Rewriter<S>, c: Config<S>, path: Path): Config<S>
    requires At(c.root, path).Some?
  {
    var (w, e) := Depart(v, path, c.w, At(c.root, path).value);
    Config(Replace(c.root, path, e), w)
  }

  ghost function FinishOther<S(!new)>(
      v: Rewriter<S>, measure: Expr -> nat, callbacks: bool, c: Config<S>, place: Place): Config<S>
    requires Shrinks(v, measure) && Present(c.root, place) && !place.ExprPlace?
  {
    OwnerPresent(c.root, place);
    var w1 := Turned(v, c.w, PlaceBefore(place, At(c.root, Owner(place)).value));
    var c2 := FinishExpr(v, measure, callbacks, Config(c.root, w1), place.path);
    AtReplace(c.root, place.path, RewriteAt(v, measure, callbacks, place.path, w1, At(c.root, place.path).value).1);
    OwnerPresent(c2.root, place);
    Config(c2.root, Turned(v, c2.w, PlaceAfter(place, At(c2.root, Owner(place)).value)))
  }

  ghost function Finish<S(!new)>(
      v: Rewriter<S>, measure: Expr -> nat, callbacks: bool, c: Config<S>, r: PlaceRecord): Config<S>
    requires Shrinks(v, measure)
  {
    if !Present(c.root, r.place) then c
    else if r.place.ExprPlace? then
      if r.visited then DepartAt(v, c, r.place.path) else FinishExpr(v, measure, callbacks, c, r.place.path)
    else if r.visited then
      OwnerPresent(c.root, r.place);
      Config(c.root, Turned(v, c.w, PlaceAfter(r.place, At(c.root, Owner(r.place)).value)))
    else FinishOther(v, measure, callbacks, c, r.place)
  }

  /** Where the loop ends up from a configuration and a stack. */
  ghost function FinishAll<S(!new)>(
      v: Rewriter<S>, measure: Expr -> nat, callbacks: bool, c: Config<S>, stack: seq<PlaceRecord>):
    Config<S>
    requires Shrinks(v, measure)
    decreases |stack|
  {
    if stack == [] then c
    else FinishAll(v, measure, callbacks, Finish(v, measure, callbacks, c, stack[|stack| - 1]), stack[..|stack| - 1])
  }

  /** Finishing a child's record is the child's part of the recursive rewriting. */
  lemma FinishChild<S(!new)>(
      v: Rewriter<S>, measure: Expr -> nat, callbacks: bool, c: Config<S>, path: Path, e: Expr, role: Role)
    requires Shrinks(v, measure) && At(c.root, path) == Some(e) && Get(e, role).Some?
    ensures
      var (w1, x) := RewriteAt(v, measure, callbacks, path + [role],
        Announce(v, c.w, e, role, callbacks), Get(e, role).value);
      var e1 := Put(e, role, x);
      Finish(v, measure, callbacks, c, ToPlace(path, role, callbacks))
      == Config(Replace(c.root, path, e1), Conclude(v, w1, e1, role, callbacks))
  {
    hide Tell;
    hide RewriteAt;
    hide Replace;
    hide At;
    hide Get;
    hide Put;
    var p := path + [role];
    AtExtended(c.root, path, role);
    assert p[..|p| - 1] == path;
    var (w1, x) := RewriteAt(v, measure, callbacks, p, Announce(v, c.w, e, role, callbacks), Get(e, role).value);
    ReplaceExtended(c.root, path, role, x);
    AtReplace(c.root, path, Put(e, role, x));
  }

  lemma {:induction false} FinishChildren<S(!new)>(v: Rewriter<S>, measure: Expr -> nat, callbacks: bool, c: Config<S>,
    path: Path, e: Expr, roles: seq<Role>, bound: nat, below: seq<PlaceRecord>)
    requires Shrinks(v, measure) && At(c.root, path) == Some(e) && ChildrenBelow(e, roles, measure, bound)
    ensures
      var (w, e2) := RewriteChildren(v, measure, callbacks, path, c.w, e, roles, bound);
      FinishAll(v, measure, callbacks, c, PushPlaces(below, path, roles, callbacks))
      == FinishAll(v, measure, callbacks, Config(Replace(c.root, path, e2), w), below)
    decreases |roles|
  {
    if roles == [] {
      ReplaceSame(c.root, path);
    } else {
      var role := roles[0];
      var rest := PushPlaces(below, path, roles[1..], callbacks);
      assert (rest + [ToPlace(path, role, callbacks)])[..|rest|] == rest;
      FinishChild(v, measure, callbacks, c, path, e, role);
      var (w1, x) := RewriteAt(v, measure, callbacks, path + [role],
        Announce(v, c.w, e, role, callbacks), Get(e, role).value);
      var e1 := Put(e, role, x);
      var c1 := Config(Replace(c.root, path, e1), Conclude(v, w1, e1, role, callbacks));
      RestBelow(e, roles, measure, bound, x);
      AtReplace(c.root, path, e1);
      FinishChildren(v, measure, callbacks, c1, path, e1, roles[1..], bound, below);
      ReplaceTwice(c.root, path, e1, RewriteChildren(v, measure, callbacks, path, c1.w, e1, roles[1..], bound).1);
    }
  }

  // ---------- one turn ----------

  /** Arriving at an expression turns its record into its children's, its own waiting below them. */
  lemma ArriveTurn<S(!new)>(
      v: Rewriter<S>, measure: Expr -> nat, callbacks: bool, c: Config<S>, path: Path, below: seq<PlaceRecord>)
    requires Shrinks(v, measure) && At(c.root, path).Some?
    ensures
      var (w, e) := Arrive(v, path, c.w, At(c.root, path).value);
      FinishAll(v, measure, callbacks, c, below + [PlaceRecord(ExprPlace(path), false)])
      == FinishAll(v, measure, callbacks, Config(Replace(c.root, path, e), w),
           PushPlaces(below + [PlaceRecord(ExprPlace(path), true)], path, Roles(e), callbacks))
  {
    var e0 := At(c.root, path).value;
    var (w, e) := Arrive(v, path, c.w, e0);
    var root1 := Replace(c.root, path, e);
    var marked := below + [PlaceRecord(ExprPlace(path), true)];
    ArrivedSmaller(v, measure, path, c.w, e0);
    AtReplace(c.root, path, e);
    FinishChildren(v, measure, callbacks, Config(root1, w), path, e, Roles(e), measure(e0), marked);
    var (w2, e2) := RewriteChildren(v, measure, callbacks, path, w, e, Roles(e), measure(e0));
    AtReplace(root1, path, e2);
    ReplaceTwice(c.root, path, e, e2);
    ReplaceTwice(c.root, path, e2, Depart(v, path, w2, e2).1);
    assert marked[..|below|] == below;
    assert (below + [PlaceRecord(ExprPlace(path), false)])[..|below|] == below;
    hide Arrive;
    hide Depart;
    hide RewriteChildren;
    hide Replace;
    hide At;
    hide PushPlaces;
  }

  /** The record of an argument or a field gives way to its expression's, itself waiting below. */
  lemma OtherTurn<S(!new)>(
      v: Rewriter<S>, measure: Expr -> nat, callbacks: bool, c: Config<S>, place: Place, below: seq<PlaceRecord>)
    requires Shrinks(v, measure) && Present(c.root, place) && !place.ExprPlace? && At(c.root, Owner(place)).Some?
    ensures
      var w := Turned(v, c.w, PlaceBefore(place, At(c.root, Owner(place)).value));
      FinishAll(v, measure, callbacks, c, below + [PlaceRecord(place, false)])
      == FinishAll(v, measure, callbacks, Config(c.root, w),
           below + [PlaceRecord(place, true)] + [PlaceRecord(ExprPlace(place.path), false)])
  {
    var w := Turned(v, c.w, PlaceBefore(place, At(c.root, Owner(place)).value));
    var marked := below + [PlaceRecord(place, true)];
    var pushed := marked + [PlaceRecord(ExprPlace(place.path), false)];
    AtReplace(c.root, place.path, RewriteAt(v, measure, callbacks, place.path, w, At(c.root, place.path).value).1);
    assert pushed[..|marked|] == marked && marked[..|below|] == below;
    assert (below + [PlaceRecord(place, false)])[..|below|] == below;
    hide RewriteAt;
    hide Replace;
    hide At;
    hide Turned;
    hide PlaceBefore;
    hide PlaceAfter;
  }

  /** All places on the stack are in the tree, and no record hides a place below its own deeper in the stack. */
  ghost predicate Valid(root: Expr, stack: seq<PlaceRecord>) {
    && (forall i | 0 <= i < |stack| :: Present(root, stack[i].place))
    && forall i, j | 0 <= i < j < |stack| :: !Below(stack[j].place.path, stack[i].place.path)
  }

  lemma ValidBelow(root: Expr, stack: seq<PlaceRecord>, path: Path, x: Expr)
    requires Valid(root, stack) && At(root, path).Some?
    requires forall i | 0 <= i < |stack| :: !Below(path, stack[i].place.path)
    ensures Valid(Replace(root, path, x), stack)
  {
    forall i | 0 <= i < |stack| ensures Present(Replace(root, path, x), stack[i].place) {
      assert Present(root, stack[i].place);
      ReplaceKeeps(root, path, x, stack[i].place.path);
    }
  }

  lemma {:induction false} ValidPushed(
      root: Expr, stack: seq<PlaceRecord>, path: Path, e: Expr, roles: seq<Role>, callbacks: bool)
    requires Valid(root, stack) && At(root, path) == Some(e) && Filled(e, roles)
    requires forall i | 0 <= i < |stack| :: !Below(path, stack[i].place.path)
    ensures
      var pushed := PushPlaces(stack, path, roles, callbacks);
      && Valid(root, pushed) && |pushed| >= |stack| && pushed[..|stack|] == stack
      && forall i | |stack| <= i < |pushed| :: |pushed[i].place.path| == |path| + 1
    decreases |roles|
  {
    hide At;
    hide Present;
    hide ToPlace;
    if roles != [] {
      ValidPushed(root, stack, path, e, roles[1..], callbacks);
      var rest := PushPlaces(stack, path, roles[1..], callbacks);
      ChildPresent(root, path, e, roles[0], callbacks);
      forall i | 0 <= i < |rest| ensures !Below(path + [roles[0]], rest[i].place.path) {
        if i < |stack| {
          assert rest[i] == stack[i];
          NotBelowEither(path, roles[0], stack[i].place.path);
        }
      }
      assert (rest + [ToPlace(path, roles[0], callbacks)])[..|stack|] == rest[..|stack|];
    }
  }

  lemma ChildPresent(root: Expr, path: Path, e: Expr, role: Role, callbacks: bool)
    requires At(root, path) == Some(e) && Get(e, role).Some?
    ensures Present(root, ToPlace(path, role, callbacks).place)
    ensures ToPlace(path, role, callbacks).place.path == path + [role]
  {
    var p := path + [role];
    AtExtended(root, path, role);
    assert p[..|p| - 1] == path;
  }

  lemma NotBelowEither(path: Path, role: Role, q: Path)
    requires !Below(path, q)
    ensures !Below(path + [role], q)
  {
    assert path + [role] <= q ==> path <= q;
  }

  // ---------- turns ----------

  lemma {:induction false} TurnsGrowAt<S(!new)>(
      v: Rewriter<S>, measure: Expr -> nat, callbacks: bool, path: Path, w: World<S>, e: Expr)
    requires Shrinks(v, measure)
    ensures RewriteAt(v, measure, callbacks, path, w, e).0.turns >= w.turns + 2
    decreases measure(e), 1, 0
  {
    var (w1, e1) := Arrive(v, path, w, e);
    ArrivedSmaller(v, measure, path, w, e);
    TurnsGrowIn(v, measure, callbacks, path, w1, e1, Roles(e1), measure(e));
  }

  lemma {:induction false} TurnsGrowIn<S(!new)>(
      v: Rewriter<S>, measure: Expr -> nat, callbacks: bool, path: Path, w: World<S>,
    e: Expr, roles: seq<Role>, bound: nat)
    requires Shrinks(v, measure) && ChildrenBelow(e, roles, measure, bound)
    ensures RewriteChildren(v, measure, callbacks, path, w, e, roles, bound).0.turns >= w.turns
    decreases bound, 0, |roles|
  {
    if roles != [] {
      var w0 := Announce(v, w, e, roles[0], callbacks);
      TurnsGrowAt(v, measure, callbacks, path + [roles[0]], w0, Get(e, roles[0]).value);
      var (w1, c) := RewriteAt(v, measure, callbacks, path + [roles[0]], w0, Get(e, roles[0]).value);
      RestBelow(e, roles, measure, bound, c);
      var e1 := Put(e, roles[0], c);
      TurnsGrowIn(v, measure, callbacks, path, Conclude(v, w1, e1, roles[0], callbacks), e1, roles[1..], bound);
    }
  }

  lemma {:induction false} TurnsGrow<S(!new)>(
      v: Rewriter<S>, measure: Expr -> nat, callbacks: bool, c: Config<S>, stack: seq<PlaceRecord>)
    requires Shrinks(v, measure)
    ensures FinishAll(v, measure, callbacks, c, stack).w.turns >= c.w.turns
    decreases |stack|
  {
    if stack != [] {
      var top := stack[|stack| - 1];
      if Present(c.root, top.place) && !top.visited {
        var path := top.place.path;
        if top.place.ExprPlace? {
          TurnsGrowAt(v, measure, callbacks, path, c.w, At(c.root, path).value);
        } else {
          OwnerPresent(c.root, top.place);
          var w := Turned(v, c.w, PlaceBefore(top.place, At(c.root, Owner(top.place)).value));
          TurnsGrowAt(v, measure, callbacks, path, w, At(c.root, path).value);
        }
      }
      TurnsGrow(v, measure, callbacks, Finish(v, measure, callbacks, c, top), stack[..|stack| - 1]);
    }
  }

  // ---------- the code ----------

  lemma TellOne<S>(v: Rewriter<S>, s: S, event: Event)
    ensures Tell(v, s, [event]) == v.on(s, Callback(event))
  {
    assert [event][1..] == [];
  }

  lemma TellTwo<S>(v: Rewriter<S>, s: S, a: Event, b: Event)
    ensures Tell(v, s, [a] + [b]) == v.on(v.on(s, Callback(a)), Callback(b))
  {
    assert ([a] + [b])[1..] == [b];
    TellOne(v, v.on(s, Callback(a)), b);
  }

  /** PreVisit on the record of an expression. */
  method PreVisit<S>(visitor: Rewriter<S>, state: S, e: Expr) returns (after: S)
    ensures after == Tell(visitor, state, Before(e))
  {
    hide Tell;
    after := visitor.on(state, Callback(PreVisitExpr(e)));
    match e.kind {
      case Select(_, _, _) =>
        after := visitor.on(after, Callback(PreVisitSelect(e)));
        TellTwo(visitor, state, PreVisitExpr(e), PreVisitSelect(e));
      case Call(_, _, _) =>
        after := visitor.on(after, Callback(PreVisitCall(e)));
        TellTwo(visitor, state, PreVisitExpr(e), PreVisitCall(e));
      case Comprehension(_, _, _, _, _, _, _, _) =>
        after := visitor.on(after, Callback(PreVisitComprehension(e)));
        TellTwo(visitor, state, PreVisitExpr(e), PreVisitComprehension(e));
      case _ =>
        TellOne(visitor, state, PreVisitExpr(e));
        assert Before(e) == [PreVisitExpr(e)];
    }
  }

  /** PostVisit on the record of an expression: what its kind calls for, then PostVisitExpr. */
  method PostVisit<S>(visitor: Rewriter<S>, state: S, e: Expr) returns (after: S)
    ensures after == Tell(visitor, state, After(e))
  {
    hide Tell;
    after := PostVisitKind(visitor, state, e);
    after := visitor.on(after, Callback(PostVisitExpr(e)));
    if e.kind.Unspecified? {
      TellOne(visitor, state, PostVisitExpr(e));
      assert After(e) == [PostVisitExpr(e)];
    } else {
      TellTwo(visitor, state, After(e)[0], PostVisitExpr(e));
      assert After(e) == [After(e)[0]] + [PostVisitExpr(e)];
    }
  }

  method PostVisitKind<S>(visitor: Rewriter<S>, state: S, e: Expr) returns (after: S)
    ensures after == if e.kind.Unspecified? then state else visitor.on(state, Callback(After(e)[0]))
  {
    match e.kind {
      case Const(_) => after := visitor.on(state, Callback(PostVisitConst(e)));
      case Ident(_) => after := visitor.on(state, Callback(PostVisitIdent(e)));
      case Select(_, _, _) => after := visitor.on(state, Callback(PostVisitSelect(e)));
      case Call(_, _, _) => after := visitor.on(state, Callback(PostVisitCall(e)));
      case List(_) => after := visitor.on(state, Callback(PostVisitList(e)));
      case Struct(_, _) => after := visitor.on(state, Callback(PostVisitStruct(e)));
      case Map(_) => after := visitor.on(state, Callback(PostVisitMap(e)));
      case Comprehension(_, _, _, _, _, _, _, _) => after := visitor.on(state, Callback(PostVisitComprehension(e)));
      case Unspecified => after := state;
    }
  }

  /** PreVisit on the record of a child: only a comprehension's is announced. */
  method PreVisitChild<S>(visitor: Rewriter<S>, state: S, place: Place, owner: Expr) returns (after: S)
    requires !place.ExprPlace?
    ensures after == Tell(visitor, state, PlaceBefore(place, owner))
  {
    after := state;
    if place.ComprehensionPlace? {
      after := visitor.on(after, Callback(PreVisitComprehensionSubexpression(owner, place.part)));
      TellOne(visitor, state, PreVisitComprehensionSubexpression(owner, place.part));
    }
  }

  /** PostVisit on the record of a child. */
  method PostVisitChild<S>(visitor: Rewriter<S>, state: S, place: Place, owner: Expr) returns (after: S)
    requires !place.ExprPlace?
    ensures after == Tell(visitor, state, PlaceAfter(place, owner))
  {
    TellOne(visitor, state, PlaceAfter(place, owner)[0]);
    match place {
      case ArgPlace(_, _, n) =>
        if n == TARGET {
          after := visitor.on(state, Callback(PostVisitTarget(owner)));
        } else {
          after := visitor.on(state, Callback(PostVisitArg(owner, n)));
        }
      case ComprehensionPlace(_, _, part) =>
        after := visitor.on(state, Callback(PostVisitComprehensionSubexpression(owner, part)));
    }
  }

  method PushSelectDeps(path: Path, e: Expr, stack: seq<PlaceRecord>, ghost callbacks: bool)
    returns (pushed: seq<PlaceRecord>)
    requires e.kind.Select?
    ensures pushed == PushPlaces(stack, path, Roles(e), callbacks)
  {
    pushed := stack;
    if e.kind.operand.Some? {
      pushed := pushed + [PlaceRecord(ExprPlace(path + [Operand]), false)];
    }
  }

  method PushCallDeps(path: Path, e: Expr, stack: seq<PlaceRecord>, ghost callbacks: bool)
    returns (pushed: seq<PlaceRecord>)
    requires e.kind.Call?
    ensures pushed == PushPlaces(stack, path, Roles(e), callbacks)
  {
    ghost var roles := seq(|e.kind.args|, i requires 0 <= i => Arg(i));
    pushed := stack;
    var i := |e.kind.args|;
    while i > 0
      invariant 0 <= i <= |e.kind.args|
      invariant pushed == PushPlaces(stack, path, roles[i..], callbacks)
    {
      i := i - 1;
      assert roles[i..][0] == Arg(i) && roles[i..][1..] == roles[i + 1..];
      pushed := pushed + [PlaceRecord(ArgPlace(path + [Arg(i)], path, i), false)];
    }
    assert roles[0..] == roles;
    if e.kind.target.Some? {
      assert Roles(e) == [Target] + roles && Roles(e)[1..] == roles;
      pushed := pushed + [PlaceRecord(ArgPlace(path + [Target], path, TARGET), false)];
    } else {
      assert Roles(e) == roles;
    }
  }

  method PushListDeps(path: Path, e: Expr, stack: seq<PlaceRecord>, ghost callbacks: bool)
    returns (pushed: seq<PlaceRecord>)
    requires e.kind.List?
    ensures pushed == PushPlaces(stack, path, Roles(e), callbacks)
  {
    ghost var roles := Roles(e);
    pushed := stack;
    var i := |e.kind.elements|;
    while i > 0
      invariant 0 <= i <= |e.kind.elements|
      invariant pushed == PushPlaces(stack, path, roles[i..], callbacks)
    {
      i := i - 1;
      assert roles[i..][0] == Elem(i) && roles[i..][1..] == roles[i + 1..];
      pushed := pushed + [PlaceRecord(ExprPlace(path + [Elem(i)]), false)];
    }
    assert roles[0..] == roles;
  }

  method PushStructDeps(path: Path, e: Expr, stack: seq<PlaceRecord>, ghost callbacks: bool)
    returns (pushed: seq<PlaceRecord>)
    requires e.kind.Struct?
    ensures pushed == PushPlaces(stack, path, Roles(e), callbacks)
  {
    var fields := e.kind.fields;
    pushed := stack;
    var i := |fields|;
    while i > 0
      invariant 0 <= i <= |fields|
      invariant pushed == PushPlaces(stack, path, FieldRoles(fields, i), callbacks)
    {
      i := i - 1;
      assert [] + FieldRoles(fields, i + 1) == FieldRoles(fields, i + 1);
      if fields[i].value.Some? {
        PushFirst(stack, path, FieldValue(i), FieldRoles(fields, i + 1), callbacks);
        pushed := pushed + [PlaceRecord(ExprPlace(path + [FieldValue(i)]), false)];
      }
    }
  }

  method PushMapDeps(path: Path, e: Expr, stack: seq<PlaceRecord>, ghost callbacks: bool)
    returns (pushed: seq<PlaceRecord>)
    requires e.kind.Map?
    ensures pushed == PushPlaces(stack, path, Roles(e), callbacks)
  {
    hide PushPlaces;
    hide ToPlace;
    var entries := e.kind.entries;
    pushed := stack;
    var i := |entries|;
    PushNone(stack, path, callbacks);
    while i > 0
      invariant 0 <= i <= |entries|
      invariant pushed == PushPlaces(stack, path, EntryRoles(entries, i), callbacks)
    {
      i := i - 1;
      EntrySplit(entries, i);
      ghost var rest := EntryRoles(entries, i + 1);
      ghost var value := if entries[i].value.Some? then [EntryValue(i)] else [];
      PushFirst(stack, path, EntryValue(i), rest, callbacks);
      PushFirst(stack, path, EntryKey(i), value + rest, callbacks);
      assert [] + rest == rest && [] + (value + rest) == value + rest;
      if entries[i].value.Some? {
        pushed := pushed + [PlaceRecord(ExprPlace(path + [EntryValue(i)]), false)];
      }
      if entries[i].key.Some? {
        pushed := pushed + [PlaceRecord(ExprPlace(path + [EntryKey(i)]), false)];
      }
    }
  }

  lemma PushNone(stack: seq<PlaceRecord>, path: Path, callbacks: bool)
    ensures PushPlaces(stack, path, [], callbacks) == stack
  {
  }

  lemma PushFirst(stack: seq<PlaceRecord>, path: Path, role: Role, rest: seq<Role>, callbacks: bool)
    requires !Wrapped(role)
    ensures
      PushPlaces(stack, path, [role] + rest, callbacks)
      == PushPlaces(stack, path, rest, callbacks) + [PlaceRecord(ExprPlace(path + [role]), false)]
  {
    assert ([role] + rest)[1..] == rest;
  }

  /** The record for a part of a comprehension, of the kind that the option asks for. */
  function PartPlace(path: Path, part: Part, callbacks: bool): PlaceRecord {
    var p := path + [Sub(part)];
    PlaceRecord(if callbacks then ComprehensionPlace(p, path, part) else ArgPlace(p, path, ArgNumber(part)), false)
  }

  method PushComprehensionDeps(path: Path, e: Expr, stack: seq<PlaceRecord>, callbacks: bool)
    returns (pushed: seq<PlaceRecord>)
    requires e.kind.Comprehension?
    ensures pushed == PushPlaces(stack, path, Roles(e), callbacks)
  {
    pushed := stack + [PartPlace(path, Result, callbacks)];
    assert pushed == PushPlaces(stack, path, [Sub(Result)], callbacks);
    pushed := pushed + [PartPlace(path, LoopStep, callbacks)];
    assert pushed == PushPlaces(stack, path, [Sub(LoopStep), Sub(Result)], callbacks);
    pushed := pushed + [PartPlace(path, LoopCondition, callbacks)];
    assert pushed == PushPlaces(stack, path, [Sub(LoopCondition), Sub(LoopStep), Sub(Result)], callbacks);
    pushed := pushed + [PartPlace(path, AccuInit, callbacks)];
    assert pushed
        == PushPlaces(stack, path, [Sub(AccuInit), Sub(LoopCondition), Sub(LoopStep), Sub(Result)], callbacks);
    pushed := pushed + [PartPlace(path, IterRange, callbacks)];
  }

  method PushDependencies(path: Path, e: Expr, stack: seq<PlaceRecord>, callbacks: bool)
    returns (pushed: seq<PlaceRecord>)
    ensures pushed == PushPlaces(stack, path, Roles(e), callbacks)
  {
    match e.kind {
      case Select(_, _, _) => pushed := PushSelectDeps(path, e, stack, callbacks);
      case Call(_, _, _) => pushed := PushCallDeps(path, e, stack, callbacks);
      case List(_) => pushed := PushListDeps(path, e, stack, callbacks);
      case Struct(_, _) => pushed := PushStructDeps(path, e, stack, callbacks);
      case Map(_) => pushed := PushMapDeps(path, e, stack, callbacks);
      case Comprehension(_, _, _, _, _, _, _, _) => pushed := PushComprehensionDeps(path, e, stack, callbacks);
      case _ => pushed := stack;
    }
  }

  lemma {:induction false} PushPlacesAppends(stack: seq<PlaceRecord>, path: Path, roles: seq<Role>, callbacks: bool)
    ensures PushPlaces(stack, path, roles, callbacks) == stack + PushPlaces([], path, roles, callbacks)
    decreases |roles|
  {
    if roles != [] {
      PushPlacesAppends(stack, path, roles[1..], callbacks);
    }
  }

  lemma PushThenMark(
      below: seq<PlaceRecord>, r: PlaceRecord, marked: PlaceRecord, path: Path, roles: seq<Role>, callbacks: bool)
    ensures var pushed := PushPlaces(below + [r], path, roles, callbacks);
      |pushed| > |below| && pushed[|below| := marked] == PushPlaces(below + [marked], path, roles, callbacks)
  {
    PushPlacesAppends(below + [r], path, roles, callbacks);
    PushPlacesAppends(below + [marked], path, roles, callbacks);
  }

  /** The expressions entered and not yet left, bottom to top. */
  ghost function Entered(stack: seq<PlaceRecord>): seq<Path>
    decreases |stack|
  {
    if stack == [] then []
    else
      var top := stack[|stack| - 1];
      Entered(stack[..|stack| - 1]) + if top.visited && top.place.ExprPlace? then [top.place.path] else []
  }

  /** Whatever is on top of a record, the way to the record's place is what was entered below it. */
  ghost predicate OnTheWay(stack: seq<PlaceRecord>) {
    forall i | 0 <= i < |stack| :: WayBelow(stack, i)
  }

  ghost predicate WayBelow(stack: seq<PlaceRecord>, i: nat)
    requires i < |stack|
  {
    Entered(stack[..i]) == Way(stack[i].place.path)[..|stack[i].place.path|]
  }

  lemma WayPush(stack: seq<PlaceRecord>, r: PlaceRecord)
    requires OnTheWay(stack) && Entered(stack) == Way(r.place.path)[..|r.place.path|]
    ensures OnTheWay(stack + [r])
    ensures Entered(stack + [r]) == Entered(stack) + if r.visited && r.place.ExprPlace? then [r.place.path] else []
  {
    var pushed := stack + [r];
    assert pushed[..|stack|] == stack;
    forall i | 0 <= i < |pushed| ensures WayBelow(pushed, i) {
      if i < |stack| {
        assert WayBelow(stack, i) && pushed[..i] == stack[..i];
      }
    }
  }

  lemma WayPop(stack: seq<PlaceRecord>)
    requires stack != [] && OnTheWay(stack)
    ensures
      var below, p := stack[..|stack| - 1], stack[|stack| - 1].place.path;
      OnTheWay(below) && Entered(below) == Way(p)[..|p|]
  {
    var below := stack[..|stack| - 1];
    assert WayBelow(stack, |stack| - 1);
    forall i | 0 <= i < |below| ensures WayBelow(below, i) {
      assert WayBelow(stack, i) && below[..i] == stack[..i];
    }
  }

  lemma {:induction false} WayPushAll(stack: seq<PlaceRecord>, path: Path, roles: seq<Role>, callbacks: bool)
    requires OnTheWay(stack) && Entered(stack) == Way(path)
    ensures
      var pushed := PushPlaces(stack, path, roles, callbacks);
      OnTheWay(pushed) && Entered(pushed) == Way(path)
    decreases |roles|
  {
    if roles != [] {
      WayPushAll(stack, path, roles[1..], callbacks);
      WayExtended(path, roles[0]);
      var p := path + [roles[0]];
      assert Way(p)[..|p|] == Way(path);
      WayPush(PushPlaces(stack, path, roles[1..], callbacks), ToPlace(path, roles[0], callbacks));
    }
  }

  lemma WayWhole(path: Path)
    ensures Way(path)[..|path|] + [path] == Way(path)
  {
    assert path[..|path|] == path;
  }

  /** What the loop keeps: the stack is sound and the way is that of the expressions entered. */
  ghost predicate Sound(root: Expr, stack: seq<PlaceRecord>, way: seq<Path>) {
    Valid(root, stack) && OnTheWay(stack) && way == Entered(stack)
  }

  lemma ArriveSound(root: Expr, below: seq<PlaceRecord>, path: Path, e: Expr, callbacks: bool)
    requires Sound(root, below + [PlaceRecord(ExprPlace(path), false)], Entered(below))
    ensures At(root, path).Some? && Entered(below) + [path] == Way(path)
    ensures Sound(Replace(root, path, e),
      PushPlaces(below + [PlaceRecord(ExprPlace(path), true)], path, Roles(e), callbacks), Way(path))
  {
    var stack := below + [PlaceRecord(ExprPlace(path), false)];
    var marked := below + [PlaceRecord(ExprPlace(path), true)];
    assert stack[|below|].place.path == path && stack[..|below|] == below;
    assert Present(root, stack[|below|].place);
    WayPop(stack);
    WayWhole(path);
    WayPush(below, PlaceRecord(ExprPlace(path), true));
    WayPushAll(marked, path, Roles(e), callbacks);
    forall i | 0 <= i < |marked| ensures Present(root, marked[i].place) && !Below(path, marked[i].place.path) {
      assert Present(root, stack[i].place) && (i < |below| ==> stack[i] == marked[i]);
    }
    assert forall i, j | 0 <= i < j < |marked| ::
      marked[i].place == stack[i].place && marked[j].place == stack[j].place;
    assert Valid(root, marked);
    ValidBelow(root, marked, path, e);
    AtReplace(root, path, e);
    RolesFilled(e);
    ValidPushed(Replace(root, path, e), marked, path, e, Roles(e), callbacks);
  }

  lemma OtherSound(root: Expr, below: seq<PlaceRecord>, place: Place)
    requires Sound(root, below + [PlaceRecord(place, false)], Entered(below)) && !place.ExprPlace?
    ensures Present(root, place)
    ensures
      Sound(root, below + [PlaceRecord(place, true)] + [PlaceRecord(ExprPlace(place.path), false)], Entered(below))
  {
    var stack := below + [PlaceRecord(place, false)];
    var marked := below + [PlaceRecord(place, true)];
    var pushed := marked + [PlaceRecord(ExprPlace(place.path), false)];
    assert stack[|below|].place == place && stack[..|below|] == below;
    assert Present(root, stack[|below|].place);
    WayPop(stack);
    WayPush(below, PlaceRecord(place, true));
    WayPush(marked, PlaceRecord(ExprPlace(place.path), false));
    forall i | 0 <= i < |pushed| ensures Present(root, pushed[i].place) {
      if i < |below| {
        assert Present(root, stack[i].place);
      }
    }
    forall i, j | 0 <= i < j < |pushed| ensures !Below(pushed[j].place.path, pushed[i].place.path) {
      if i < |below| {
        assert pushed[i] == stack[i] && (j < |below| ==> pushed[j] == stack[j]);
        assert !Below(stack[|below|].place.path, stack[i].place.path);
      }
    }
  }

  lemma PopSound(root: Expr, stack: seq<PlaceRecord>, x: Expr)
    requires stack != [] && Sound(root, stack, Entered(stack))
    ensures
      var below, place := stack[..|stack| - 1], stack[|stack| - 1].place;
      && Present(root, place) && Sound(root, below, Entered(below))
        && Sound(Replace(root, place.path, x), below, Entered(below))
      && Entered(below) == Way(place.path)[..|place.path|]
  {
    var below, place := stack[..|stack| - 1], stack[|stack| - 1].place;
    assert Present(root, place);
    WayPop(stack);
    forall i | 0 <= i < |below| ensures Present(root, below[i].place) && !Below(place.path, below[i].place.path) {
      assert Present(root, stack[i].place);
    }
    assert Valid(root, below);
    ValidBelow(root, below, place.path, x);
  }

  /** One turn of the loop. */
  method Turn<S(!new)>(visitor: Rewriter<S>, callbacks: bool, expr0: Expr, state0: S, rewritten0: bool,
      stack0: seq<PlaceRecord>, way0: seq<Path>, ghost measure: Expr -> nat, ghost w0: World<S>)
    returns (expr: Expr, state: S, rewritten: bool, stack: seq<PlaceRecord>, way: seq<Path>, ghost w: World<S>)
    requires Shrinks(visitor, measure) && stack0 != [] && Sound(expr0, stack0, way0)
    requires w0.state == state0 && w0.rewritten == rewritten0
    ensures Sound(expr, stack, way) && w == World(state, rewritten, w0.turns + 1)
    ensures FinishAll(visitor, measure, callbacks, Config(expr, w), stack)
         == FinishAll(visitor, measure, callbacks, Config(expr0, w0), stack0)
  {
    hide Valid;
    hide OnTheWay;
    hide At;
    hide Replace;
    hide PushPlaces;
    hide RewriteAt;
    hide Tell;
    hide Before;
    hide After;
    hide FinishOther;
    hide FinishExpr;
    hide Way;
    expr, state, rewritten, stack, way := expr0, state0, rewritten0, stack0, way0;
    var top := |stack| - 1;
    var record := stack[top];
    var below := stack[..top];
    assert stack == below + [record];
    PopSound(expr, stack, DEFAULT);
    if !record.visited {
      if record.place.ExprPlace? {
        var path := record.place.path;
        var found := At(expr, path).value;
        ghost var arrived := Arrive(visitor, path, w0, found);
        ArriveSound(expr, below, path, arrived.1, callbacks);
        ArriveTurn(visitor, measure, callbacks, Config(expr, w0), path, below);
        way := way + [path];
        state := visitor.on(state, TraversalStackUpdate(way));
        var pre := visitor.preVisitRewrite(state, found);
        expr := Replace(expr, path, pre.expr);
        if pre.rewritten {
          rewritten := true;
        }
        state := PreVisit(visitor, pre.state, pre.expr);
        PushThenMark(below, record, PlaceRecord(ExprPlace(path), true), path, Roles(pre.expr), callbacks);
        stack := PushDependencies(path, pre.expr, stack, callbacks);
        stack := stack[top := PlaceRecord(ExprPlace(path), true)];
      } else {
        OtherSound(expr, below, record.place);
        OwnerPresent(expr, record.place);
        OtherTurn(visitor, measure, callbacks, Config(expr, w0), record.place, below);
        state := PreVisitChild(visitor, state, record.place, At(expr, Owner(record.place)).value);
        stack := stack + [PlaceRecord(ExprPlace(record.place.path), false)];
        stack := stack[top := PlaceRecord(record.place, true)];
        assert stack == below + [PlaceRecord(record.place, true)] + [PlaceRecord(ExprPlace(record.place.path), false)];
      }
    } else {
      if record.place.ExprPlace? {
        var path := record.place.path;
        var found := At(expr, path).value;
        state := PostVisit(visitor, state, found);
        var post := visitor.postVisitRewrite(state, found);
        PopSound(expr, stack, post.expr);
        expr := Replace(expr, path, post.expr);
        if post.rewritten {
          rewritten := true;
        }
        way := way[..|way| - 1];
        state := visitor.on(post.state, TraversalStackUpdate(way));
      } else {
        OwnerPresent(expr, record.place);
        state := PostVisitChild(visitor, state, record.place, At(expr, Owner(record.place)).value);
      }
      stack := below;
    }
    w := World(state, rewritten, w0.turns + 1);
  }

  lemma StartSound(root: Expr)
    ensures Sound(root, [PlaceRecord(ExprPlace([]), false)], [])
  {
    var r := PlaceRecord(ExprPlace([]), false);
    WayPush([], r);
    assert [] + [r] == [r];
  }

  lemma FinishStart<S(!new)>(v: Rewriter<S>, measure: Expr -> nat, callbacks: bool, c: Config<S>)
    requires Shrinks(v, measure)
    ensures
      var (w, e) := RewriteAt(v, measure, callbacks, [], c.w, c.root);
      FinishAll(v, measure, callbacks, c, [PlaceRecord(ExprPlace([]), false)]) == Config(e, w)
  {
    var r := PlaceRecord(ExprPlace([]), false);
    assert [r][..0] == [];
  }

  /**
   * AstRewrite leaves the tree, the visitor and its answer as the recursive rewriting does, for every visitor
   * that does not grow the tree for ever.
   */
  method AstRewrite<S(!new)>(root: Expr, visitor: Rewriter<S>, state: S, callbacks: bool, ghost measure: Expr -> nat)
    returns (expr: Expr, after: S, rewritten: bool)
    requires Shrinks(visitor, measure)
    ensures var (w, e) := RewriteAt(visitor, measure, callbacks, [], World(state, false, 0), root);
      expr == e && after == w.state && rewritten == w.rewritten
  {
    hide Sound;
    hide Shrinks;
    hide RewriteAt;
    hide Finish;
    var stack := [PlaceRecord(ExprPlace([]), false)];
    var way: seq<Path> := [];
    ghost var w := World(state, false, 0);
    ghost var final := FinishAll(visitor, measure, callbacks, Config(root, w), stack);
    expr, after, rewritten := root, state, false;
    StartSound(root);
    FinishStart(visitor, measure, callbacks, Config(root, w));
    TurnsGrow(visitor, measure, callbacks, Config(root, w), stack);
    while stack != []
      invariant Sound(expr, stack, way)
      invariant FinishAll(visitor, measure, callbacks, Config(expr, w), stack) == final
      invariant w.state == after && w.rewritten == rewritten && w.turns <= final.w.turns
      decreases final.w.turns - w.turns
    {
      expr, after, rewritten, stack, way, w := Turn(visitor, callbacks, expr, after, rewritten, stack, way, measure, w);
      TurnsGrow(visitor, measure, callbacks, Config(expr, w), stack);
    }
  }

  // ---------- visitors that never rewrite ----------

  ghost predicate NeverRewrites<S(!new)>(v: Rewriter<S>) {
    forall s, e ::
      var pre, post := v.preVisitRewrite(s, e), v.postVisitRewrite(s, e);
      !pre.rewritten && pre.expr == e && !post.rewritten && post.expr == e
  }

  lemma NonRewritersShrink<S(!new)>(v: Rewriter<S>)
    requires NeverRewrites(v)
    ensures Shrinks(v, (e: Expr) => Size(e))
  {
    forall s, e, r | Get(v.preVisitRewrite(s, e).expr, r).Some?
      ensures Size(Get(v.preVisitRewrite(s, e).expr, r).value) < Size(e)
    {
      ChildIsSmaller(e, r);
    }
  }

  /** A call to the visitor. */
  datatype Call = Told(notice: Notice) | PreRewrite(e: Expr) | PostRewrite(e: Expr)

  function Once<S>(v: Rewriter<S>, s: S, call: Call): S {
    match call
    case Told(notice) => v.on(s, notice)
    case PreRewrite(e) => v.preVisitRewrite(s, e).state
    case PostRewrite(e) => v.postVisitRewrite(s, e).state
  }

  function Feed<S>(v: Rewriter<S>, s: S, calls: seq<Call>): S
    decreases |calls|
  {
    if calls == [] then s else Feed(v, Once(v, s, calls[0]), calls[1..])
  }

  lemma FeedPair<S>(v: Rewriter<S>, s: S, a: Call, b: Call)
    ensures Feed(v, s, [a, b]) == Once(v, Once(v, s, a), b)
  {
    assert [a, b][1..] == [b] && [b][1..] == [];
    var t := Once(v, s, a);
    assert Feed(v, t, [b]) == Feed(v, Once(v, t, b), []);
  }

  function Callbacks(events: seq<Event>): (calls: seq<Call>)
    ensures |calls| == |events| && forall i | 0 <= i < |calls| :: calls[i] == Told(Callback(events[i]))
  {
    seq(|events|, i requires 0 <= i < |events| => Told(Callback(events[i])))
  }

  /** The calls of a traversal: those of AstTraverse, and at each expression the way to it and the rewrites offered. */
  ghost function Calls(path: Path, e: Expr, callbacks: bool): seq<Call>
    decreases e, 1, 0
  {
    RolesFilled(e);
    [Told(TraversalStackUpdate(Way(path))), PreRewrite(e)] + Callbacks(Before(e))
    + CallsOfChildren(path, e, Roles(e), callbacks)
    + Callbacks(After(e)) + [PostRewrite(e), Told(TraversalStackUpdate(Way(path)[..|path|]))]
  }

  ghost function CallsOfChildren(path: Path, e: Expr, roles: seq<Role>, callbacks: bool): seq<Call>
    requires Filled(e, roles)
    decreases e, 0, |roles|
  {
    if roles == [] then []
    else
      Callbacks(BeforeChild(e, roles[0], callbacks)) + Calls(path + [roles[0]], Get(e, roles[0]).value, callbacks)
      + Callbacks(AfterChild(e, roles[0], callbacks)) + CallsOfChildren(path, e, roles[1..], callbacks)
  }

  lemma {:induction false} FeedTwice<S>(v: Rewriter<S>, s: S, a: seq<Call>, b: seq<Call>)
    ensures Feed(v, s, a + b) == Feed(v, Feed(v, s, a), b)
    decreases |a|
  {
    if a == [] {
      assert a + b == b;
    } else {
      assert (a + b)[0] == a[0] && (a + b)[1..] == a[1..] + b;
      FeedTwice(v, Once(v, s, a[0]), a[1..], b);
    }
  }

  lemma {:induction false} FeedIsTell<S>(v: Rewriter<S>, s: S, events: seq<Event>)
    ensures Feed(v, s, Callbacks(events)) == Tell(v, s, events)
    decreases |events|
  {
    if events != [] {
      assert Callbacks(events)[1..] == Callbacks(events[1..]);
      FeedIsTell(v, v.on(s, Callback(events[0])), events[1..]);
    }
  }

  lemma FeedArrive<S(!new)>(v: Rewriter<S>, path: Path, w: World<S>, e: Expr)
    requires NeverRewrites(v)
    ensures
      var (w1, e1) := Arrive(v, path, w, e);
      && e1 == e && w1.rewritten == w.rewritten
      && w1.state == Feed(v, w.state, [Told(TraversalStackUpdate(Way(path))), PreRewrite(e)] + Callbacks(Before(e)))
  {
    var first := [Told(TraversalStackUpdate(Way(path))), PreRewrite(e)];
    FeedPair(v, w.state, first[0], first[1]);
    FeedTwice(v, w.state, first, Callbacks(Before(e)));
    FeedIsTell(v, Feed(v, w.state, first), Before(e));
  }

  lemma FeedDepart<S(!new)>(v: Rewriter<S>, path: Path, w: World<S>, e: Expr)
    requires NeverRewrites(v)
    ensures
      var (w1, e1) := Depart(v, path, w, e);
      && e1 == e && w1.rewritten == w.rewritten
      && w1.state == Feed(v, w.state, Callbacks(After(e))
        + [PostRewrite(e), Told(TraversalStackUpdate(Way(path)[..|path|]))])
  {
    var last := [PostRewrite(e), Told(TraversalStackUpdate(Way(path)[..|path|]))];
    FeedPair(v, Tell(v, w.state, After(e)), last[0], last[1]);
    FeedTwice(v, w.state, Callbacks(After(e)), last);
    FeedIsTell(v, w.state, After(e));
  }

  /** Such a visitor gets the calls of the traversal; nothing is rewritten and the tree stays. */
  lemma {:induction false} FeedRewriteAt<S(!new)>(
      v: Rewriter<S>, measure: Expr -> nat, callbacks: bool, path: Path, w: World<S>, e: Expr)
    requires NeverRewrites(v) && Shrinks(v, measure)
    ensures
      var (w1, e1) := RewriteAt(v, measure, callbacks, path, w, e);
      e1 == e && w1.rewritten == w.rewritten && w1.state == Feed(v, w.state, Calls(path, e, callbacks))
    decreases e, 1, 0
  {
    ArrivedSmaller(v, measure, path, w, e);
    RolesFilled(e);
    FeedArrive(v, path, w, e);
    var (w1, e1) := Arrive(v, path, w, e);
    FeedRewriteChildren(v, measure, callbacks, path, w1, e, Roles(e), measure(e));
    var (w2, e2) := RewriteChildren(v, measure, callbacks, path, w1, e, Roles(e), measure(e));
    FeedDepart(v, path, w2, e);
    var a := [Told(TraversalStackUpdate(Way(path))), PreRewrite(e)] + Callbacks(Before(e));
    var b := CallsOfChildren(path, e, Roles(e), callbacks);
    var c := Callbacks(After(e)) + [PostRewrite(e), Told(TraversalStackUpdate(Way(path)[..|path|]))];
    FeedTwice(v, w.state, a, b);
    FeedTwice(v, w.state, a + b, c);
    assert Calls(path, e, callbacks) == a + b + c;
  }

  lemma {:induction false} FeedRewriteChildren<S(!new)>(
      v: Rewriter<S>, measure: Expr -> nat, callbacks: bool, path: Path, w: World<S>,
    e: Expr, roles: seq<Role>, bound: nat)
    requires NeverRewrites(v) && Shrinks(v, measure) && ChildrenBelow(e, roles, measure, bound) && Filled(e, roles)
    ensures
      var (w1, e1) := RewriteChildren(v, measure, callbacks, path, w, e, roles, bound);
      e1 == e && w1.rewritten == w.rewritten && w1.state == Feed(v, w.state, CallsOfChildren(path, e, roles, callbacks))
    decreases e, 0, |roles|
  {
    if roles != [] {
      var role, c := roles[0], Get(e, roles[0]).value;
      var p := path + [role];
      var w0 := Announce(v, w, e, role, callbacks);
      FeedIsTell(v, w.state, BeforeChild(e, role, callbacks));
      FeedRewriteAt(v, measure, callbacks, p, w0, c);
      var (w1, c1) := RewriteAt(v, measure, callbacks, p, w0, c);
      GetPut(e, role);
      RestBelow(e, roles, measure, bound, c);
      FeedIsTell(v, w1.state, AfterChild(e, role, callbacks));
      FeedRewriteChildren(v, measure, callbacks, path, Conclude(v, w1, e, role, callbacks), e, roles[1..], bound);
      var a, b := Callbacks(BeforeChild(e, role, callbacks)), Calls(p, c, callbacks);
      var d, rest := Callbacks(AfterChild(e, role, callbacks)), CallsOfChildren(path, e, roles[1..], callbacks);
      FeedTwice(v, w.state, a, b);
      FeedTwice(v, w.state, a + b, d);
      FeedTwice(v, w.state, a + b + d, rest);
    }
  }

  /** The callbacks among the calls. */
  function EventsOf(calls: seq<Call>): seq<Event>
    decreases |calls|
  {
    if calls == [] then []
    else (if calls[0].Told? && calls[0].notice.Callback? then [calls[0].notice.event] else []) + EventsOf(calls[1..])
  }

  lemma {:induction false} EventsOfTwo(a: seq<Call>, b: seq<Call>)
    ensures EventsOf(a + b) == EventsOf(a) + EventsOf(b)
    decreases |a|
  {
    if a == [] {
      assert a + b == b;
    } else {
      assert (a + b)[0] == a[0] && (a + b)[1..] == a[1..] + b;
      EventsOfTwo(a[1..], b);
    }
  }

  lemma NoEventsInPair(a: Call, b: Call)
    requires (a.Told? ==> !a.notice.Callback?) && (b.Told? ==> !b.notice.Callback?)
    ensures EventsOf([a, b]) == []
  {
    assert [a, b][1..] == [b] && [b][1..] == [];
    assert EventsOf([b]) == EventsOf([]);
  }

  lemma {:induction false} EventsOfCallbacks(events: seq<Event>)
    ensures EventsOf(Callbacks(events)) == events
    decreases |events|
  {
    if events != [] {
      assert Callbacks(events)[1..] == Callbacks(events[1..]);
      EventsOfCallbacks(events[1..]);
    }
  }

  /** They are the callbacks of AstTraverse. */
  lemma {:induction false} SameCallbacksAsTraverse(path: Path, e: Expr, callbacks: bool)
    ensures EventsOf(Calls(path, e, callbacks)) == Trace(e, callbacks)
    decreases e, 1, 0
  {
    hide EventsOf;
    hide Get;
    hide Roles;
    hide Before;
    hide After;
    RolesFilled(e);
    SameInChildren(path, e, Roles(e), callbacks);
    var first, last :=
      [Told(TraversalStackUpdate(Way(path))), PreRewrite(e)],
      [PostRewrite(e), Told(TraversalStackUpdate(Way(path)[..|path|]))];
    var b := CallsOfChildren(path, e, Roles(e), callbacks);
    NoEventsInPair(first[0], first[1]);
    NoEventsInPair(last[0], last[1]);
    EventsOfCallbacks(Before(e));
    EventsOfCallbacks(After(e));
    EventsOfFive(first, Callbacks(Before(e)), b, Callbacks(After(e)), last);
  }

  lemma EventsOfFive(a: seq<Call>, b: seq<Call>, c: seq<Call>, d: seq<Call>, e: seq<Call>)
    ensures EventsOf(a + b + c + d + e) == EventsOf(a) + EventsOf(b) + EventsOf(c) + EventsOf(d) + EventsOf(e)
  {
    EventsOfTwo(a, b);
    EventsOfTwo(a + b, c);
    EventsOfTwo(a + b + c, d);
    EventsOfTwo(a + b + c + d, e);
  }

  lemma {:induction false} SameInChildren(path: Path, e: Expr, roles: seq<Role>, callbacks: bool)
    requires Filled(e, roles)
    ensures EventsOf(CallsOfChildren(path, e, roles, callbacks)) == TraceChildren(e, roles, callbacks)
    decreases e, 0, |roles|
  {
    if roles != [] {
      var role, c := roles[0], Get(e, roles[0]).value;
      SameCallbacksAsTraverse(path + [role], c, callbacks);
      SameInChildren(path, e, roles[1..], callbacks);
      var a, b := Callbacks(BeforeChild(e, role, callbacks)), Calls(path + [role], c, callbacks);
      var d, rest := Callbacks(AfterChild(e, role, callbacks)), CallsOfChildren(path, e, roles[1..], callbacks);
      EventsOfCallbacks(BeforeChild(e, role, callbacks));
      EventsOfCallbacks(AfterChild(e, role, callbacks));
      EventsOfTwo(a, b);
      EventsOfTwo(a + b, d);
      EventsOfTwo(a + b + d, rest);
    }
  }

  /** AstRewrite with such a visitor: false, the same tree, and the calls of the traversal. */
  method RewriteNothing<S(!new)>(root: Expr, visitor: Rewriter<S>, state: S, callbacks: bool)
    returns (expr: Expr, after: S, rewritten: bool)
    requires NeverRewrites(visitor)
    ensures expr == root && !rewritten && after == Feed(visitor, state, Calls([], root, callbacks))
  {
    NonRewritersShrink(visitor);
    ghost var measure := (e: Expr) => Size(e);
    FeedRewriteAt(visitor, measure, callbacks, [], World(state, false, 0), root);
    expr, after, rewritten := AstRewrite(root, visitor, state, callbacks, measure);
  }

  /** Wherever a rewrite is offered, the visitor has just been told the way from the root to that expression. */
  ghost predicate WayTold(root: Expr, calls: seq<Call>) {
    forall k | 0 <= k < |calls| :: WayToldAt(root, calls, k)
  }

  ghost predicate WayToldAt(root: Expr, calls: seq<Call>, k: nat)
    requires k < |calls|
  {
    calls[k].PreRewrite? ==>
      && k > 0 && calls[k - 1].Told? && calls[k - 1].notice.TraversalStackUpdate?
      && var way := calls[k - 1].notice.path;
      way != [] && way == Way(way[|way| - 1]) && At(root, way[|way| - 1]) == Some(calls[k].e)
  }

  lemma WayToldJoin(root: Expr, a: seq<Call>, b: seq<Call>)
    requires WayTold(root, a) && WayTold(root, b)
    ensures WayTold(root, a + b)
  {
    forall k | 0 <= k < |a + b| ensures WayToldAt(root, a + b, k) {
      if k < |a| {
        assert WayToldAt(root, a, k);
      } else {
        assert WayToldAt(root, b, k - |a|);
        assert k > |a| ==> (a + b)[k - 1] == b[k - 1 - |a|];
      }
    }
  }

  lemma {:induction false} WayIsTold(root: Expr, path: Path, e: Expr, callbacks: bool)
    requires At(root, path) == Some(e)
    ensures WayTold(root, Calls(path, e, callbacks))
    decreases e, 1, 0
  {
    RolesFilled(e);
    WayIsToldInChildren(root, path, e, Roles(e), callbacks);
    var first, last :=
      [Told(TraversalStackUpdate(Way(path))), PreRewrite(e)],
      [PostRewrite(e), Told(TraversalStackUpdate(Way(path)[..|path|]))];
    var b := CallsOfChildren(path, e, Roles(e), callbacks);
    assert path[..|path|] == path;
    WayToldJoin(root, first, Callbacks(Before(e)));
    WayToldJoin(root, first + Callbacks(Before(e)), b);
    WayToldJoin(root, first + Callbacks(Before(e)) + b, Callbacks(After(e)));
    WayToldJoin(root, first + Callbacks(Before(e)) + b + Callbacks(After(e)), last);
    assert Calls(path, e, callbacks) == first + Callbacks(Before(e)) + b + Callbacks(After(e)) + last;
  }

  lemma {:induction false} WayIsToldInChildren(root: Expr, path: Path, e: Expr, roles: seq<Role>, callbacks: bool)
    requires At(root, path) == Some(e) && Filled(e, roles)
    ensures WayTold(root, CallsOfChildren(path, e, roles, callbacks))
    decreases e, 0, |roles|
  {
    if roles != [] {
      var role, c := roles[0], Get(e, roles[0]).value;
      AtExtended(root, path, role);
      WayIsTold(root, path + [role], c, callbacks);
      WayIsToldInChildren(root, path, e, roles[1..], callbacks);
      var a, b := Callbacks(BeforeChild(e, role, callbacks)), Calls(path + [role], c, callbacks);
      var d, rest := Callbacks(AfterChild(e, role, callbacks)), CallsOfChildren(path, e, roles[1..], callbacks);
      WayToldJoin(root, a, b);
      WayToldJoin(root, a + b, d);
      WayToldJoin(root, a + b + d, rest);
    }
  }
}
