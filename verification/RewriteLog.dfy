/**
 * What a rewriting visitor lives through (common/ast_rewrite.cc:350-387), whatever it answers: every visitor can be
 * made to keep a log of its calls, and the log alone tells the traversal and the tree that is left.
 */
module RewriteLog {
  import opened Results
  import opened Exprs
  import opened TreePaths
  import opened Traversals
  import opened Rewriting

  /** A call: a notice, or a rewrite that was offered before or after the visit, with what the visitor answered. */
  datatype LogEntry =
    | Heard(notice: Notice)
    | Offered(before: bool, offered: Expr, answer: Expr, said: bool)

  datatype Logged<S> = Logged(state: S, log: seq<LogEntry>)

  /** The same visitor, keeping a log of its calls. */
  function Logging<S(!new)>(v: Rewriter<S>): Rewriter<Logged<S>> {
    Rewriter(
      (s: Logged<S>, notice: Notice) => Logged(v.on(s.state, notice), s.log + [Heard(notice)]),
      (s: Logged<S>, e: Expr) =>
        var pre := v.preVisitRewrite(s.state, e);
        Outcome(Logged(pre.state, s.log + [Offered(true, e, pre.expr, pre.rewritten)]), pre.rewritten, pre.expr),
      (s: Logged<S>, e: Expr) =>
        var post := v.postVisitRewrite(s.state, e);
        Outcome(Logged(post.state, s.log + [Offered(false, e, post.expr, post.rewritten)]), post.rewritten, post.expr))
  }

  // ---------- reading a log ----------

  /**
   * Where a tour of a tree stands: the tree by now, the way last told, the places still to be visited under each place
   * on the way, and the callbacks that must come next.
   */
  datatype Tour = Tour(tree: Expr, way: seq<Path>, todo: seq<seq<Path>>, due: seq<Event>)

  function Places(path: Path, roles: seq<Role>): seq<Path> {
    if roles == [] then [] else [path + [roles[0]]] + Places(path, roles[1..])
  }

  function LastRole(path: Path): Role
    requires path != []
  {
    path[|path| - 1]
  }

  /** What the visitor is told before the next child, or, if there is none, before it leaves. */
  function Next(x: Expr, rest: seq<Path>, callbacks: bool): seq<Event> {
    if rest == [] then After(x) else if rest[0] == [] then [] else BeforeChild(x, LastRole(rest[0]), callbacks)
  }

  /** What it is told on its return to `way` from a child. */
  function OnReturn(tree: Expr, way: seq<Path>, child: Path, rest: seq<Path>, callbacks: bool): seq<Event> {
    if way == [] || child == [] then []
    else
      var x := At(tree, way[|way| - 1]);
      if x.None? then [] else AfterChild(x.value, LastRole(child), callbacks) + Next(x.value, rest, callbacks)
  }

  /**
   * The tour after one more call, if that is a call that may come: a step to the first place still to be visited, or
   * back; a callback that is due; a rewrite of the expression that stands at the place, once on arrival and once when
   * all its children have been visited.
   */
  function Follow(t: Tour, entry: LogEntry, callbacks: bool): Option<Tour> {
    if t.todo == [] then None
    else
      var top := t.todo[|t.todo| - 1];
      match entry
      case Heard(Callback(event)) =>
        if t.due != [] && event == t.due[0] then Some(t.(due := t.due[1..])) else None
      case Heard(TraversalStackUpdate(way)) =>
        if t.due != [] then None
        else if |t.todo| == |t.way| + 1 && top != [] && way == t.way + [top[0]] then Some(t.(way := way))
        else if |t.todo| == |t.way| && t.way != [] && way == t.way[..|t.way| - 1] then
          var place := t.way[|t.way| - 1];
          if top != [] && top[0] == place then None
          else Some(t.(way := way, due := OnReturn(t.tree, way, place, top, callbacks)))
        else None
      case Offered(before, offered, answer, _) =>
        if t.due != [] || t.way == [] || At(t.tree, t.way[|t.way| - 1]) != Some(offered) then None
        else
          var place := t.way[|t.way| - 1];
          var tree := Replace(t.tree, place, answer);
          if before then
            if |t.todo| != |t.way| || top == [] || top[0] != place then None
            else
              var children := Places(place, Roles(answer));
              Some(Tour(tree, t.way, t.todo[..|t.todo| - 1] + [top[1..], children],
                Before(answer) + Next(answer, children, callbacks)))
          else if |t.todo| != |t.way| + 1 || top != [] then None
          else Some(Tour(tree, t.way, t.todo[..|t.todo| - 1], []))
  }

  function FollowAll(t: Tour, log: seq<LogEntry>, callbacks: bool): Option<Tour>
    decreases |log|
  {
    if log == [] then Some(t)
    else
      var next := Follow(t, log[0], callbacks);
      if next.None? then None else FollowAll(next.value, log[1..], callbacks)
  }

  predicate SaidSo(log: seq<LogEntry>) {
    exists i :: 0 <= i < |log| && log[i].Offered? && log[i].said
  }

  lemma {:induction false} FollowTwice(t: Tour, a: seq<LogEntry>, b: seq<LogEntry>, callbacks: bool)
    ensures FollowAll(t, a + b, callbacks)
         == if FollowAll(t, a, callbacks).None? then None else FollowAll(FollowAll(t, a, callbacks).value, b, callbacks)
    decreases |a|
  {
    hide Follow;
    if a == [] {
      assert a + b == b;
    } else {
      assert (a + b)[0] == a[0] && (a + b)[1..] == a[1..] + b;
      if Follow(t, a[0], callbacks).Some? {
        FollowTwice(Follow(t, a[0], callbacks).value, a[1..], b, callbacks);
      }
    }
  }

  lemma FollowOne(t: Tour, entry: LogEntry, callbacks: bool)
    ensures FollowAll(t, [entry], callbacks) == Follow(t, entry, callbacks)
  {
    hide Follow;
    assert [entry][1..] == [];
  }

  // ---------- what the recursive rewriting writes into the log ----------

  /** From one world to the other the log grew by a part of the tour; the answer turned true if that part says so. */
  ghost predicate Toured<S>(w0: World<Logged<S>>, t0: Tour, w1: World<Logged<S>>, t1: Tour, callbacks: bool) {
    && w0.state.log <= w1.state.log
    && var part := w1.state.log[|w0.state.log|..];
    && FollowAll(t0, part, callbacks) == Some(t1)
    && (w1.rewritten <==> w0.rewritten || SaidSo(part))
  }

  lemma TouredTwice<S>(w0: World<Logged<S>>, t0: Tour, w1: World<Logged<S>>, t1: Tour, w2: World<Logged<S>>, t2: Tour,
      callbacks: bool)
    requires Toured(w0, t0, w1, t1, callbacks) && Toured(w1, t1, w2, t2, callbacks)
    ensures Toured(w0, t0, w2, t2, callbacks)
  {
    hide FollowAll;
    var a, b := w1.state.log[|w0.state.log|..], w2.state.log[|w1.state.log|..];
    assert w2.state.log[|w0.state.log|..] == a + b;
    FollowTwice(t0, a, b, callbacks);
    SaidInTwo(a, b);
  }

  lemma SaidInTwo(a: seq<LogEntry>, b: seq<LogEntry>)
    ensures SaidSo(a + b) <==> SaidSo(a) || SaidSo(b)
  {
    if SaidSo(a) {
      var i :| 0 <= i < |a| && a[i].Offered? && a[i].said;
      assert (a + b)[i] == a[i];
    }
    if SaidSo(b) {
      var i :| 0 <= i < |b| && b[i].Offered? && b[i].said;
      assert (a + b)[|a| + i] == b[i];
    }
  }

  lemma TouredNowhere<S>(w: World<Logged<S>>, w1: World<Logged<S>>, t: Tour, callbacks: bool)
    requires w1.state == w.state && w1.rewritten == w.rewritten
    ensures Toured(w, t, w1, t, callbacks)
  {
    assert w.state.log[|w.state.log|..] == [];
  }

  /** One call. */
  lemma TouredOne<S>(w0: World<Logged<S>>, t0: Tour, w1: World<Logged<S>>, entry: LogEntry, callbacks: bool)
    requires w1.state.log == w0.state.log + [entry] && Follow(t0, entry, callbacks).Some?
    requires w1.rewritten <==> w0.rewritten || (entry.Offered? && entry.said)
    ensures Toured(w0, t0, w1, Follow(t0, entry, callbacks).value, callbacks)
  {
    hide Follow;
    assert w1.state.log[|w0.state.log|..] == [entry];
    FollowOne(t0, entry, callbacks);
    assert [entry][0] == entry;
  }

  /** Callbacks that are due. */
  lemma {:induction false} TouredTell<S(!new)>(
      v: Rewriter<S>, w: World<Logged<S>>, events: seq<Event>, rest: seq<Event>, t: Tour, callbacks: bool)
    requires t.due == events + rest && t.todo != []
    ensures forall turns ::
      Toured(w, t, World(Tell(Logging(v), w.state, events), w.rewritten, turns), t.(due := rest), callbacks)
    decreases |events|
  {
    if events == [] {
      assert events + rest == rest;
      forall turns {
        TouredNowhere(w, World(w.state, w.rewritten, turns), t, callbacks);
      }
    } else {
      var entry := Heard(Callback(events[0]));
      var w1 := World(Logging(v).on(w.state, Callback(events[0])), w.rewritten, w.turns);
      var t1 := t.(due := t.due[1..]);
      assert Follow(t, entry, callbacks) == Some(t1);
      TouredOne(w, t, w1, entry, callbacks);
      assert t.due[1..] == events[1..] + rest;
      TouredTell(v, w1, events[1..], rest, t1, callbacks);
      forall turns ensures
        Toured(w, t, World(Tell(Logging(v), w.state, events), w.rewritten, turns), t.(due := rest), callbacks)
      {
        TouredTwice(w, t, w1, t1, World(Tell(Logging(v), w1.state, events[1..]), w.rewritten, turns), t.(due := rest),
          callbacks);
      }
    }
  }

  /** The tour has come to the place: it is the next one to be visited, and the expression stands there. */
  ghost predicate AtDoor(t: Tour, path: Path, e: Expr) {
    && t.way == Way(path)[..|path|] && |t.todo| == |path| + 1 && t.due == []
    && var top := t.todo[|path|];
    && top != [] && top[0] == path && (|top| > 1 ==> top[1] != path) && At(t.tree, path) == Some(e)
  }

  /** The tour inside a place where an expression was put on arrival. */
  ghost function Inside(t: Tour, path: Path, e: Expr, callbacks: bool): Tour
    requires |t.todo| == |path| + 1 && t.todo[|path|] != [] && At(t.tree, path).Some?
  {
    var children := Places(path, Roles(e));
    Tour(Replace(t.tree, path, e), Way(path), t.todo[..|path|] + [t.todo[|path|][1..], children],
      Next(e, children, callbacks))
  }

  /** The tour after a place where an expression was left. */
  ghost function Through(t: Tour, path: Path, e: Expr, callbacks: bool): Tour
    requires |t.todo| == |path| + 1 && t.todo[|path|] != [] && At(t.tree, path).Some?
  {
    var tree, rest := Replace(t.tree, path, e), t.todo[|path|][1..];
    Tour(tree, t.way, t.todo[..|path|] + [rest], OnReturn(tree, t.way, path, rest, callbacks))
  }

  lemma ArriveToured<S(!new)>(
      v: Rewriter<S>, path: Path, w: World<Logged<S>>, e: Expr, t: Tour, callbacks: bool)
    requires AtDoor(t, path, e)
    ensures
      var (w1, e1) := Arrive(Logging(v), path, w, e);
      Toured(w, t, w1, Inside(t, path, e1, callbacks), callbacks)
  {
    hide Toured;
    hide Next;
    hide Before;
    hide Roles;
    hide Get;
    hide Tell;
    hide FollowAll;
    var update := TraversalStackUpdate(Way(path));
    var wa := World(Logging(v).on(w.state, update), w.rewritten, w.turns);
    var ta := t.(way := Way(path));
    WayWhole(path);
    TouredOne(w, t, wa, Heard(update), callbacks);
    var pre := Logging(v).preVisitRewrite(wa.state, e);
    var wb := World(pre.state, w.rewritten || pre.rewritten, w.turns);
    var children := Places(path, Roles(pre.expr));
    var tb := Tour(Replace(t.tree, path, pre.expr), Way(path), t.todo[..|path|] + [t.todo[|path|][1..], children],
      Before(pre.expr) + Next(pre.expr, children, callbacks));
    assert path[..|path|] == path;
    TouredOne(wa, ta, wb, Offered(true, e, pre.expr, pre.rewritten), callbacks);
    TouredTwice(w, t, wa, ta, wb, tb, callbacks);
    TouredTell(v, wb, Before(pre.expr), Next(pre.expr, children, callbacks), tb, callbacks);
    var wc := World(Tell(Logging(v), wb.state, Before(pre.expr)), wb.rewritten, w.turns + 1);
    TouredTwice(w, t, wb, tb, wc, Inside(t, path, pre.expr, callbacks), callbacks);
  }

  lemma FollowLeaving(t: Tour, path: Path, e: Expr, answer: Expr, said: bool, callbacks: bool)
    requires t.way == Way(path) && |t.todo| == |path| + 2 && t.todo[|path| + 1] == []
    requires At(t.tree, path) == Some(e) && t.due == []
    ensures Follow(t, Offered(false, e, answer, said), callbacks)
         == Some(Tour(Replace(t.tree, path, answer), t.way, t.todo[..|path| + 1], []))
  {
    assert path[..|path|] == path;
  }

  lemma FollowBack(t: Tour, path: Path, rest: seq<Path>, callbacks: bool)
    requires t.way == Way(path) && |t.todo| == |path| + 1 && t.todo[|path|] == rest && t.due == []
    requires rest != [] ==> rest[0] != path
    ensures
      var way := Way(path)[..|path|];
      Follow(t, Heard(TraversalStackUpdate(way)), callbacks)
      == Some(Tour(t.tree, way, t.todo, OnReturn(t.tree, way, path, rest, callbacks)))
  {
    hide OnReturn;
    assert path[..|path|] == path;
  }

  lemma LeavingToured<S(!new)>(
      v: Rewriter<S>, path: Path, w: World<Logged<S>>, e: Expr, t: Tour, callbacks: bool)
    requires t.way == Way(path) && |t.todo| == |path| + 2 && t.todo[|path| + 1] == []
    requires At(t.tree, path) == Some(e) && t.due == []
    ensures
      var post := Logging(v).postVisitRewrite(w.state, e);
      Toured(w, t, World(post.state, w.rewritten || post.rewritten, w.turns),
        Tour(Replace(t.tree, path, post.expr), t.way, t.todo[..|path| + 1], []), callbacks)
  {
    hide Toured;
    hide Follow;
    hide Replace;
    hide At;
    var post := Logging(v).postVisitRewrite(w.state, e);
    FollowLeaving(t, path, e, post.expr, post.rewritten, callbacks);
    TouredOne(w, t, World(post.state, w.rewritten || post.rewritten, w.turns),
      Offered(false, e, post.expr, post.rewritten), callbacks);
  }

  lemma BackToured<S(!new)>(
      v: Rewriter<S>, path: Path, w: World<Logged<S>>, t: Tour, rest: seq<Path>, callbacks: bool)
    requires t.way == Way(path) && |t.todo| == |path| + 1 && t.todo[|path|] == rest && t.due == []
    requires rest != [] ==> rest[0] != path
    ensures
      var way := Way(path)[..|path|];
      forall turns :: Toured(w, t,
        World(Logging(v).on(w.state, TraversalStackUpdate(way)), w.rewritten, turns),
        Tour(t.tree, way, t.todo, OnReturn(t.tree, way, path, rest, callbacks)), callbacks)
  {
    hide Toured;
    hide Follow;
    hide OnReturn;
    hide Way;
    var way := Way(path)[..|path|];
    FollowBack(t, path, rest, callbacks);
    forall turns ensures Toured(w, t,
      World(Logging(v).on(w.state, TraversalStackUpdate(way)), w.rewritten, turns),
      Tour(t.tree, way, t.todo, OnReturn(t.tree, way, path, rest, callbacks)), callbacks)
    {
      TouredOne(w, t, World(Logging(v).on(w.state, TraversalStackUpdate(way)), w.rewritten, turns),
        Heard(TraversalStackUpdate(way)), callbacks);
    }
  }

  /** The callbacks that are due, and then the rewrite. */
  lemma FinishedToured<S(!new)>(
      v: Rewriter<S>, path: Path, w: World<Logged<S>>, e: Expr, t: Tour, callbacks: bool)
    requires t.way == Way(path) && |t.todo| == |path| + 2 && t.todo[|path| + 1] == []
    requires At(t.tree, path) == Some(e) && t.due == After(e)
    ensures
      var post := Logging(v).postVisitRewrite(Tell(Logging(v), w.state, After(e)), e);
      Toured(w, t, World(post.state, w.rewritten || post.rewritten, w.turns),
        Tour(Replace(t.tree, path, post.expr), t.way, t.todo[..|path| + 1], []), callbacks)
  {
    hide Toured;
    hide Replace;
    hide At;
    hide Way;
    hide After;
    hide Tell;
    hide Logging;
    var wa := World(Tell(Logging(v), w.state, After(e)), w.rewritten, w.turns);
    var ta := t.(due := []);
    assert After(e) + [] == After(e);
    TouredTell(v, w, After(e), [], t, callbacks);
    LeavingToured(v, path, wa, e, ta, callbacks);
    var post := Logging(v).postVisitRewrite(wa.state, e);
    TouredTwice(w, t, wa, ta, World(post.state, w.rewritten || post.rewritten, w.turns),
      Tour(Replace(t.tree, path, post.expr), t.way, t.todo[..|path| + 1], []), callbacks);
  }

  lemma DepartToured<S(!new)>(
      v: Rewriter<S>, path: Path, w: World<Logged<S>>, e: Expr, t: Tour, rest: seq<Path>, callbacks: bool)
    requires t.way == Way(path) && |t.todo| == |path| + 2 && t.todo[|path|] == rest && t.todo[|path| + 1] == []
    requires At(t.tree, path) == Some(e) && t.due == After(e) && (rest != [] ==> rest[0] != path)
    ensures
      var (w1, e1) := Depart(Logging(v), path, w, e);
      var tree, way := Replace(t.tree, path, e1), Way(path)[..|path|];
      Toured(w, t, w1,
        Tour(tree, way, t.todo[..|path| + 1], OnReturn(tree, way, path, rest, callbacks)), callbacks)
  {
    hide Toured;
    hide Replace;
    hide At;
    hide Way;
    hide OnReturn;
    hide After;
    hide Tell;
    hide Logging;
    FinishedToured(v, path, w, e, t, callbacks);
    var post := Logging(v).postVisitRewrite(Tell(Logging(v), w.state, After(e)), e);
    var wb := World(post.state, w.rewritten || post.rewritten, w.turns);
    var tb := Tour(Replace(t.tree, path, post.expr), t.way, t.todo[..|path| + 1], []);
    BackToured(v, path, wb, tb, rest, callbacks);
    var (wc, _) := Depart(Logging(v), path, w, e);
    var way := Way(path)[..|path|];
    TouredTwice(w, t, wb, tb, wc, Tour(tb.tree, way, tb.todo, OnReturn(tb.tree, way, path, rest, callbacks)), callbacks);
  }

  lemma LoggingShrinks<S(!new)>(v: Rewriter<S>, measure: Expr -> nat)
    requires Shrinks(v, measure)
    ensures Shrinks(Logging(v), measure)
  {
    forall s: Logged<S>, e, r | Get(Logging(v).preVisitRewrite(s, e).expr, r).Some?
      ensures measure(Get(Logging(v).preVisitRewrite(s, e).expr, r).value) < measure(e)
    {
      assert Logging(v).preVisitRewrite(s, e).expr == v.preVisitRewrite(s.state, e).expr;
    }
  }

  /** Whatever the visitor answers, what it lives through at a place is a tour through that place. */
  lemma {:induction false} RewriteAtToured<S(!new)>(
      v: Rewriter<S>, measure: Expr -> nat, callbacks: bool, path: Path, w: World<Logged<S>>, e: Expr, t: Tour)
    requires Shrinks(Logging(v), measure) && AtDoor(t, path, e)
    ensures
      var (w1, e1) := RewriteAt(Logging(v), measure, callbacks, path, w, e);
      Toured(w, t, w1, Through(t, path, e1, callbacks), callbacks)
    decreases measure(e), 1, 0
  {
    hide Toured;
    hide Shrinks;
    hide Arrive;
    hide Depart;
    hide Get;
    hide Roles;
    hide Next;
    hide OnReturn;
    hide Replace;
    hide At;
    var (w1, e1) := Arrive(Logging(v), path, w, e);
    var t1 := Inside(t, path, e1, callbacks);
    ArriveToured(v, path, w, e, t, callbacks);
    ArrivedSmaller(Logging(v), measure, path, w, e);
    AtReplace(t.tree, path, e1);
    ChildrenToured(v, measure, callbacks, path, w1, e1, Roles(e1), measure(e), t1);
    var (w2, e2) := RewriteChildren(Logging(v), measure, callbacks, path, w1, e1, Roles(e1), measure(e));
    var t2 := Tour(Replace(t1.tree, path, e2), t1.way, t1.todo[|path| + 1 := []], After(e2));
    AtReplace(t1.tree, path, e2);
    ReplaceTwice(t.tree, path, e1, e2);
    TouredTwice(w, t, w1, t1, w2, t2, callbacks);
    DepartToured(v, path, w2, e2, t2, t.todo[|path|][1..], callbacks);
    var (w3, e3) := Depart(Logging(v), path, w2, e2);
    ReplaceTwice(t.tree, path, e2, e3);
    assert t2.todo[..|path| + 1] == t.todo[..|path|] + [t.todo[|path|][1..]];
    TouredTwice(w, t, w2, t2, w3, Through(t, path, e3, callbacks), callbacks);
  }

  /** The tour is inside a place, with these children of the expression there still to be visited. */
  ghost predicate AtWork(t: Tour, path: Path, e: Expr, roles: seq<Role>, callbacks: bool) {
    && t.way == Way(path) && |t.todo| == |path| + 2 && t.todo[|path| + 1] == Places(path, roles)
    && At(t.tree, path) == Some(e) && t.due == Next(e, Places(path, roles), callbacks)
  }

  lemma {:induction false} ChildrenToured<S(!new)>(
      v: Rewriter<S>, measure: Expr -> nat, callbacks: bool, path: Path, w: World<Logged<S>>,
      e: Expr, roles: seq<Role>, bound: nat, t: Tour)
    requires Shrinks(Logging(v), measure) && ChildrenBelow(e, roles, measure, bound)
    requires AtWork(t, path, e, roles, callbacks)
    ensures
      var (w1, e1) := RewriteChildren(Logging(v), measure, callbacks, path, w, e, roles, bound);
      Toured(w, t, w1, Tour(Replace(t.tree, path, e1), t.way, t.todo[|path| + 1 := []], After(e1)), callbacks)
    decreases bound, 0, |roles|
  {
    hide Toured;
    hide Shrinks;
    hide RewriteAt;
    hide Get;
    hide Put;
    hide Replace;
    hide At;
    hide After;
    if roles == [] {
      ReplaceSame(t.tree, path);
      assert t.todo[|path| + 1 := []] == t.todo;
      TouredNowhere(w, w, t, callbacks);
    } else {
      var role, c := roles[0], Get(e, roles[0]).value;
      var p := path + [role];
      var w0 := Announce(Logging(v), w, e, role, callbacks);
      var t0 := t.(due := []);
      Announced(v, w, e, role, t, path, roles, callbacks);
      Opened(t0, path, e, roles);
      RewriteAtToured(v, measure, callbacks, p, w0, c, t0);
      var (w1, c1) := RewriteAt(Logging(v), measure, callbacks, p, w0, c);
      var e1 := Put(e, role, c1);
      var t1 := Through(t0, p, c1, callbacks);
      TouredTwice(w, t, w0, t0, w1, t1, callbacks);
      Returned(t0, path, e, roles, c1, callbacks);
      var w2 := Conclude(Logging(v), w1, e1, role, callbacks);
      var t2 := t1.(due := Next(e1, Places(path, roles[1..]), callbacks));
      Concluded(v, w1, e1, role, t1, path, roles[1..], callbacks);
      TouredTwice(w, t, w1, t1, w2, t2, callbacks);
      RestBelow(e, roles, measure, bound, c1);
      ChildrenToured(v, measure, callbacks, path, w2, e1, roles[1..], bound, t2);
      var (w3, e3) := RewriteChildren(Logging(v), measure, callbacks, path, w2, e1, roles[1..], bound);
      ReplaceTwice(t.tree, path, e1, e3);
      var t3 := Tour(Replace(t.tree, path, e3), t.way, t.todo[|path| + 1 := []], After(e3));
      assert t2.todo[|path| + 1 := []] == t3.todo;
      TouredTwice(w, t, w2, t2, w3, t3, callbacks);
      assert RewriteChildren(Logging(v), measure, callbacks, path, w, e, roles, bound) == (w3, e3);
    }
  }

  /** Before a child come the callbacks that announce it. */
  lemma Announced<S(!new)>(v: Rewriter<S>, w: World<Logged<S>>, e: Expr, role: Role, t: Tour, path: Path,
      roles: seq<Role>, callbacks: bool)
    requires roles != [] && role == roles[0] && AtWork(t, path, e, roles, callbacks)
    ensures Toured(w, t, Announce(Logging(v), w, e, role, callbacks), t.(due := []), callbacks)
  {
    hide Toured;
    var events := BeforeChild(e, role, callbacks);
    assert LastRole(path + [role]) == role;
    assert t.due == events && events + [] == events;
    if Wrapped(role) {
      TouredTell(v, w, events, [], t, callbacks);
    } else {
      TouredNowhere(w, w, t, callbacks);
    }
  }

  /** After it come those that conclude it, and what comes next is due. */
  lemma Concluded<S(!new)>(v: Rewriter<S>, w: World<Logged<S>>, e: Expr, role: Role, t: Tour, path: Path,
      rest: seq<Role>, callbacks: bool)
    requires t.todo != [] && t.due == AfterChild(e, role, callbacks) + Next(e, Places(path, rest), callbacks)
    ensures Toured(w, t, Conclude(Logging(v), w, e, role, callbacks),
      t.(due := Next(e, Places(path, rest), callbacks)), callbacks)
  {
    hide Toured;
    hide Next;
    if Wrapped(role) {
      TouredTell(v, w, AfterChild(e, role, callbacks), Next(e, Places(path, rest), callbacks), t, callbacks);
    } else {
      assert [] + Next(e, Places(path, rest), callbacks) == Next(e, Places(path, rest), callbacks);
      TouredNowhere(w, w, t, callbacks);
    }
  }

  /** The next child stands at the door. */
  lemma Opened(t: Tour, path: Path, e: Expr, roles: seq<Role>)
    requires t.way == Way(path) && |t.todo| == |path| + 2 && t.todo[|path| + 1] == Places(path, roles) && t.due == []
    requires At(t.tree, path) == Some(e) && roles != [] && Distinct(roles) && Get(e, roles[0]).Some?
    ensures AtDoor(t, path + [roles[0]], Get(e, roles[0]).value)
  {
    hide Get;
    var p := path + [roles[0]];
    AtExtended(t.tree, path, roles[0]);
    WayExtended(path, roles[0]);
    assert Way(p)[..|p|] == Way(path);
    if |roles| > 1 {
      assert Places(path, roles)[1] == path + [roles[1]] && roles[0] != roles[1];
      assert (path + [roles[1]])[|path|] == roles[1] && p[|path|] == roles[0];
    }
  }

  /** Past a child the tour is back at work on what the expression has become. */
  lemma Returned(t: Tour, path: Path, e: Expr, roles: seq<Role>, c: Expr, callbacks: bool)
    requires t.way == Way(path) && |t.todo| == |path| + 2 && t.todo[|path| + 1] == Places(path, roles)
    requires At(t.tree, path) == Some(e) && roles != [] && Get(e, roles[0]).Some?
    requires AtDoor(t, path + [roles[0]], Get(e, roles[0]).value)
    ensures
      var e1, t1 := Put(e, roles[0], c), Through(t, path + [roles[0]], c, callbacks);
      && t1.tree == Replace(t.tree, path, e1) && At(t1.tree, path) == Some(e1)
      && t1.way == t.way && t1.todo == t.todo[|path| + 1 := Places(path, roles[1..])]
      && t1.due == AfterChild(e1, roles[0], callbacks) + Next(e1, Places(path, roles[1..]), callbacks)
  {
    hide Get;
    hide Put;
    hide Next;
    hide AfterChild;
    var p, e1 := path + [roles[0]], Put(e, roles[0], c);
    ReplaceExtended(t.tree, path, roles[0], c);
    AtReplace(t.tree, path, e1);
    assert path[..|path|] == path && LastRole(p) == roles[0];
    assert Places(path, roles)[1..] == Places(path, roles[1..]);
  }

  // ---------- what a tour's log tells ----------

  /** The way last told. */
  function WayAfter(way: seq<Path>, log: seq<LogEntry>): seq<Path>
    decreases |log|
  {
    if log == [] then way
    else if log[0].Heard? && log[0].notice.TraversalStackUpdate? then WayAfter(log[0].notice.path, log[1..])
    else WayAfter(way, log[1..])
  }

  /** The tree with the logged answers put at their places, one after the other. */
  function PutAnswers(tree: Expr, way: seq<Path>, log: seq<LogEntry>): Expr
    decreases |log|
  {
    if log == [] then tree
    else
      match log[0]
      case Heard(TraversalStackUpdate(to)) => PutAnswers(tree, to, log[1..])
      case Heard(Callback(_)) => PutAnswers(tree, way, log[1..])
      case Offered(_, _, answer, _) =>
        if way == [] || At(tree, way[|way| - 1]).None? then tree
        else PutAnswers(Replace(tree, way[|way| - 1], answer), way, log[1..])
  }

  lemma {:induction false} TourIsPut(t: Tour, log: seq<LogEntry>, callbacks: bool)
    requires FollowAll(t, log, callbacks).Some?
    ensures
      var t1 := FollowAll(t, log, callbacks).value;
      t1.tree == PutAnswers(t.tree, t.way, log) && t1.way == WayAfter(t.way, log)
    decreases |log|
  {
    hide At;
    hide Replace;
    hide OnReturn;
    hide Next;
    hide Before;
    hide Roles;
    if log != [] {
      TourIsPut(Follow(t, log[0], callbacks).value, log[1..], callbacks);
    }
  }

  lemma TourUpTo(t: Tour, log: seq<LogEntry>, i: nat, callbacks: bool)
    requires FollowAll(t, log, callbacks).Some? && i < |log|
    ensures FollowAll(t, log[..i], callbacks).Some?
    ensures Follow(FollowAll(t, log[..i], callbacks).value, log[i], callbacks).Some?
  {
    hide Follow;
    assert log == log[..i] + log[i..] && log[i..][0] == log[i];
    FollowTwice(t, log[..i], log[i..], callbacks);
  }

  /** Each rewrite is offered of the expression that stands, by then, at the place the visitor was last told. */
  lemma OffersStand(t: Tour, log: seq<LogEntry>, i: nat, callbacks: bool)
    requires FollowAll(t, log, callbacks).Some? && i < |log| && log[i].Offered?
    ensures
      var tree, way := PutAnswers(t.tree, t.way, log[..i]), WayAfter(t.way, log[..i]);
      way != [] && At(tree, way[|way| - 1]) == Some(log[i].offered)
  {
    TourUpTo(t, log, i, callbacks);
    TourIsPut(t, log[..i], callbacks);
  }

  /** All the events are about one expression. */
  predicate About(events: seq<Event>, x: Expr) {
    forall k | 0 <= k < |events| :: events[k].e == x
  }

  lemma NextIsAbout(x: Expr, rest: seq<Path>, callbacks: bool)
    ensures About(Before(x), x) && About(Next(x, rest, callbacks), x)
    ensures forall role :: About(AfterChild(x, role, callbacks), x)
  {
  }

  lemma ReturnIsAbout(tree: Expr, way: seq<Path>, child: Path, rest: seq<Path>, callbacks: bool)
    ensures
      var due := OnReturn(tree, way, child, rest, callbacks);
      due != [] ==> way != [] && At(tree, way[|way| - 1]).Some? && About(due, At(tree, way[|way| - 1]).value)
  {
    hide AfterChild;
    hide Next;
    hide At;
    if way != [] && child != [] && At(tree, way[|way| - 1]).Some? {
      NextIsAbout(At(tree, way[|way| - 1]).value, rest, callbacks);
    }
  }

  /** The callbacks that are due are about the expression that stands at the place. */
  ghost predicate DueStand(t: Tour) {
    t.due != [] ==>
      && t.way != [] && At(t.tree, t.way[|t.way| - 1]).Some?
      && About(t.due, At(t.tree, t.way[|t.way| - 1]).value)
  }

  lemma FollowKeepsDue(t: Tour, entry: LogEntry, callbacks: bool)
    requires DueStand(t) && Follow(t, entry, callbacks).Some?
    ensures DueStand(Follow(t, entry, callbacks).value)
  {
    hide At;
    hide Replace;
    hide Roles;
    hide Places;
    hide Before;
    hide Next;
    hide OnReturn;
    match entry {
      case Heard(TraversalStackUpdate(way)) =>
        if t.way != [] {
          ReturnIsAbout(t.tree, way, t.way[|t.way| - 1], t.todo[|t.todo| - 1], callbacks);
        }
      case Offered(_, _, answer, _) =>
        var place := t.way[|t.way| - 1];
        AtReplace(t.tree, place, answer);
        NextIsAbout(answer, Places(place, Roles(answer)), callbacks);
      case _ =>
    }
  }

  lemma {:induction false} TourKeepsDue(t: Tour, log: seq<LogEntry>, callbacks: bool)
    requires DueStand(t) && FollowAll(t, log, callbacks).Some?
    ensures DueStand(FollowAll(t, log, callbacks).value)
    decreases |log|
  {
    hide Follow;
    hide DueStand;
    if log != [] {
      FollowKeepsDue(t, log[0], callbacks);
      TourKeepsDue(Follow(t, log[0], callbacks).value, log[1..], callbacks);
    }
  }

  /** So is each callback. */
  lemma CallbacksStand(t: Tour, log: seq<LogEntry>, i: nat, callbacks: bool)
    requires DueStand(t) && FollowAll(t, log, callbacks).Some?
    requires i < |log| && log[i].Heard? && log[i].notice.Callback?
    ensures
      var tree, way := PutAnswers(t.tree, t.way, log[..i]), WayAfter(t.way, log[..i]);
      way != [] && At(tree, way[|way| - 1]) == Some(log[i].notice.event.e)
  {
    hide At;
    hide Replace;
    hide FollowAll;
    TourUpTo(t, log, i, callbacks);
    TourIsPut(t, log[..i], callbacks);
    TourKeepsDue(t, log[..i], callbacks);
  }

  // ---------- keeping a log changes nothing ----------

  ghost predicate SameWorld<S>(w: World<S>, l: World<Logged<S>>) {
    w.state == l.state.state && w.rewritten == l.rewritten && w.turns == l.turns
  }

  lemma {:induction false} LoggedTell<S(!new)>(v: Rewriter<S>, l: Logged<S>, events: seq<Event>)
    ensures Tell(Logging(v), l, events).state == Tell(v, l.state, events)
    decreases |events|
  {
    if events != [] {
      LoggedTell(v, Logging(v).on(l, Callback(events[0])), events[1..]);
    }
  }

  lemma LoggedArrive<S(!new)>(v: Rewriter<S>, path: Path, w: World<S>, l: World<Logged<S>>, e: Expr)
    requires SameWorld(w, l)
    ensures
      var (w1, e1) := Arrive(v, path, w, e);
      var (l1, x1) := Arrive(Logging(v), path, l, e);
      SameWorld(w1, l1) && e1 == x1
  {
    hide Tell;
    var pre := Logging(v).preVisitRewrite(Logging(v).on(l.state, TraversalStackUpdate(Way(path))), e);
    LoggedTell(v, pre.state, Before(pre.expr));
  }

  lemma LoggedDepart<S(!new)>(v: Rewriter<S>, path: Path, w: World<S>, l: World<Logged<S>>, e: Expr)
    requires SameWorld(w, l)
    ensures
      var (w1, e1) := Depart(v, path, w, e);
      var (l1, x1) := Depart(Logging(v), path, l, e);
      SameWorld(w1, l1) && e1 == x1
  {
    hide Tell;
    LoggedTell(v, l.state, After(e));
  }

  /** A visitor that keeps a log leaves the tree, the flag and its own state as it would without. */
  lemma {:induction false} LoggedRewriteAt<S(!new)>(v: Rewriter<S>, measure: Expr -> nat, callbacks: bool, path: Path,
      w: World<S>, l: World<Logged<S>>, e: Expr)
    requires Shrinks(v, measure) && Shrinks(Logging(v), measure) && SameWorld(w, l)
    ensures
      var (w1, e1) := RewriteAt(v, measure, callbacks, path, w, e);
      var (l1, x1) := RewriteAt(Logging(v), measure, callbacks, path, l, e);
      SameWorld(w1, l1) && e1 == x1
    decreases measure(e), 1, 0
  {
    hide SameWorld;
    hide Shrinks;
    hide Arrive;
    hide Depart;
    hide Get;
    hide Roles;
    LoggedArrive(v, path, w, l, e);
    var (w1, e1) := Arrive(v, path, w, e);
    var (l1, _) := Arrive(Logging(v), path, l, e);
    ArrivedSmaller(v, measure, path, w, e);
    LoggedRewriteChildren(v, measure, callbacks, path, w1, l1, e1, Roles(e1), measure(e));
    var (w2, e2) := RewriteChildren(v, measure, callbacks, path, w1, e1, Roles(e1), measure(e));
    var (l2, _) := RewriteChildren(Logging(v), measure, callbacks, path, l1, e1, Roles(e1), measure(e));
    LoggedDepart(v, path, w2, l2, e2);
  }

  lemma {:induction false} LoggedRewriteChildren<S(!new)>(v: Rewriter<S>, measure: Expr -> nat, callbacks: bool,
      path: Path, w: World<S>, l: World<Logged<S>>, e: Expr, roles: seq<Role>, bound: nat)
    requires Shrinks(v, measure) && Shrinks(Logging(v), measure) && SameWorld(w, l)
    requires ChildrenBelow(e, roles, measure, bound)
    ensures
      var (w1, e1) := RewriteChildren(v, measure, callbacks, path, w, e, roles, bound);
      var (l1, x1) := RewriteChildren(Logging(v), measure, callbacks, path, l, e, roles, bound);
      SameWorld(w1, l1) && e1 == x1
    decreases bound, 0, |roles|
  {
    hide Shrinks;
    hide Tell;
    hide RewriteAt;
    hide Get;
    hide Put;
    if roles != [] {
      var role, c := roles[0], Get(e, roles[0]).value;
      LoggedTell(v, l.state, BeforeChild(e, role, callbacks));
      var w0, l0 := Announce(v, w, e, role, callbacks), Announce(Logging(v), l, e, role, callbacks);
      LoggedRewriteAt(v, measure, callbacks, path + [role], w0, l0, c);
      var (w1, c1) := RewriteAt(v, measure, callbacks, path + [role], w0, c);
      var (l1, _) := RewriteAt(Logging(v), measure, callbacks, path + [role], l0, c);
      var e1 := Put(e, role, c1);
      LoggedTell(v, l1.state, AfterChild(e1, role, callbacks));
      RestBelow(e, roles, measure, bound, c1);
      LoggedRewriteChildren(v, measure, callbacks, path, Conclude(v, w1, e1, role, callbacks),
        Conclude(Logging(v), l1, e1, role, callbacks), e1, roles[1..], bound);
    }
  }

  // ---------- the whole rewriting ----------

  /** A tour about to begin, and one that has ended: nothing to visit, nothing due, the way left. */
  function Setout(root: Expr): Tour {
    Tour(root, [], [[[]]], [])
  }

  function Ended(tree: Expr): Tour {
    Tour(tree, [], [[]], [])
  }

  lemma RootToured<S(!new)>(v: Rewriter<S>, measure: Expr -> nat, callbacks: bool, state: S, root: Expr)
    requires Shrinks(Logging(v), measure)
    ensures
      var (w, e) := RewriteAt(Logging(v), measure, callbacks, [], World(Logged(state, []), false, 0), root);
      && FollowAll(Setout(root), w.state.log, callbacks) == Some(Ended(e))
      && (w.rewritten <==> SaidSo(w.state.log))
  {
    hide RewriteAt;
    hide Shrinks;
    var w0 := World(Logged(state, []), false, 0);
    var (w, e) := RewriteAt(Logging(v), measure, callbacks, [], w0, root);
    assert Way([])[..0] == [];
    RewriteAtToured(v, measure, callbacks, [], w0, root, Setout(root));
    assert w.state.log[|w0.state.log|..] == w.state.log;
    var rest: seq<Path> := [[]][1..];
    assert rest == [] && [] + [rest] == [[]];
    assert Through(Setout(root), [], e, callbacks).todo == [[]];
  }

  /**
   * AstRewrite with any visitor, its calls logged: the log is a whole tour of the tree that leaves the tree it returns,
   * and it returns true exactly if some answer said so. The visitor and its answers are those without a log.
   */
  method RewriteLogged<S(!new)>(root: Expr, visitor: Rewriter<S>, state: S, callbacks: bool,
      ghost measure: Expr -> nat)
    returns (expr: Expr, after: S, log: seq<LogEntry>, rewritten: bool)
    requires Shrinks(visitor, measure)
    ensures FollowAll(Setout(root), log, callbacks) == Some(Ended(expr))
    ensures expr == PutAnswers(root, [], log)
    ensures rewritten <==> SaidSo(log)
    ensures var (w, e) := RewriteAt(visitor, measure, callbacks, [], World(state, false, 0), root);
      expr == e && after == w.state && rewritten == w.rewritten
  {
    hide RewriteAt;
    hide FollowAll;
    hide Shrinks;
    LoggingShrinks(visitor, measure);
    RootToured(visitor, measure, callbacks, state, root);
    LoggedRewriteAt(visitor, measure, callbacks, [], World(state, false, 0), World(Logged(state, []), false, 0), root);
    var logged;
    expr, logged, rewritten := AstRewrite(root, Logging(visitor), Logged(state, []), callbacks, measure);
    after, log := logged.state, logged.log;
    TourIsPut(Setout(root), log, callbacks);
  }
}
