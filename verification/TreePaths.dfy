/** Places in an expression tree: what the source holds as pointers to expressions. */
module TreePaths {
  import opened Results
  import opened Exprs

  /** The roles on the way from the root. */
  type Path = seq<Role>

  function At(e: Expr, path: Path): Option<Expr>
    decreases |path|
  {
    if path == [] then Some(e)
    else
      var c := Get(e, path[0]);
      if c.None? then None else At(c.value, path[1..])
  }

  /** The tree with the expression at a place replaced. */
  function Replace(e: Expr, path: Path, x: Expr): Expr
    requires At(e, path).Some?
    decreases |path|
  {
    if path == [] then x else Put(e, path[0], Replace(Get(e, path[0]).value, path[1..], x))
  }

  lemma {:induction false} AtReplace(e: Expr, path: Path, x: Expr)
    requires At(e, path).Some?
    ensures At(Replace(e, path, x), path) == Some(x)
    decreases |path|
  {
    if path != [] {
      AtReplace(Get(e, path[0]).value, path[1..], x);
      PutGet(e, path[0], Replace(Get(e, path[0]).value, path[1..], x));
    }
  }

  lemma {:induction false} ReplaceTwice(e: Expr, path: Path, x: Expr, y: Expr)
    requires At(e, path).Some?
    ensures At(Replace(e, path, x), path).Some? && Replace(Replace(e, path, x), path, y) == Replace(e, path, y)
    decreases |path|
  {
    AtReplace(e, path, x);
    if path != [] {
      var c := Get(e, path[0]).value;
      ReplaceTwice(c, path[1..], x, y);
      PutGet(e, path[0], Replace(c, path[1..], x));
      PutPut(e, path[0], Replace(c, path[1..], x), Replace(c, path[1..], y));
    }
  }

  lemma {:induction false} ReplaceSame(e: Expr, path: Path)
    requires At(e, path).Some?
    ensures Replace(e, path, At(e, path).value) == e
    decreases |path|
  {
    if path != [] {
      ReplaceSame(Get(e, path[0]).value, path[1..]);
      GetPut(e, path[0]);
    }
  }

  lemma {:induction false} AtExtended(e: Expr, path: Path, role: Role)
    ensures At(e, path + [role]) == if At(e, path).None? then None else Get(At(e, path).value, role)
    decreases |path|
  {
    if path == [] {
      assert [] + [role] == [role];
      assert [role][1..] == [];
      var c := Get(e, role);
      assert c.Some? ==> At(c.value, []) == c;
    } else {
      assert (path + [role])[1..] == path[1..] + [role];
      if Get(e, path[0]).Some? {
        AtExtended(Get(e, path[0]).value, path[1..], role);
      }
    }
  }

  lemma {:induction false} ReplaceExtended(e: Expr, path: Path, role: Role, x: Expr)
    requires At(e, path + [role]).Some?
    ensures At(e, path).Some? && Get(At(e, path).value, role).Some?
    ensures Replace(e, path + [role], x) == Replace(e, path, Put(At(e, path).value, role, x))
    decreases |path|
  {
    AtExtended(e, path, role);
    if path == [] {
      assert [] + [role] == [role] && [role][1..] == [];
    } else {
      assert (path + [role])[1..] == path[1..] + [role];
      ReplaceExtended(Get(e, path[0]).value, path[1..], role, x);
    }
  }

  predicate Below(p: Path, q: Path) {
    p <= q && p != q
  }

  /** Replacing what is at one place leaves every place there that is not below it. */
  lemma {:induction false} ReplaceKeeps(e: Expr, path: Path, x: Expr, q: Path)
    requires At(e, path).Some? && At(e, q).Some? && !Below(path, q)
    ensures At(Replace(e, path, x), q).Some?
    decreases |path|
  {
    if path != [] && q != [] {
      var c := Get(e, path[0]).value;
      var y := Replace(c, path[1..], x);
      PutGet(e, path[0], y);
      if q[0] == path[0] {
        assert Below(path[1..], q[1..]) ==> Below(path, q);
        ReplaceKeeps(c, path[1..], x, q[1..]);
      } else {
        PutElsewhere(e, path[0], y, q[0]);
      }
    }
  }

  /** Neither place is at or inside the other. */
  predicate Apart(p: Path, q: Path) {
    !(p <= q) && !(q <= p)
  }

  lemma {:induction false} AtElsewhere(e: Expr, path: Path, x: Expr, q: Path)
    requires At(e, path).Some? && Apart(path, q)
    ensures At(Replace(e, path, x), q) == At(e, q)
    decreases |path|
  {
    var c := Get(e, path[0]).value;
    var y := Replace(c, path[1..], x);
    PutGet(e, path[0], y);
    if q[0] == path[0] {
      assert path[1..] <= q[1..] ==> path <= q;
      assert q[1..] <= path[1..] ==> q <= path;
      AtElsewhere(c, path[1..], x, q[1..]);
    } else {
      PutElsewhere(e, path[0], y, q[0]);
    }
  }

  /** The places from the root to a place, the place included. */
  function Way(path: Path): (way: seq<Path>)
    ensures |way| == |path| + 1 && forall k | 0 <= k < |way| :: way[k] == path[..k]
  {
    seq(|path| + 1, k requires 0 <= k < |path| + 1 => path[..k])
  }

  lemma WayExtended(path: Path, role: Role)
    ensures Way(path + [role]) == Way(path) + [path + [role]]
  {
    var p := path + [role];
    assert p[..|p|] == p;
    forall k | 0 <= k < |path| + 1 ensures p[..k] == path[..k] {
    }
  }
}
