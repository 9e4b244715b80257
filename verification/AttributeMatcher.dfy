/**
 * base/attribute_matcher.h and base/attribute_matcher.cc: a mutable tree with parent pointers that
 * indexes attribute patterns. A ghost map from paths to nodes says which node stands where; its keys
 * are always the beginnings of the stored patterns.
 */
module AttributeMatchers {
  import opened Results
  import opened PatternSets

  class Node {
    const parent: Node?
    const key: Qualifier
    const depth: nat
    ghost const path: Path

    // A null `std::set` pointer is `None`; the set orders its nodes by key, so a map by key stands for it.
    var children: Option<map<Qualifier, Node>>
    var wildcard: Node?

    constructor (parent: Node?, key: Qualifier)
      ensures this.parent == parent && this.key == key
      ensures depth == (if parent == null then 0 else parent.depth + 1)
      ensures path == (if parent == null then [] else parent.path) + [key]
      ensures IsFull()
    {
      this.parent := parent;
      this.key := key;
      depth := if parent == null then 0 else parent.depth + 1;
      path := (if parent == null then [] else parent.path) + [key];
      children := None;
      wildcard := null;
    }

    predicate IsPartial()
      reads this
    {
      children.Some? || wildcard != null
    }

    predicate IsFull()
      reads this
    {
      !IsPartial()
    }

    function Kids(): map<Qualifier, Node>
      reads this
    {
      if children.Some? then children.value else map[]
    }

    function MatchQualifier(q: Qualifier): Node?
      reads this
    {
      if children.Some? then (if q in children.value then children.value[q] else null)
      else wildcard
    }

    ghost predicate Same(children: Option<map<Qualifier, Node>>, wildcard: Node?)
      reads this
    {
      this.children == children && this.wildcard == wildcard
    }

    predicate Refuses(q: Qualifier, prevEmplaced: bool)
      reads this
    {
      (IsFull() && !prevEmplaced) || (if q == Wildcard then children.Some? else wildcard != null)
    }

    /** Steps to the child for `q`, making it if the node may have it. */
    method Add(q: Qualifier, prevEmplaced: bool) returns (child: Node?, emplaced: bool)
      modifies this
      ensures old(Refuses(q, prevEmplaced)) ==> child == null && !emplaced && Same(old(children), old(wildcard))
      ensures !old(Refuses(q, prevEmplaced)) ==> child != null
      ensures child != null && q == Wildcard ==> (emplaced <==> old(wildcard) == null) && Same(old(children), child)
      ensures child != null && q == Wildcard && !emplaced ==> child == old(wildcard)
      ensures child != null && q != Wildcard ==> (emplaced <==> q !in old(Kids()))
      ensures child != null && q != Wildcard
        ==> Same(Some(if emplaced then old(Kids())[q := child] else old(Kids())), old(wildcard))
      ensures child != null && q != Wildcard && !emplaced ==> child == old(Kids())[q]
      ensures emplaced ==> fresh(child) && child.parent == this && child.key == q
                           && child.depth == depth + 1 && child.path == path + [q] && child.IsFull()
    {
      if q == Wildcard {
        if wildcard == null && children.None? && !prevEmplaced {
          return null, false;
        }
        if children.Some? {
          return null, false;
        }
        if wildcard == null {
          child := new Node(this, Wildcard);
          wildcard := child;
          return child, true;
        }
        return wildcard, false;
      }
      if wildcard == null && children.None? && !prevEmplaced {
        return null, false;
      }
      if wildcard != null {
        return null, false;
      }
      if children.None? {
        children := Some(map[]);
      }
      if q in children.value {
        return children.value[q], false;
      }
      child := new Node(this, q);
      children := Some(children.value[q := child]);
      emplaced := true;
    }

    /** Node::RemoveChildren: how many leaves went with what was below. */
    method RemoveChildren(ghost at: Index, ghost p: Path) returns (count: nat, ghost left: Index)
      requires Tree(at) && p in at && at[p] == this
      modifies NodesUnder(at, p)
      ensures left == Pruned(at, p) && Tree(left) && IsFull() && left.Values <= at.Values
      ensures count == |LeavesBelow(at.Keys, p)|
    {
      KidsInIndex(at, p);
      if children.None? && wildcard == null {
        NothingBelow(at, p);
        return 0, at;
      }
      NotALeaf(at, p);
      NotUnder(at, p);
      count, left := RemoveChildrenInternal(at, p);
      hide Shape;
      hide NodesUnder;
      TreePruned(at, p);
    }

    method RemoveChildrenInternal(ghost at: Index, ghost p: Path) returns (count: nat, ghost left: Index)
      requires Shape(at) && p in at && at[p] == this && Tidies(at, p)
      modifies NodesUnder(at, p)
      ensures left == Pruned(at, p) && Shape(left) && IsFull()
      ensures count == |Leaves(at.Keys, p)|
      decreases |Under(at, p)|, 1
    {
      hide Shape;
      hide NodeOk;
      hide Leaves;
      hide LeavesBelow;
      hide Pruned;
      hide Under;
      hide Tidies;
      hide NodesUnder;
      label start:
      TidyHere(at, p);
      KidsInShape(at, p);
      if children.None? && wildcard == null {
        NothingBelow(at, p);
        return 1, at;
      }
      NotALeaf(at, p);
      count := 0;
      left := at;
      PruningBegins(at, p);
      if children.Some? {
        while children.value != map[]
          invariant children.Some? && wildcard == old(wildcard)
          invariant PartlyPruned(at, left, p) && Shape(left)
          invariant forall x | x in left && x != p :: unchanged(at[x])
          invariant count + |LeavesBelow(left.Keys, p)| == |LeavesBelow(at.Keys, p)|
          decreases |children.value|
        {
          var q :| q in children.value;
          KidInIndex(left, p, q);
          StillTidy@start(at, left, p, q);
          var n;
          n, left := EraseChild(at, left, p, q, children.value[q]);
          count := count + n;
        }
        label erased:
        children := None;
        ShapeStays@erased(left, p);
      }
      if wildcard != null {
        KidInIndex(left, p, Wildcard);
        StillTidy@start(at, left, p, Wildcard);
        var n;
        n, left := EraseChild(at, left, p, Wildcard, wildcard);
        count := count + n;
      }
      PruningEnds(at, left, p);
    }

    /** Removes what is below the child `q`, then the child. */
    method EraseChild(ghost at: Index, ghost was: Index, ghost p: Path, q: Qualifier, child: Node)
      returns (n: nat, ghost left: Index)
      requires PartlyPruned(at, was, p) && Shape(was) && at[p] == this
      requires p + [q] in was && child == was[p + [q]] && Tidies(was, p + [q])
      modifies NodesUnder(at, p)
      ensures PartlyPruned(at, left, p) && Shape(left) && left.Keys <= was.Keys
      ensures forall x | x in left && x != p :: unchanged(at[x])
      ensures children == (if q != Wildcard then Some(old(Kids()) - {q}) else old(children))
      ensures wildcard == if q == Wildcard then null else old(wildcard)
      ensures n + |LeavesBelow(left.Keys, p)| == |LeavesBelow(was.Keys, p)|
      decreases |Under(at, p)|, 0
    {
      hide Shape;
      hide NodeOk;
      hide Leaves;
      hide LeavesBelow;
      hide Pruned;
      hide Under;
      hide NodesUnder;
      hide Tidies;
      KidInIndex(was, p, q);
      BeforeCut(at, was, p, q);
      n, left := child.RemoveChildrenInternal(was, p + [q]);
      label cut:
      AfterPrune(was, left, p, q);
      PlaceOfNode(left, p);
      if q == Wildcard {
        wildcard := null;
      } else {
        children := Some(children.value - {q});
      }
      ShapeShrinks@cut(left, p, q);
      left := left - {p + [q]};
      AfterCut(at, was, left, p, q);
    }

    /**
     * Node::Remove: takes the node off its parent when nothing is below it, and its parent after it
     * (ChildRemoved). `bare` tells that the variable itself has nothing left below.
     */
    method Remove(ghost at: Index, ghost stored: set<Path>, ghost p: Path) returns (bare: bool, ghost left: Index)
      requires ArePatterns(stored) && PairwiseDisjoint(stored) && p in stored
      requires Tree(at) && path in at && at[path] == this && path <= p
      requires at.Keys == Closure(stored - {p}) + Prefixes(path)
      modifies NodesAbove(at, path)
      ensures Tree(left) && forall x | x in left :: x in at && left[x] == at[x]
      ensures left.Keys == Closure(stored - {p}) + (if bare then {p[..1]} else {})
      ensures p[..1] in left && (bare ==> p[..1] !in Closure(stored - {p}) && Bare(left.Keys, p[..1]))
      decreases |path|
    {
      hide Tree;
      hide NodeOk;
      hide Closure;
      hide Prefixes;
      hide NodesAbove;
      KidsInIndex(at, path);
      ParentInIndex(at, path);
      RootPrefix(path, p);
      if parent == null {
        assert path == p[..1];
        if IsFull() {
          BareGoes(stored, p, path, at.Keys);
          SinglePrefix(path);
        } else {
          BusyStays(stored, p, path, at.Keys);
        }
        return IsFull(), at;
      }
      if children.None? && wildcard == null {
        BareGoes(stored, p, path, at.Keys);
        ghost var up := path[..|path| - 1];
        ChildInParent(at, up, key);
        FewerAbove(at, up, key);
        label start:
        if key == Wildcard {
          parent.wildcard := null;
        } else {
          parent.children := Some(parent.children.value - {key});
          if parent.children.value == map[] {
            parent.children := None;
          }
        }
        TreeShrinks@start(at, up, key);
        bare, left := parent.Remove(at - {path}, stored, p);
      } else {
        BusyStays(stored, p, path, at.Keys);
        return false, at;
      }
    }
  }

  /** The status codes of the matcher's operations. */
  datatype Status = OK | InvalidArgument | AlreadyExists | NotFound

  const SIZE_LIMIT: nat := 0x1_0000_0000_0000_0000

  /** `size_t` arithmetic. */
  function Wrap(n: int): (w: nat)
    ensures w < SIZE_LIMIT && (0 <= n < SIZE_LIMIT ==> w == n)
  {
    n % SIZE_LIMIT
  }

  lemma WrapOnce(n: int, d: int)
    ensures Wrap(Wrap(n) + d) == Wrap(n + d)
  {
    var q := n / SIZE_LIMIT;
    assert n == q * SIZE_LIMIT + Wrap(n);
    WrapShift(Wrap(n) + d, q);
  }

  lemma WrapShift(n: int, q: int)
    ensures Wrap(n + q * SIZE_LIMIT) == Wrap(n)
  {
  }

  /** `attributes_` and the upserted patterns it missed make up the number of stored patterns. */
  predicate Counted(attributes: nat, missed: nat, n: nat) {
    Wrap(attributes + missed) == Wrap(n)
  }

  lemma CountMoves(attributes: nat, missed: nat, n: nat, d: int)
    requires Counted(attributes, missed, n) && n + d >= 0
    ensures Counted(Wrap(attributes + d), missed, n + d)
  {
    WrapOnce(attributes + d, missed);
    WrapOnce(attributes + missed, d);
    WrapOnce(n, d);
    hide Wrap;
    assert attributes + d + missed == attributes + missed + d;
  }

  /** The counter is determined by the number of patterns and of those missed. */
  lemma CountIsDetermined(attributes: nat, missed: nat, n: nat)
    requires attributes < SIZE_LIMIT && Counted(attributes, missed, n)
    ensures attributes == Wrap(n - missed)
    ensures attributes == Wrap(n) <==> Wrap(missed) == 0
  {
    WrapOnce(attributes + missed, 0 - missed);
    WrapOnce(n, 0 - missed);
    WrapOnce(n, missed);
    WrapOnce(n + missed, 0 - n);
    WrapOnce(n, 0 - n);
    WrapOnce(missed, attributes);
    assert Wrap(0) == 0 && Wrap(attributes) == attributes;
    hide Wrap;
  }

  lemma OneMoreMissed(attributes: nat, missed: nat, n: nat)
    requires Counted(attributes, missed, n)
    ensures Counted(attributes, missed + 1, n + 1)
  {
    WrapOnce(attributes + missed, 1);
    WrapOnce(n, 1);
    hide Wrap;
    assert attributes + missed + 1 == attributes + (missed + 1);
  }

  type Index = map<Path, Node>

  // ---------- the shape of the tree ----------

  ghost predicate NodeOk(at: Index, p: Path)
    requires p in at
    reads at[p]
  {
    var n := at[p];
    && p != [] && n.path == p && n.key == p[|p| - 1] && n.depth == |p| - 1
    && (if |p| == 1 then n.parent == null else p[..|p| - 1] in at && n.parent == at[p[..|p| - 1]])
    && (forall q :: q in n.Kids() <==> q != Wildcard && p + [q] in at)
    && (forall q | q in n.Kids() :: n.Kids()[q] == at[p + [q]])
    && n.wildcard == if p + [Wildcard] in at then at[p + [Wildcard]] else null
  }

  ghost predicate PrefixClosed(paths: set<Path>) {
    forall x: Path, r: Qualifier | x + [r] in paths && x != [] :: x in paths
  }

  ghost predicate Shape(at: Index)
    reads at.Values
  {
    PrefixClosed(at.Keys) && forall p {:trigger NodeOk(at, p)} | p in at :: NodeOk(at, p)
  }

  /** Whoever empties a node's children drops the empty set too, or `IsFull` would not tell leaves. */
  ghost predicate Tidy(at: Index)
    reads at.Values
  {
    forall p | p in at :: at[p].children != Some(map[])
  }

  ghost predicate Tree(at: Index)
    reads at.Values
  {
    Shape(at) && Tidy(at)
  }

  lemma PrefixClosedAdd(paths: set<Path>, y: Path)
    requires PrefixClosed(paths) && y != [] && (|y| > 1 ==> y[..|y| - 1] in paths)
    ensures PrefixClosed(paths + {y})
    ensures y !in paths ==> forall r :: y + [r] !in paths + {y}
  {
    forall x: Path, r: Qualifier | x + [r] in paths + {y} && x != [] ensures x in paths + {y} {
      if x + [r] !in paths {
        assert x == y[..|y| - 1];
      }
    }
    assert forall r :: |y + [r]| > |y|;
  }

  /** Adding the path `y` changes the paths directly below its parent alone. */
  lemma OnlyParentGrows(y: Path, x: Path)
    requires y != []
    ensures forall r :: x + [r] == y <==> x == y[..|y| - 1] && r == y[|y| - 1]
  {
    var p, q := y[..|y| - 1], y[|y| - 1];
    assert y == p + [q];
    forall r | x + [r] == y ensures x == p && r == q {
      SameEnd(x, r, p, q);
    }
  }

  lemma KidsInShape(at: Index, p: Path)
    requires Shape(at) && p in at && at[p].children != Some(map[])
    ensures at[p].children.Some? <==> exists r :: r != Wildcard && p + [r] in at
    ensures at[p].wildcard != null <==> p + [Wildcard] in at
    ensures at[p].IsFull() <==> Bare(at.Keys, p)
  {
    assert NodeOk(at, p);
    if at[p].children.Some? {
      var r :| r in at[p].Kids();
      assert p + [r] in at;
    }
  }

  lemma KidsInIndex(at: Index, p: Path)
    requires Tree(at) && p in at
    ensures at[p].children.Some? <==> exists r :: r != Wildcard && p + [r] in at
    ensures at[p].wildcard != null <==> p + [Wildcard] in at
    ensures at[p].IsFull() <==> Bare(at.Keys, p)
  {
    KidsInShape(at, p);
  }

  lemma KidInIndex(at: Index, p: Path, q: Qualifier)
    requires Shape(at) && p in at
    ensures q in at[p].Kids() <==> q != Wildcard && p + [q] in at
    ensures q in at[p].Kids() ==> at[p].Kids()[q] == at[p + [q]]
    ensures at[p].wildcard == if p + [Wildcard] in at then at[p + [Wildcard]] else null
  {
    assert NodeOk(at, p);
  }

  lemma PlaceOfNode(at: Index, p: Path)
    requires Shape(at) && p in at
    ensures p != [] && at[p].path == p
    ensures forall x | x in at && x != p :: at[x] != at[p]
  {
    assert NodeOk(at, p);
    assert forall x | x in at :: NodeOk(at, x) && at[x].path == x;
  }

  twostate lemma TreeStays(at: Index, new node: Node)
    requires old(Tree(at)) && node in at.Values && unchanged(node`children) && unchanged(node`wildcard)
    requires forall x | x in at && at[x] != node :: unchanged(at[x])
    ensures Tree(at)
  {
    forall x | x in at ensures NodeOk(at, x) {
      assert old(NodeOk(at, x));
    }
  }

  /** A node that is not the parent of the new path stays as it should be. */
  lemma OkBesideTheParent(at: Index, y: Path, node: Node, x: Path)
    requires y != [] && y !in at && x in at && x != y[..|y| - 1] && NodeOk(at, x)
    ensures NodeOk(at[y := node], x)
  {
    OnlyParentGrows(y, x);
  }

  lemma NewLeafOk(at: Index, y: Path, node: Node)
    requires PrefixClosed(at.Keys) && y != [] && y !in at && node.path == y && node.key == y[|y| - 1]
    requires node.depth == |y| - 1 && node.IsFull()
    requires if |y| == 1 then node.parent == null else y[..|y| - 1] in at && node.parent == at[y[..|y| - 1]]
    ensures NodeOk(at[y := node], y)
  {
    forall q ensures y + [q] !in at[y := node] {
      assert |y + [q]| > |y|;
    }
  }

  twostate lemma ParentOk(at: Index, new p: Path, new q: Qualifier, new child: Node)
    requires p in at && old(NodeOk(at, p)) && p + [q] !in at
    requires
      if q == Wildcard then at[p].children == old(at[p].children) && at[p].wildcard == child
      else at[p].wildcard == old(at[p].wildcard) && at[p].children == Some(old(at[p].Kids())[q := child])
    ensures NodeOk(at[p + [q] := child], p)
  {
    forall r | r != q ensures p + [r] != p + [q] {
      OnlyParentGrows(p + [q], p);
    }
    if |p| > 1 {
      assert |p[..|p| - 1]| < |p + [q]|;
    }
  }

  twostate lemma ShapeGrows(at: Index, new p: Path, new q: Qualifier, new child: Node)
    requires old(Shape(at)) && p in at && p != [] && p + [q] !in at
    requires child !in at.Values
    requires child.parent == at[p] && child.key == q && child.depth == at[p].depth + 1
    requires child.path == p + [q] && child.IsFull()
    requires forall x | x in at && x != p :: unchanged(at[x])
    requires
      if q == Wildcard then at[p].children == old(at[p].children) && at[p].wildcard == child
      else at[p].wildcard == old(at[p].wildcard) && at[p].children == Some(old(at[p].Kids())[q := child])
    ensures Shape(at[p + [q] := child])
  {
    var y := p + [q];
    var grown := at[y := child];
    assert y[..|p|] == p && grown.Keys == at.Keys + {y};
    PrefixClosedAdd(at.Keys, y);
    assert old(NodeOk(at, p)) && at[p].depth == |p| - 1;
    hide NodeOk;
    NewLeafOk(at, y, child);
    ParentOk(at, p, q, child);
    forall x | x in at && x != p ensures NodeOk(grown, x) {
      assert old(NodeOk(at, x));
      OkBesideTheParent(at, y, child, x);
    }
  }

  /** Hanging a new leaf under `at[p]` keeps the tree. */
  twostate lemma TreeGrows(at: Index, new p: Path, new q: Qualifier, new child: Node)
    requires old(Tree(at)) && p in at && p != [] && p + [q] !in at
    requires child !in at.Values
    requires child.parent == at[p] && child.key == q && child.depth == at[p].depth + 1
    requires child.path == p + [q] && child.IsFull()
    requires forall x | x in at && x != p :: unchanged(at[x])
    requires
      if q == Wildcard then at[p].children == old(at[p].children) && at[p].wildcard == child
      else at[p].wildcard == old(at[p].wildcard) && at[p].children == Some(old(at[p].Kids())[q := child])
    ensures Tree(at[p + [q] := child])
  {
    assert old(Shape(at)) && old(Tidy(at));
    ShapeGrows(at, p, q, child);
    hide Shape;
    assert at[p].children != Some(map[]) by {
      if q != Wildcard {
        assert q in at[p].children.value;
      }
    }
  }

  /** A new variable node keeps the tree. */
  lemma TreeGainsRoot(at: Index, key: Qualifier, node: Node)
    requires Tree(at) && [key] !in at && node !in at.Values
    requires node.parent == null && node.key == key && node.depth == 0 && node.path == [key] && node.IsFull()
    ensures Tree(at[[key] := node])
  {
    ShapeGainsRoot(at, key, node);
    hide Shape;
  }

  lemma ShapeGainsRoot(at: Index, key: Qualifier, node: Node)
    requires Shape(at) && [key] !in at && node !in at.Values
    requires node.parent == null && node.key == key && node.depth == 0 && node.path == [key] && node.IsFull()
    ensures Shape(at[[key] := node])
  {
    var grown := at[[key] := node];
    assert grown.Keys == at.Keys + {[key]};
    PrefixClosedAdd(at.Keys, [key]);
    NewLeafOk(at, [key], node);
    forall x | x in at ensures NodeOk(grown, x) {
      assert NodeOk(at, x);
      OkBesideTheParent(at, [key], node, x);
    }
  }

  /** AttributeMatch::GetType. */
  function GetType(found: Node?): MatchType
    reads found
  {
    if found == null then NoMatch else if found.IsPartial() then Partial else Full
  }

  /** One step of MatchAttribute: by key if the node has keys, else by its wildcard. */
  lemma MatchStep(at: Index, stored: set<Path>, a: Path, w: Path)
    requires Tree(at) && Indexes(at.Keys, stored) && w in at
    requires |w| < |a| && MatchesUpTo(w, a, |w|) && a[|w|] != Invalid && a[|w|] != Wildcard
    ensures var q, next := a[|w|], at[w].MatchQualifier(a[|w|]);
      if next == null then StepMatch(stored, a) == NoMatch
      else
        var u := if w + [q] in at then w + [q] else w + [Wildcard];
        u in at && next == at[u] && MatchesUpTo(u, a, |u|)
  {
    var q := a[|w|];
    KidHere(at, w, q);
    KidsInIndex(at, w);
    hide Tree;
    hide StepMatch;
    if at[w].MatchQualifier(q) == null {
      forall u | u in Closure(stored) && |u| == |w| + 1 ensures !MatchesUpTo(u, a, |u|) {
        if MatchesUpTo(u, a, |u|) {
          NextPlace(stored, a, w, u);
        }
      }
      NoPlaceNoMatch(stored, a, |w| + 1);
    } else if w + [q] !in at {
    } else if at[w].wildcard != null {
      NeverBoth(stored, w, q);
    }
  }

  // ---------- cutting nodes off ----------

  ghost predicate Tidies(at: Index, p: Path)
    reads at.Values
  {
    forall x | x in at && p <= x :: at[x].children != Some(map[])
  }

  ghost function Under(at: Index, p: Path): set<Path> {
    set x | x in at && p <= x
  }

  ghost function NodesUnder(at: Index, p: Path): set<Node> {
    set x | x in at && p <= x :: at[x]
  }

  /** The index when all below `p` is gone. */
  ghost function Pruned(at: Index, p: Path): (left: Index)
    ensures left.Keys == CutBelow(at.Keys, p)
  {
    map x | x in at && !(p <= x && x != p) :: at[x]
  }

  lemma OkBesideTheCut(at: Index, y: Path, x: Path)
    requires y != [] && x in at && x != y && x != y[..|y| - 1] && NodeOk(at, x)
    requires |x| > 1 ==> x[..|x| - 1] != y
    ensures NodeOk(at - {y}, x)
  {
    OnlyParentGrows(y, x);
  }

  lemma PrefixClosedCut(paths: set<Path>, y: Path)
    requires PrefixClosed(paths) && Bare(paths, y)
    ensures PrefixClosed(paths - {y})
    ensures forall x | x in paths && |x| > 1 :: x[..|x| - 1] != y
  {
    forall x | x in paths && |x| > 1 ensures x[..|x| - 1] != y {
      assert x == x[..|x| - 1] + [x[|x| - 1]];
    }
  }

  twostate lemma ParentCut(at: Index, new p: Path, new q: Qualifier)
    requires p in at && old(NodeOk(at, p))
    requires at[p].Kids() == old(at[p].Kids()) - {q}
    requires at[p].wildcard == if q == Wildcard then null else old(at[p].wildcard)
    ensures NodeOk(at - {p + [q]}, p)
  {
    forall r | r != q ensures p + [r] != p + [q] {
      OnlyParentGrows(p + [q], p);
    }
    if |p| > 1 {
      assert |p[..|p| - 1]| < |p + [q]|;
    }
  }

  /** Taking a leaf off its parent keeps the shape. */
  twostate lemma ShapeShrinks(at: Index, new p: Path, new q: Qualifier)
    requires old(Shape(at)) && p in at && p + [q] in at && Bare(at.Keys, p + [q])
    requires forall x | x in at && x != p :: unchanged(at[x])
    requires at[p].Kids() == old(at[p].Kids()) - {q}
    requires at[p].wildcard == if q == Wildcard then null else old(at[p].wildcard)
    ensures Shape(at - {p + [q]})
  {
    var y := p + [q];
    var cut := at - {y};
    assert y[..|p|] == p && cut.Keys == at.Keys - {y};
    PrefixClosedCut(at.Keys, y);
    assert old(NodeOk(at, p));
    ParentCut(at, p, q);
    hide NodeOk;
    forall x | x in cut && x != p ensures NodeOk(cut, x) {
      assert old(NodeOk(at, x));
      OkBesideTheCut(at, y, x);
    }
  }

  lemma NothingBelow(at: Index, p: Path)
    requires Shape(at) && p in at && Bare(at.Keys, p)
    ensures Pruned(at, p) == at && Leaves(at.Keys, p) == {p} && LeavesBelow(at.Keys, p) == {}
  {
    assert NodeOk(at, p);
    forall x | x in at && p <= x ensures x == p {
      if x != p {
        StepTowards(at, p, x);
      }
    }
  }

  /** The first step from `p` towards a place below it is in the index. */
  lemma {:induction false} StepTowards(at: Index, p: Path, x: Path)
    requires PrefixClosed(at.Keys) && x in at && p <= x && p != x && p != []
    ensures p + [x[|p|]] in at
    decreases |x|
  {
    assert x == x[..|x| - 1] + [x[|x| - 1]];
    if |x| > |p| + 1 {
      StepTowards(at, p, x[..|x| - 1]);
    } else {
      assert x[..|x| - 1] == p;
    }
  }

  lemma NotALeaf(at: Index, p: Path)
    requires !Bare(at.Keys, p)
    ensures LeavesBelow(at.Keys, p) == Leaves(at.Keys, p)
  {
  }

  /** Some of what was below `p` is gone, with all below it, and nothing else. */
  ghost predicate PartlyPruned(at: Index, left: Index, p: Path) {
    && p in left && left.Keys <= at.Keys
    && (forall x | x in left :: left[x] == at[x])
    && (forall x | x in at && !(p <= x && x != p) :: x in left)
  }

  lemma ProperSubset<T>(a: set<T>, b: set<T>)
    requires a < b
    ensures |a| < |b|
  {
    var x :| x in b && x !in a;
    assert |b - a| > 0 && b == a + (b - a);
  }

  /** What the removal of a child may rely on: it is there, it is smaller, and it touches no more. */
  lemma BeforeCut(at: Index, left: Index, p: Path, q: Qualifier)
    requires Shape(left) && PartlyPruned(at, left, p) && p + [q] in left
    ensures NodesUnder(left, p + [q]) <= NodesUnder(at, p) && at[p] in NodesUnder(at, p)
    ensures forall x | x in left && !(p + [q] <= x) :: left[x] !in NodesUnder(left, p + [q])
    ensures |Under(left, p + [q])| < |Under(at, p)|
  {
    var y := p + [q];
    assert p <= y;
    NotUnder(left, y);
    forall x | x in Under(left, y) ensures x in Under(at, p) && x != p {
      assert y <= x && |y| > |p|;
    }
    assert p in Under(at, p);
    ProperSubset(Under(left, y), Under(at, p));
    forall n | n in NodesUnder(left, y) ensures n in NodesUnder(at, p) {
      var x :| x in left && y <= x && n == left[x];
      assert x in at && p <= x;
    }
  }

  lemma TidyHere(at: Index, p: Path)
    requires p in at && Tidies(at, p)
    ensures at[p].children != Some(map[])
  {
  }

  twostate lemma StillTidy(at: Index, new left: Index, new p: Path, new q: Qualifier)
    requires p in at && old(Tidies(at, p)) && left.Keys <= at.Keys
    requires forall x | x in left :: left[x] == at[x]
    requires forall x | x in left && x != p :: unchanged(at[x])
    ensures Tidies(left, p + [q])
  {
    assert p <= p + [q] && |p + [q]| > |p|;
  }

  lemma AfterPrune(was: Index, left: Index, p: Path, q: Qualifier)
    requires p in was && p + [q] in was && left == Pruned(was, p + [q])
    ensures p in left && p + [q] in left && left[p] == was[p] && Bare(left.Keys, p + [q])
    ensures forall x | x in left :: x in was && left[x] == was[x] && (x == p + [q] || !(p + [q] <= x))
  {
    assert |p + [q]| > |p|;
    forall r ensures p + [q] + [r] !in left {
      assert p + [q] <= p + [q] + [r];
    }
  }

  lemma AfterCut(at: Index, was: Index, left: Index, p: Path, q: Qualifier)
    requires PartlyPruned(at, was, p) && p + [q] in was
    requires left == Pruned(was, p + [q]) - {p + [q]}
    ensures PartlyPruned(at, left, p)
    ensures |LeavesBelow(was.Keys, p)| == |LeavesBelow(left.Keys, p)| + |Leaves(was.Keys, p + [q])|
  {
    LeavesOfChild(was.Keys, p, q);
    assert left.Keys == Without(was.Keys, p + [q]);
    assert p <= p + [q] && |p + [q]| > |p|;
  }

  twostate lemma ShapeStays(at: Index, new p: Path)
    requires old(Shape(at)) && p in at && at[p].Kids() == old(at[p].Kids()) && at[p].wildcard == old(at[p].wildcard)
    requires forall x | x in at && x != p :: unchanged(at[x])
    ensures Shape(at)
  {
    forall x | x in at ensures NodeOk(at, x) {
      assert old(NodeOk(at, x));
    }
  }

  lemma UnderIsInside(at: Index, p: Path)
    ensures NodesUnder(at, p) <= at.Values
  {
  }

  lemma NotUnder(at: Index, p: Path)
    requires Shape(at)
    ensures forall x | x in at && !(p <= x) :: at[x] !in NodesUnder(at, p)
  {
    forall x | x in at ensures at[x].path == x {
      assert NodeOk(at, x);
    }
  }

  twostate lemma TreePruned(at: Index, new p: Path)
    requires old(Tree(at)) && p in at && at[p].IsFull() && Shape(Pruned(at, p))
    requires forall x | x in at && !(p <= x) :: unchanged(at[x])
    ensures Tree(Pruned(at, p))
  {
    hide Shape;
    assert old(Tidy(at));
  }

  lemma PruningBegins(at: Index, p: Path)
    requires p in at
    ensures PartlyPruned(at, at, p)
  {
  }

  lemma PruningEnds(at: Index, left: Index, p: Path)
    requires PartlyPruned(at, left, p) && Shape(left) && left[p].IsFull()
    ensures left == Pruned(at, p) && LeavesBelow(left.Keys, p) == {}
  {
    KidsInShape(left, p);
    NothingBelow(left, p);
    assert left.Keys == Pruned(left, p).Keys;
  }

  // ---------- taking a pattern out, upwards ----------

  ghost function NodesAbove(at: Index, p: Path): set<Node> {
    set x | x in at && x <= p :: at[x]
  }

  lemma RootPrefix(path: Path, p: Path)
    requires path <= p && path != []
    ensures p[..1] in Prefixes(path)
  {
    assert p[..1] == path[..1];
  }

  lemma AboveIsInside(at: Index, p: Path)
    ensures NodesAbove(at, p) <= at.Values
  {
  }

  lemma TreeLosesRoot(at: Index, key: Qualifier)
    requires Tree(at) && [key] in at && Bare(at.Keys, [key])
    ensures Tree(at - {[key]})
  {
    PrefixClosedCut(at.Keys, [key]);
    assert (at - {[key]}).Keys == at.Keys - {[key]};
    forall x | x in at && x != [key] ensures NodeOk(at - {[key]}, x) {
      assert NodeOk(at, x);
      OkBesideTheCut(at, [key], x);
    }
  }

  /** The table of variables after a removal that left `left`, its own variable dropped when bare. */
  lemma RootsAfterRemoval(
      children: map<Qualifier, Node>, at: Index, left: Index, stored: set<Path>, p: Path, bare: bool)
    requires RootsOk(children, at) && at.Keys == Closure(stored) && p in stored && p != []
    requires left.Keys == Closure(stored - {p}) + (if bare then {p[..1]} else {}) && p[..1] in left
    requires forall x | x in left :: x in at && left[x] == at[x]
    ensures bare ==> RootsOk(children - {p[0]}, left - {p[..1]})
    ensures !bare ==> RootsOk(children, left)
  {
    assert p[..1] == [p[0]];
    forall q | q != p[0] ensures [q] in at <==> [q] in left {
      OtherVariablesStay(stored, p, q);
      assert [q][0] == q;
    }
  }

  lemma KidHere(at: Index, p: Path, q: Qualifier)
    requires Tree(at) && p in at
    ensures q != Wildcard ==> (q in at[p].Kids() <==> p + [q] in at)
    ensures q in at[p].Kids() ==> p + [q] in at && at[p].Kids()[q] == at[p + [q]]
    ensures at[p].wildcard == if p + [Wildcard] in at then at[p + [Wildcard]] else null
  {
    KidInIndex(at, p, q);
  }

  /** What climbing to the parent may rely on. */
  lemma ParentInIndex(at: Index, p: Path)
    requires Tree(at) && p in at
    ensures at[p].path == p && p != []
    ensures at[p].parent == null <==> |p| == 1
    ensures |p| > 1 ==> p[..|p| - 1] in at && at[p].parent == at[p[..|p| - 1]] && p == p[..|p| - 1] + [at[p].key]
  {
    assert NodeOk(at, p);
  }

  lemma AfterRemoval(children: map<Qualifier, Node>, at: Index, left: Index, stored: set<Path>, p: Path, bare: bool)
    requires RootsOk(children, at) && Indexes(at.Keys, stored) && p in stored && p != []
    requires Tree(left) && forall x | x in left :: x in at && left[x] == at[x]
    requires left.Keys == Closure(stored - {p}) + (if bare then {p[..1]} else {}) && p[..1] in left
    requires bare ==> p[..1] !in Closure(stored - {p}) && Bare(left.Keys, p[..1])
    ensures var rest := if bare then left - {p[..1]} else left;
      && Tree(rest) && RootsOk(if bare then children - {p[0]} else children, rest)
      && Indexes(rest.Keys, stored - {p}) && rest.Values <= at.Values
  {
    hide Tree;
    assert p[..1] == [p[0]];
    RootsAfterRemoval(children, at, left, stored, p, bare);
    hide RootsOk;
    RemovedStaysIndexed(at.Keys, stored, p);
    hide Indexes;
    hide Closure;
    if bare {
      TreeLosesRoot(left, p[0]);
    }
  }

  lemma RootKey(at: Index, p: Path)
    requires Tree(at) && p != [] && p[..1] in at
    ensures at[p[..1]].key == p[0]
  {
    assert NodeOk(at, p[..1]);
  }

  lemma ChildInParent(at: Index, p: Path, q: Qualifier)
    requires Tree(at) && p in at && p + [q] in at
    ensures if q == Wildcard then at[p].wildcard == at[p + [q]] else q in at[p].Kids()
    ensures Wildcard !in at[p].Kids() && at[p].children != Some(map[])
    ensures at[p].path == p && forall x | x in at && x != p :: at[x] != at[p]
  {
    KidInIndex(at, p, q);
    KidInIndex(at, p, Wildcard);
    PlaceOfNode(at, p);
    hide Shape;
  }

  lemma FewerAbove(at: Index, p: Path, q: Qualifier)
    requires p in at && p + [q] in at
    ensures NodesAbove(at - {p + [q]}, p) <= NodesAbove(at, p + [q])
    ensures at[p] in NodesAbove(at, p + [q])
  {
    assert p <= p + [q];
    forall n | n in NodesAbove(at - {p + [q]}, p) ensures n in NodesAbove(at, p + [q]) {
      var x :| x in at && x <= p && n == at[x];
      assert x <= p + [q];
    }
  }

  /** Taking a leaf off its parent, and the parent's set with its last child, keeps the tree. */
  twostate lemma TreeShrinks(at: Index, new p: Path, new q: Qualifier)
    requires old(Tree(at)) && p in at && p + [q] in at && Bare(at.Keys, p + [q])
    requires forall x | x in at && x != p :: unchanged(at[x])
    requires at[p].Kids() == old(at[p].Kids()) - {q} && at[p].children != Some(map[])
    requires at[p].wildcard == if q == Wildcard then null else old(at[p].wildcard)
    ensures Tree(at - {p + [q]})
  {
    assert old(Shape(at)) && old(Tidy(at));
    ShapeShrinks(at, p, q);
    hide Shape;
  }

  ghost predicate RootsOk(children: map<Qualifier, Node>, at: Index) {
    && (forall q :: q in children <==> [q] in at)
    && (forall q | q in children :: children[q] == at[[q]])
  }

  lemma RootsStay(children: map<Qualifier, Node>, at: Index, p: Path)
    requires RootsOk(children, at) && p != []
    ensures RootsOk(children, Pruned(at, p))
  {
    forall q: Qualifier ensures p <= [q] ==> p == [q] {
    }
  }

  // ---------- listing ----------

  lemma NothingThrough(index: set<Path>, p: Path)
    ensures LeavesThrough(index, p, {}) == {}
  {
  }

  lemma FewerUnder(at: Index, p: Path, q: Qualifier)
    requires p in at && p + [q] in at
    ensures |Under(at, p + [q])| < |Under(at, p)|
  {
    assert p <= p + [q] && |p + [q]| > |p|;
    assert p in Under(at, p) && p !in Under(at, p + [q]);
    ProperSubset(Under(at, p + [q]), Under(at, p));
  }

  /** Every way down from a node is one of its keys or its wildcard. */
  lemma ChildKeys(at: Index, p: Path)
    requires Tree(at) && p in at
    ensures Wildcard !in at[p].Kids()
    ensures forall x | x in at && p <= x && |x| > |p| ::
      x[|p|] in at[p].Kids() || (x[|p|] == Wildcard && at[p].wildcard != null)
  {
    assert NodeOk(at, p);
    forall x | x in at && p <= x && |x| > |p|
      ensures x[|p|] in at[p].Kids() || (x[|p|] == Wildcard && at[p].wildcard != null)
    {
      StepTowards(at, p, x);
    }
  }

  class AttributeMatcher {
    var children: map<Qualifier, Node>
    var attributes: nat

    // The node at each path, the patterns stored, and the upserted patterns that were never counted.
    ghost var at: Index
    ghost var stored: set<Path>
    ghost var missed: nat

    ghost predicate Valid()
      reads this, at.Values
    {
      && Tree(at) && RootsOk(children, at)
      && Indexes(at.Keys, stored)
      && attributes < SIZE_LIMIT
      && Counted(attributes, missed, |stored|)
    }

    constructor ()
      ensures Valid() && stored == {} && missed == 0 && attributes == 0
    {
      children := map[];
      attributes := 0;
      at := map[];
      stored := {};
      missed := 0;
    }

    // ---------- walking down, making nodes ----------

    /** ValidateAttribute. */
    method ValidateAttribute(variable: string, qualifiers: seq<Qualifier>) returns (ok: bool)
      ensures ok <==> IsPattern([StringKey(variable)] + qualifiers)
    {
      ghost var p: Path := [StringKey(variable)] + qualifiers;
      if variable == "" {
        return false;
      }
      for i := 0 to |qualifiers|
        invariant forall k | 0 < k <= i :: p[k] != Invalid && (p[k] == Wildcard ==> k == |p| - 1)
      {
        assert p[i + 1] == qualifiers[i];
        if qualifiers[i] == Invalid {
          return false;
        }
        if qualifiers[i] == Wildcard && i != |qualifiers| - 1 {
          return false;
        }
      }
      ok := true;
    }

    method AddVariable(variable: string) returns (node: Node, emplaced: bool)
      requires Tree(at) && RootsOk(children, at)
      modifies this`children, this`at
      ensures Tree(at) && RootsOk(children, at)
      ensures emplaced <==> [StringKey(variable)] !in old(at)
      ensures at == if emplaced then old(at)[[StringKey(variable)] := node] else old(at)
      ensures [StringKey(variable)] in at && node == at[[StringKey(variable)]]
      ensures emplaced ==> fresh(node) && node.IsFull()
    {
      hide Tree;
      var key := StringKey(variable);
      if key in children {
        return children[key], false;
      }
      node := new Node(null, key);
      emplaced := true;
      TreeGainsRoot(at, key, node);
      children := children[key := node];
      at := at[[key] := node];
    }

    /** Node::Add, with the node it makes entered in the ghost index. */
    method AddBelow(node: Node, ghost p: Path, q: Qualifier, prevEmplaced: bool) returns (child: Node?, emplaced: bool)
      requires Tree(at) && RootsOk(children, at) && p in at && node == at[p]
      requires prevEmplaced ==> node.IsFull()
      modifies this`at, node
      ensures Tree(at) && RootsOk(children, at)
      ensures child == null <==> Refused(old(at).Keys, p, q, prevEmplaced)
      ensures child == null ==> !emplaced
      ensures child != null ==> (emplaced <==> p + [q] !in old(at)) && p + [q] in at && child == at[p + [q]]
      ensures !emplaced ==> at == old(at)
      ensures emplaced ==> at == old(at)[p + [q] := child] && fresh(child) && child.IsFull()
    {
      hide Shape;
      hide Tidy;
      hide NodeOk;
      KidsInIndex(at, p);
      KidInIndex(at, p, q);
      PlaceOfNode(at, p);
      child, emplaced := node.Add(q, prevEmplaced);
      if emplaced {
        TreeGrows(at, p, q, child);
        at := at[p + [q] := child];
      } else {
        TreeStays(at, node);
      }
    }

    /** One turn of the loop of InsertAttribute and UpsertAttribute. */
    method Descend(node: Node, ghost p: Path, i: nat, q: Qualifier, prevEmplaced: bool)
      returns (child: Node?, emplaced: bool)
      requires Tree(at) && RootsOk(children, at) && ArePatterns(stored) && PairwiseDisjoint(stored)
      requires IsPattern(p)
      requires i + 1 < |p| && q == p[i + 1] && Progress(stored, p, i, at.Keys, prevEmplaced)
      requires p[..i + 1] in at && node == at[p[..i + 1]] && (prevEmplaced ==> node.IsFull())
      modifies this`at, node
      ensures Tree(at) && RootsOk(children, at)
      ensures child == null ==> !prevEmplaced && !emplaced && Stopped(at.Keys, stored, p)
      ensures child != null ==> Progress(stored, p, i + 1, at.Keys, emplaced) && (prevEmplaced ==> emplaced)
      ensures child != null ==> p[..i + 2] in at && child == at[p[..i + 2]]
      ensures emplaced ==> at == old(at)[p[..i + 2] := child] && fresh(child) && child.IsFull()
      ensures !emplaced ==> at == old(at)
    {
      hide Tree;
      hide NodeOk;
      hide RootsOk;
      hide Closure;
      hide Stopped;
      hide IsPattern;
      hide Progress;
      hide Refused;
      ghost var r, was := p[..i + 1], at.Keys;
      assert p[..i + 2] == r + [q];
      KidsInIndex(at, r);
      child, emplaced := AddBelow(node, r, q, prevEmplaced);
      if child == null {
        NoProgress(stored, p, i, was, prevEmplaced);
      } else {
        assert at.Keys == was + {p[..i + 2]};
        ProgressGoesOn(stored, p, i, was, prevEmplaced, emplaced);
      }
    }

    /** The loop of InsertAttribute and UpsertAttribute: null when the index cannot be extended along the pattern. */
    method Walk(variable: string, qualifiers: seq<Qualifier>) returns (node: Node?, emplaced: bool)
      requires Valid() && IsPattern([StringKey(variable)] + qualifiers)
      modifies this`children, this`at, at.Values
      ensures Tree(at) && RootsOk(children, at) && fresh(at.Values - old(at.Values))
      ensures
        var p: Path := [StringKey(variable)] + qualifiers;
        if node == null then at == old(at) && Stopped(at.Keys, stored, p)
        else
          && p in at && node == at[p] && Progress(stored, p, |p| - 1, at.Keys, emplaced)
          && if emplaced then node.IsFull() else at == old(at)
    {
      hide Bare;
      hide Tree;
      hide NodeOk;
      hide RootsOk;
      hide Closure;
      hide Prefixes;
      hide Overlap;
      hide Stopped;
      hide IsPattern;
      hide Progress;
      hide Refused;
      ghost var p: Path := [StringKey(variable)] + qualifiers;
      ghost var before := at;
      node, emplaced := AddVariable(variable);
      assert p[..1] == [StringKey(variable)];
      ProgressBegins(stored, p, at.Keys, emplaced);
      for i := 0 to |qualifiers|
        invariant Tree(at) && RootsOk(children, at) && fresh(at.Values - before.Values)
        invariant Progress(stored, p, i, at.Keys, emplaced)
        invariant p[..i + 1] in at && node == at[p[..i + 1]]
        invariant if emplaced then node.IsFull() else at == before
      {
        node, emplaced := Descend(node, p, i, qualifiers[i], emplaced);
        if node == null {
          return;
        }
      }
      assert p == p[..|p|];
    }

    // ---------- the operations ----------

    method InsertAttribute(variable: string, qualifiers: seq<Qualifier>) returns (status: Status)
      requires Valid()
      modifies this, at.Values
      ensures Valid() && fresh(at.Values - old(at.Values)) && missed == old(missed)
      ensures
        var p: Path := [StringKey(variable)] + qualifiers;
        if !IsPattern(p) then status == InvalidArgument
        else if exists s :: s in old(stored) && Overlap(s, p) then status == AlreadyExists
        else status == OK
      ensures status == OK ==> stored == old(stored) + {[StringKey(variable)] + qualifiers}
      ensures status == OK ==> attributes == Wrap(old(attributes) + 1)
      ensures status != OK ==> stored == old(stored) && at == old(at) && attributes == old(attributes)
    {
      hide Tree;
      hide RootsOk;
      hide Wrap;
      hide Counted;
      hide Closure;
      hide Prefixes;
      hide Overlap;
      hide Stopped;
      hide Progress;
      hide IsPattern;
      hide ArePatterns;
      hide PairwiseDisjoint;
      ghost var p: Path := [StringKey(variable)] + qualifiers;
      var ok := ValidateAttribute(variable, qualifiers);
      if !ok {
        return InvalidArgument;
      }
      var node, emplaced := Walk(variable, qualifiers);
      if node == null {
        StoppedMeansOverlap(at.Keys, stored, p);
        return AlreadyExists;
      }
      ProgressEnds(old(at).Keys, stored, p, at.Keys, emplaced);
      if !emplaced {
        return AlreadyExists;
      }
      CountMoves(attributes, missed, |stored|, 1);
      attributes := Wrap(attributes + 1);
      stored := stored + {p};
      status := OK;
    }

    /** Counts nothing for a fresh pattern: `missed` says how many. */
    method UpsertAttribute(variable: string, qualifiers: seq<Qualifier>) returns (status: Status)
      requires Valid()
      modifies this, at.Values
      ensures Valid() && fresh(at.Values - old(at.Values))
      ensures status == if IsPattern([StringKey(variable)] + qualifiers) then OK else InvalidArgument
      ensures status == OK ==> stored == Upserted(old(stored), [StringKey(variable)] + qualifiers)
      ensures stored == old(stored) ==> at == old(at) && attributes == old(attributes) && missed == old(missed)
      ensures status != OK ==> stored == old(stored)
      ensures
        var replaced := |Extending(old(stored), [StringKey(variable)] + qualifiers)|;
        stored != old(stored) ==>
          if replaced == 0 then attributes == old(attributes) && missed == old(missed) + 1
          else attributes == Wrap(old(attributes) - replaced + 1) && missed == old(missed)
    {
      hide Tree;
      hide Bare;
      hide QualifierMatches;
      hide RootsOk;
      hide Wrap;
      hide Counted;
      hide Closure;
      hide Prefixes;
      hide Overlap;
      hide Stopped;
      hide Progress;
      hide IsPattern;
      hide ArePatterns;
      hide PairwiseDisjoint;
      hide Covered;
      hide Blocked;
      hide Upserted;
      hide Extending;
      hide Indexes;
      ghost var p: Path := [StringKey(variable)] + qualifiers;
      var ok := ValidateAttribute(variable, qualifiers);
      if !ok {
        return InvalidArgument;
      }
      var node, emplaced := Walk(variable, qualifiers);
      status := OK;
      if node == null {
        StoppedUpserts(at.Keys, stored, p);
        return;
      }
      Settle(node, p, old(at).Keys, emplaced);
    }

    /** The rest of UpsertAttribute, at the node of the pattern. */
    method Settle(node: Node, ghost p: Path, ghost before: set<Path>, emplaced: bool)
      requires Tree(at) && RootsOk(children, at) && Indexes(before, stored) && IsPattern(p) && p != []
      requires attributes < SIZE_LIMIT && Counted(attributes, missed, |stored|)
      requires p in at && node == at[p] && Progress(stored, p, |p| - 1, at.Keys, emplaced)
      requires if emplaced then node.IsFull() else at.Keys == before
      modifies this, at.Values
      ensures Valid() && at.Values <= old(at.Values) && stored == Upserted(old(stored), p)
      ensures stored == old(stored) ==>
        !emplaced && at == old(at) && attributes == old(attributes) && missed == old(missed)
      ensures
        var replaced := |Extending(old(stored), p)|;
        stored != old(stored) ==>
          if replaced == 0 then attributes == old(attributes) && missed == old(missed) + 1
          else attributes == Wrap(old(attributes) - replaced + 1) && missed == old(missed)
    {
      hide Tree;
      hide Bare;
      hide RootsOk;
      hide Wrap;
      hide Counted;
      hide Closure;
      hide Overlap;
      hide Progress;
      hide IsPattern;
      hide Covered;
      hide Blocked;
      hide Upserted;
      hide Extending;
      hide Indexes;
      ProgressEnds(before, stored, p, at.Keys, emplaced);
      if node.children.None? && node.wildcard == null {
        if emplaced {
          StoreUncounted(p);
        } else {
          KidsInIndex(at, p);
          StoredUpserts(at.Keys, stored, p);
        }
        return;
      }
      if !emplaced {
        Replace(node, p);
      }
    }

    /** A fresh pattern is stored, and the counter stays as it is. */
    ghost method StoreUncounted(p: Path)
      requires Tree(at) && RootsOk(children, at) && IsPattern(p) && forall s | s in stored :: !Overlap(s, p)
      requires Indexes(at.Keys, stored + {p}) && |stored + {p}| == |stored| + 1
      requires attributes < SIZE_LIMIT && Counted(attributes, missed, |stored|)
      modifies this`stored, this`missed
      ensures Valid() && stored == Upserted(old(stored), p) == old(stored) + {p} && missed == old(missed) + 1
      ensures |Extending(old(stored), p)| == 0
    {
      hide Tree;
      hide RootsOk;
      hide Counted;
      hide Indexes;
      hide Upserted;
      hide Extending;
      hide Overlap;
      hide IsPattern;
      DisjointUpserts(stored, p);
      OneMoreMissed(attributes, missed, |stored|);
      stored := stored + {p};
      missed := missed + 1;
    }

    /** The last part of UpsertAttribute: what the pattern begins gives way to it. */
    method Replace(node: Node, ghost p: Path)
      requires Valid() && IsPattern(p) && p != [] && p in at && node == at[p] && !node.IsFull()
      modifies this, at.Values
      ensures Valid() && at.Values <= old(at.Values) && missed == old(missed)
      ensures stored == Upserted(old(stored), p) && p !in old(stored) && p in stored
      ensures |Extending(old(stored), p)| > 0
      ensures attributes == Wrap(old(attributes) - |Extending(old(stored), p)| + 1)
    {
      hide RootsOk;
      hide Wrap;
      hide Counted;
      hide Closure;
      hide IsPattern;
      hide ArePatterns;
      hide PairwiseDisjoint;
      hide Covered;
      hide Blocked;
      hide Extending;
      hide LeavesBelow;
      hide Tree;
      hide Indexes;
      hide Pruned;
      hide NodesUnder;
      UnderIsInside(at, p);
      KidsInIndex(at, p);
      SupersetUpserts(at.Keys, stored, p);
      assert p != [];
      RootsStay(children, at, p);
      var count;
      ghost var left;
      count, left := node.RemoveChildren(at, p);
      CountMoves(attributes, missed, |stored|, 1 - count as int);
      WrapOnce(attributes - count, 1);
      attributes := Wrap(attributes - count);
      attributes := Wrap(attributes + 1);
      at := left;
      stored := Upserted(stored, p);
    }

    /** The search of RemoveAttribute, its early returns a null. */
    method Find(variable: string, qualifiers: seq<Qualifier>) returns (variableNode: Node?, node: Node?)
      requires Valid()
      ensures
        var p: Path := [StringKey(variable)] + qualifiers;
        if node == null then p !in stored
        else p in at && node == at[p] && p[..1] in at && variableNode == at[p[..1]]
    {
      hide Tree;
      hide Indexes;
      ghost var p: Path := [StringKey(variable)] + qualifiers;
      assert p[..1] == [StringKey(variable)];
      if StringKey(variable) !in children {
        NotIndexedNotStored(at.Keys, stored, p, 1);
        return null, null;
      }
      variableNode := children[StringKey(variable)];
      node := variableNode;
      for i := 0 to |qualifiers|
        invariant p[..i + 1] in at && node == at[p[..i + 1]]
      {
        assert p[..i + 2] == p[..i + 1] + [qualifiers[i]];
        KidHere(at, p[..i + 1], qualifiers[i]);
        if p[..i + 2] !in at {
          NotIndexedNotStored(at.Keys, stored, p, i + 2);
        }
        if qualifiers[i] == Wildcard {
          if node.wildcard == null {
            return null, null;
          }
          node := node.wildcard;
        } else {
          if node.children.None? {
            return null, null;
          }
          if qualifiers[i] !in node.children.value {
            return null, null;
          }
          node := node.children.value[qualifiers[i]];
        }
      }
      assert p[..|p|] == p;
    }

    method RemoveAttribute(variable: string, qualifiers: seq<Qualifier>) returns (status: Status)
      requires Valid()
      modifies this, at.Values
      ensures Valid() && at.Values <= old(at.Values) && missed == old(missed)
      ensures
        var p: Path := [StringKey(variable)] + qualifiers;
        status == if !IsPattern(p) then InvalidArgument else if p in old(stored) then OK else NotFound
      ensures status == OK ==> stored == old(stored) - {[StringKey(variable)] + qualifiers}
      ensures status == OK ==> attributes == Wrap(old(attributes) - 1)
      ensures status != OK ==> stored == old(stored) && at == old(at) && attributes == old(attributes)
    {
      hide Tree;
      hide Indexes;
      hide Closure;
      hide Wrap;
      hide Counted;
      hide IsPattern;
      hide RootsOk;
      hide Bare;
      ghost var p: Path := [StringKey(variable)] + qualifiers;
      var ok := ValidateAttribute(variable, qualifiers);
      if !ok {
        return InvalidArgument;
      }
      var variableNode, node := Find(variable, qualifiers);
      if node == null {
        return NotFound;
      }
      KidsInIndex(at, p);
      StoredIsBare(at.Keys, stored, p);
      if node.children.Some? || node.wildcard != null {
        return NotFound;
      }
      CountMoves(attributes, missed, |stored|, -1);
      attributes := Wrap(attributes - 1);
      TakeOut(node, variableNode, p);
      status := OK;
    }

    /** Node::Remove on the node of a stored pattern. */
    method Detach(node: Node, ghost p: Path) returns (bare: bool, ghost left: Index)
      requires Tree(at) && Indexes(at.Keys, stored) && p in stored && p != [] && p in at && node == at[p]
      modifies at.Values
      ensures Tree(left) && forall x | x in left :: x in at && left[x] == at[x]
      ensures left.Keys == Closure(stored - {p}) + (if bare then {p[..1]} else {})
      ensures p[..1] in left && (bare ==> p[..1] !in Closure(stored - {p}) && Bare(left.Keys, p[..1]))
      ensures |stored - {p}| == |stored| - 1
    {
      hide Tree;
      hide NodesAbove;
      hide Indexes;
      hide Closure;
      hide Prefixes;
      hide ArePatterns;
      hide PairwiseDisjoint;
      hide Bare;
      RemovedStaysIndexed(at.Keys, stored, p);
      ParentInIndex(at, p);
      AboveIsInside(at, p);
      bare, left := node.Remove(at, stored, p);
    }

    /** The last step of RemoveAttribute. */
    method TakeOut(node: Node, variableNode: Node, ghost p: Path)
      requires Tree(at) && RootsOk(children, at) && Indexes(at.Keys, stored) && p in stored && p != []
      requires p in at && node == at[p] && p[..1] in at && variableNode == at[p[..1]]
      modifies this`children, this`at, this`stored, at.Values
      ensures Tree(at) && RootsOk(children, at) && Indexes(at.Keys, stored) && at.Values <= old(at.Values)
      ensures stored == old(stored) - {p} && |stored| == |old(stored)| - 1
    {
      hide Tree;
      hide IsPattern;
      hide Overlap;
      hide PrefixClosed;
      hide Prefixes;
      hide NodesAbove;
      hide RootsOk;
      hide Indexes;
      hide Closure;
      hide ArePatterns;
      hide PairwiseDisjoint;
      hide Bare;
      RootKey(at, p);
      ghost var left;
      var bare;
      bare, left := Detach(node, p);
      AfterRemoval(children, at, left, stored, p, bare);
      if bare {
        left := left - {p[..1]};
        children := children - {variableNode.key};
      }
      at := left;
      stored := stored - {p};
    }

    // ---------- matching and listing ----------

    method MatchVariable(variable: string) returns (found: Node?)
      requires Valid()
      ensures found == if [StringKey(variable)] in at then at[[StringKey(variable)]] else null
    {
      if variable != "" {
        if StringKey(variable) in children {
          return children[StringKey(variable)];
        }
      }
      VariablesAreNamed(at.Keys, stored);
      return null;
    }

    /** Null, inner or leaf as no stored pattern, only a longer one, or one of the attribute's length matches. */
    method MatchAttribute(variable: string, qualifiers: seq<Qualifier>) returns (found: Node?)
      requires Valid() && Wildcard !in qualifiers
      ensures GetType(found) == StepMatch(stored, [StringKey(variable)] + qualifiers)
      ensures found != null ==> found in at.Values
    {
      hide Tree;
      hide RootsOk;
      hide Indexes;
      hide StepMatch;
      ghost var a: Path := [StringKey(variable)] + qualifiers;
      found := MatchVariable(variable);
      ghost var w := [StringKey(variable)];
      FirstPlace(at.Keys, stored, a);
      for i := 0 to |qualifiers|
        invariant found == null ==> StepMatch(stored, a) == NoMatch
        invariant found != null ==> w in at && found == at[w] && |w| == i + 1 && MatchesUpTo(w, a, i + 1)
      {
        assert a[i + 1] == qualifiers[i];
        if qualifiers[i] == Invalid {
          InvalidNeverMatches(stored, a, i + 1);
          return null;
        }
        if found == null {
          break;
        }
        MatchStep(at, stored, a, w);
        found := found.MatchQualifier(qualifiers[i]);
        w := if w + [qualifiers[i]] in at then w + [qualifiers[i]] else w + [Wildcard];
      }
      if found != null {
        KidsInIndex(at, w);
        LastPlace(at.Keys, stored, a, w);
      }
    }

    method ClearAttributes()
      requires Valid()
      modifies this
      ensures Valid() && stored == {} && children == map[] && attributes == 0 && missed == 0
    {
      children := map[];
      attributes := 0;
      at := map[];
      stored := {};
      missed := 0;
    }

    method HasAttributes() returns (any: bool)
      requires Valid()
      ensures any <==> stored != {}
    {
      any := children != map[];
      SomeVariable(at.Keys, stored);
      if any {
        var q :| q in children;
        assert [q] in at;
      }
    }

    /** One more variable's patterns. */
    method CollectOne(collector: AttributeCollector, q: Qualifier, ghost done: set<Qualifier>)
      requires Tree(at) && RootsOk(children, at) && q in children && q.StringKey? && q !in done
      requires multiset(collector.result) == multiset(LeavesThrough(at.Keys, [], done))
      modifies collector
      ensures multiset(collector.result) == multiset(LeavesThrough(at.Keys, [], done + {q}))
    {
      hide Tree;
      hide Leaves;
      hide LeavesThrough;
      OneMoreKey(at.Keys, [], done, q);
      assert [] + [q] == [q];
      collector.CollectVariable(at, q.s, children[q]);
    }

    /**
     * Reserves as many places as the counter says, which fails when that is more than a vector can ever hold
     * (`maxSize`); else lists each stored pattern once.
     */
    method GetAttributes(maxSize: nat) returns (patterns: Option<seq<Path>>)
      requires Valid()
      ensures patterns.Some? <==> attributes <= maxSize
      ensures patterns.Some? ==> multiset(patterns.value) == multiset(stored)
    {
      hide ArePatterns;
      hide Leaves;
      hide Tree;
      hide Indexes;
      hide LeavesThrough;
      var collector := new AttributeCollector();
      var reserved := collector.Reserve(attributes, maxSize);
      if !reserved {
        return None;
      }
      var todo := children.Keys;
      ghost var done: set<Qualifier> := {};
      NothingThrough(at.Keys, []);
      while todo != {}
        invariant todo <= children.Keys && done == children.Keys - todo
        invariant fresh(collector)
        invariant multiset(collector.result) == multiset(LeavesThrough(at.Keys, [], done))
        decreases |todo|
      {
        var q :| q in todo;
        VariableIsString(at.Keys, stored, q);
        CollectOne(collector, q, done);
        todo := todo - {q};
        done := done + {q};
      }
      StoredThroughVariables(at.Keys, stored, done);
      patterns := Some(collector.result);
    }
  }

  /** The patterns met so far, and the qualifiers on the way to the node at hand. */
  class AttributeCollector {
    var result: seq<Path>
    var capacity: nat
    var variable: string
    var qualifiers: seq<Qualifier>

    constructor ()
      ensures result == []
    {
      result := [];
      capacity := 0;
      variable := "";
      qualifiers := [];
    }

    /** std::vector::reserve, which throws length_error for more than the greatest possible size. */
    method Reserve(capacity: nat, maxSize: nat) returns (ok: bool)
      modifies this`capacity
      ensures ok <==> capacity <= maxSize
      ensures ok ==> this.capacity >= capacity
    {
      ok := capacity <= maxSize;
      if ok && this.capacity < capacity {
        this.capacity := capacity;
      }
    }

    method CollectVariable(ghost at: Index, variable: string, node: Node)
      requires Tree(at) && [StringKey(variable)] in at && node == at[[StringKey(variable)]]
      modifies this
      ensures multiset(result) == multiset(old(result)) + multiset(Leaves(at.Keys, [StringKey(variable)]))
    {
      ghost var p: Path := [StringKey(variable)];
      KidsInIndex(at, p);
      if node.children.None? && node.wildcard == null {
        NothingBelow(at, p);
        result := result + [[StringKey(variable)]];
        return;
      }
      NotALeaf(at, p);
      this.variable := variable;
      qualifiers := [];
      CollectBelow(at, p, node);
    }

    method CollectQualifier(ghost at: Index, ghost p: Path, qualifier: Qualifier, node: Node)
      requires Tree(at) && p in at && node == at[p]
      requires p == [StringKey(variable)] + qualifiers + [qualifier]
      modifies this
      ensures variable == old(variable) && qualifiers == old(qualifiers)
      ensures multiset(result) == multiset(old(result)) + multiset(Leaves(at.Keys, p))
      decreases |Under(at, p)|, 2
    {
      qualifiers := qualifiers + [qualifier];
      assert p == [StringKey(variable)] + qualifiers;
      KidsInIndex(at, p);
      if node.children.None? && node.wildcard == null {
        NothingBelow(at, p);
        result := result + [[StringKey(variable)] + qualifiers];
      } else {
        NotALeaf(at, p);
        CollectBelow(at, p, node);
      }
      qualifiers := qualifiers[..|qualifiers| - 1];
    }

    /** The loops over a node's children that CollectVariable and CollectQualifier share. */
    method CollectBelow(ghost at: Index, ghost p: Path, node: Node)
      requires Tree(at) && p in at && node == at[p]
      requires p == [StringKey(variable)] + qualifiers
      modifies this
      ensures variable == old(variable) && qualifiers == old(qualifiers)
      ensures multiset(result) == multiset(old(result)) + multiset(LeavesBelow(at.Keys, p))
      decreases |Under(at, p)|, 1
    {
      hide Tree;
      hide Leaves;
      hide LeavesThrough;
      hide LeavesBelow;
      hide Under;
      hide PrefixClosed;
      ghost var before := multiset(result);
      ghost var done: set<Qualifier> := {};
      NothingThrough(at.Keys, p);
      if node.children.Some? {
        var todo := node.children.value.Keys;
        while todo != {}
          invariant todo <= node.children.value.Keys && done == node.children.value.Keys - todo
          invariant variable == old(variable) && qualifiers == old(qualifiers)
          invariant multiset(result) == before + multiset(LeavesThrough(at.Keys, p, done))
          decreases |todo|
        {
          var q :| q in todo;
          KidHere(at, p, q);
          CollectChild(at, p, q, node.children.value[q], done, before);
          todo := todo - {q};
          done := done + {q};
        }
      }
      KidHere(at, p, Wildcard);
      ChildKeys(at, p);
      if node.wildcard != null {
        CollectChild(at, p, Wildcard, node.wildcard, done, before);
        done := done + {Wildcard};
      }
      AllKeys(at.Keys, p, done);
    }

    /** One more child's leaves. */
    method CollectChild(
        ghost at: Index, ghost p: Path, q: Qualifier, child: Node,
        ghost done: set<Qualifier>, ghost before: multiset<Path>)
      requires Tree(at) && p in at && p + [q] in at && child == at[p + [q]] && q !in done
      requires p == [StringKey(variable)] + qualifiers
      requires multiset(result) == before + multiset(LeavesThrough(at.Keys, p, done))
      modifies this
      ensures variable == old(variable) && qualifiers == old(qualifiers)
      ensures multiset(result) == before + multiset(LeavesThrough(at.Keys, p, done + {q}))
      decreases |Under(at, p)|, 0
    {
      hide Tree;
      hide Leaves;
      hide LeavesThrough;
      hide Under;
      FewerUnder(at, p, q);
      OneMoreKey(at.Keys, p, done, q);
      CollectQualifier(at, p + [q], q, child);
    }
  }

  /** Taking out what was just put in gives back the very matcher there was. */
  method InsertThenRemove(m: AttributeMatcher, variable: string, qualifiers: seq<Qualifier>)
    returns (inserted: Status, removed: Status)
    requires m.Valid()
    modifies m, m.at.Values
    ensures m.Valid() && (inserted == OK ==> removed == OK)
    ensures inserted == OK ==> m.at.Keys == old(m.at).Keys && m.stored == old(m.stored)
    ensures inserted == OK ==> m.attributes == old(m.attributes) && m.missed == old(m.missed)
  {
    hide Tree;
    hide IsPattern;
    hide Overlap;
    hide Wrap;
    hide Counted;
    ghost var p: Path := [StringKey(variable)] + qualifiers;
    ghost var before := m.stored;
    OverlapsItself(p);
    InsertedGoes(before, p);
    inserted := m.InsertAttribute(variable, qualifiers);
    removed := m.RemoveAttribute(variable, qualifiers);
    WrapOnce(old(m.attributes) + 1, -1);
  }
}
