/**
 * Attributes, attribute patterns and their matching (base/attribute.h), and the facts about finite
 * sets of patterns that the matcher's index rests on.
 */
module PatternSets {
  // `Invalid` is the variant's empty alternative; only patterns hold `Wildcard`.
  datatype Qualifier =
    | Invalid
    | IntKey(i: int)
    | UintKey(u: nat)
    | StringKey(s: string)
    | BoolKey(b: bool)
    | Wildcard

  /** A variable, as its string key, followed by qualifiers. */
  type Path = seq<Qualifier>

  datatype MatchType = NoMatch | Partial | Full

  /** AttributeQualifierPattern::IsMatch. The empty alternative equals nothing, itself included. */
  predicate QualifierMatches(pattern: Qualifier, q: Qualifier) {
    pattern != Invalid && q != Invalid && (pattern == Wildcard || pattern == q)
  }

  predicate MatchesUpTo(pattern: Path, attribute: Path, n: nat)
    requires n <= |pattern| && n <= |attribute|
  {
    forall i | 0 <= i < n :: QualifierMatches(pattern[i], attribute[i])
  }

  /** AttributePattern::IsMatch: full when the pattern covers the attribute or a part it starts with. */
  function IsMatch(pattern: Path, attribute: Path): MatchType {
    if |pattern| <= |attribute| then
      if MatchesUpTo(pattern, attribute, |pattern|) then Full else NoMatch
    else
      if MatchesUpTo(pattern, attribute, |attribute|) then Partial else NoMatch
  }

  /** The attributes the matcher is asked about: a variable and valid, concrete qualifiers. */
  predicate IsAttribute(a: Path) {
    && |a| > 0 && a[0].StringKey? && a[0].s != ""
    && forall i | 0 <= i < |a| :: a[i] != Invalid && a[i] != Wildcard
  }

  /** ValidateAttribute: a named variable, no empty qualifier, a wildcard only at the end. */
  predicate IsPattern(p: Path) {
    && |p| > 0 && p[0].StringKey? && p[0].s != ""
    && forall i | 0 < i < |p| :: p[i] != Invalid && (p[i] == Wildcard ==> i == |p| - 1)
  }

  predicate ArePatterns(stored: set<Path>) {
    forall s | s in stored :: IsPattern(s)
  }

  /** Position by position, some attribute fits both as far as both go. */
  predicate Overlap(p: Path, q: Path) {
    forall i | 0 <= i < |p| && i < |q| :: p[i] == q[i] || p[i] == Wildcard || q[i] == Wildcard
  }

  predicate PairwiseDisjoint(stored: set<Path>) {
    forall s, t | s in stored && t in stored && s != t :: !Overlap(s, t)
  }

  /** Every attribute `q` fully matches is fully matched by `p`. */
  predicate Covers(p: Path, q: Path) {
    |p| <= |q| && forall i | 0 <= i < |p| :: p[i] == q[i] || p[i] == Wildcard
  }

  predicate FullyMatched(stored: set<Path>, a: Path) {
    exists s :: s in stored && IsMatch(s, a) == Full
  }

  /** PARTIAL is the answer exactly when the attribute is shorter and can be lengthened to a full match. */
  lemma PartialMeansLonger(p: Path, a: Path)
    ensures IsMatch(p, a) == Partial && Invalid !in p <==> |a| < |p| && exists b :: IsMatch(p, a + b) == Full
  {
    if IsMatch(p, a) == Partial && Invalid !in p {
      var b := seq(|p| - |a|, i requires 0 <= i < |p| - |a| =>
        if p[|a| + i] == Wildcard then IntKey(0) else p[|a| + i]);
      assert forall i | 0 <= i < |p| :: p[i] in p;
      assert IsMatch(p, a + b) == Full;
    }
    if |a| < |p| && exists b :: IsMatch(p, a + b) == Full {
      var b :| IsMatch(p, a + b) == Full;
      assert MatchesUpTo(p, a + b, |p|);
      assert forall i | 0 <= i < |a| :: QualifierMatches(p[i], (a + b)[i]) && (a + b)[i] == a[i];
      assert forall i | 0 <= i < |p| :: QualifierMatches(p[i], (a + b)[i]);
    }
  }

  /** Two patterns overlap exactly when one attribute is fully matched by both. */
  lemma OverlapIsACommonMatch(p: Path, q: Path)
    requires IsPattern(p) && IsPattern(q)
    ensures Overlap(p, q) <==> exists a :: IsAttribute(a) && IsMatch(p, a) == Full && IsMatch(q, a) == Full
  {
    if Overlap(p, q) {
      var n := if |p| >= |q| then |p| else |q|;
      var a := seq(n, i requires 0 <= i < n =>
        if i < |p| && p[i] != Wildcard then p[i]
        else if i < |q| && q[i] != Wildcard then q[i]
        else IntKey(0));
      assert IsMatch(p, a) == Full && IsMatch(q, a) == Full;
      assert IsAttribute(a);
    }
  }

  // ---------- the paths of the index: all beginnings of stored patterns ----------

  ghost function Prefixes(p: Path): set<Path> {
    set k | 1 <= k <= |p| :: p[..k]
  }

  ghost function Closure(stored: set<Path>): set<Path> {
    set s, k | s in stored && 1 <= k <= |s| :: s[..k]
  }

  /** `p` begins a stored pattern. */
  lemma InClosure(stored: set<Path>, p: Path)
    ensures p in Closure(stored) <==> p != [] && exists s :: s in stored && p <= s
  {
    if p in Closure(stored) {
      var s, k :| s in stored && 1 <= k <= |s| && p == s[..k];
      assert p <= s;
    }
    if p != [] && exists s :: s in stored && p <= s {
      var s :| s in stored && p <= s;
      assert p == s[..|p|];
    }
  }

  lemma ClosureAdd(stored: set<Path>, p: Path)
    ensures Closure(stored + {p}) == Closure(stored) + Prefixes(p)
  {
  }

  /** In the index of disjoint patterns a wildcard and a concrete key never stand side by side. */
  lemma NeverBoth(stored: set<Path>, p: Path, q: Qualifier)
    requires ArePatterns(stored) && PairwiseDisjoint(stored)
    requires p + [Wildcard] in Closure(stored) && q != Wildcard && p != []
    ensures p + [q] !in Closure(stored)
  {
    InClosure(stored, p + [Wildcard]);
    InClosure(stored, p + [q]);
    var s :| s in stored && p + [Wildcard] <= s;
    assert s[|p|] == Wildcard;
    assert s == p + [Wildcard];
    if p + [q] in Closure(stored) {
      var t :| t in stored && p + [q] <= t;
      assert t[|p|] == q;
      assert Overlap(s, t);
    }
  }

  /** The leaves of the index are exactly the stored patterns; wildcards are among them. */
  lemma LeavesAreStored(stored: set<Path>, p: Path)
    requires ArePatterns(stored) && PairwiseDisjoint(stored)
    requires p in Closure(stored)
    ensures p in stored <==> forall q :: p + [q] !in Closure(stored)
    ensures p[|p| - 1] == Wildcard && |p| > 1 ==> p in stored
  {
    InClosure(stored, p);
    var s :| s in stored && p <= s;
    if p in stored {
      forall q ensures p + [q] !in Closure(stored) {
        InClosure(stored, p + [q]);
        if p + [q] in Closure(stored) {
          var t :| t in stored && p + [q] <= t;
          assert Overlap(p, t);
        }
      }
    } else {
      assert p == s[..|p|] && s == s[..|s|];
      assert p + [s[|p|]] == s[..|p| + 1];
      InClosure(stored, p + [s[|p|]]);
      assert s[|p| - 1] == p[|p| - 1];
    }
  }

  // ---------- insertion ----------

  /** Where a walk along `p` stops short: the beginning `p[..i]` is in the index and lets no step further. */
  predicate Stuck(stored: set<Path>, p: Path, i: nat)
    requires 0 < i < |p|
  {
    || p[..i] in stored
    || (p[i] != Wildcard && p[..i] + [Wildcard] in stored)
    || (p[i] == Wildcard && exists s :: s in stored && |s| > i && s[..i] == p[..i] && s[i] != Wildcard)
  }

  /** Somewhere in the index the way of `p` cannot go on. */
  predicate Stopped(index: set<Path>, stored: set<Path>, p: Path) {
    exists i :: 0 < i < |p| && p[..i] in index && Stuck(stored, p, i)
  }

  /** Why no node for `q` can be had below the place `p`: a leaf met, a wildcard over keys, a key under a wildcard. */
  ghost predicate Refused(index: set<Path>, p: Path, q: Qualifier, isNew: bool) {
    || (!isNew && forall r :: p + [r] !in index)
    || (q != Wildcard && p + [Wildcard] in index)
    || (q == Wildcard && exists r :: r != Wildcard && p + [r] in index)
  }

  /** A walk stops short exactly where the index has no room for the next step. */
  lemma StuckInIndex(stored: set<Path>, p: Path, i: nat)
    requires ArePatterns(stored) && PairwiseDisjoint(stored)
    requires 0 < i < |p| && p[..i] in Closure(stored)
    ensures Stuck(stored, p, i) <==> Refused(Closure(stored), p[..i], p[i], false)
  {
    LeavesAreStored(stored, p[..i]);
    if p[..i] + [Wildcard] in Closure(stored) {
      LeavesAreStored(stored, p[..i] + [Wildcard]);
    }
    InClosure(stored, p[..i] + [Wildcard]);
    forall r | r != Wildcard && p[..i] + [r] in Closure(stored)
      ensures exists s :: s in stored && |s| > i && s[..i] == p[..i] && s[i] != Wildcard
    {
      InClosure(stored, p[..i] + [r]);
      var s :| s in stored && p[..i] + [r] <= s;
      assert s[..i] == (p[..i] + [r])[..i] == p[..i];
    }
    forall s | s in stored && |s| > i && s[..i] == p[..i] ensures p[..i] + [s[i]] in Closure(stored) {
      assert s[..i + 1] == p[..i] + [s[i]];
    }
  }

  lemma StuckMeansOverlap(stored: set<Path>, p: Path, i: nat)
    requires IsPattern(p) && ArePatterns(stored) && 0 < i < |p| && Stuck(stored, p, i)
    ensures exists s :: s in stored && Overlap(s, p)
  {
    if p[..i] in stored {
      assert Overlap(p[..i], p);
    } else if p[i] != Wildcard {
      assert Overlap(p[..i] + [Wildcard], p);
    } else {
      var s :| s in stored && |s| > i && s[..i] == p[..i] && s[i] != Wildcard;
      assert i == |p| - 1;
      forall k | 0 <= k < |s| && k < |p| ensures s[k] == p[k] || p[k] == Wildcard {
        if k < i { assert s[..i][k] == p[..i][k]; }
      }
      assert Overlap(s, p);
    }
  }

  lemma StoppedMeansOverlap(index: set<Path>, stored: set<Path>, p: Path)
    requires IsPattern(p) && ArePatterns(stored) && Stopped(index, stored, p)
    ensures exists s :: s in stored && Overlap(s, p)
  {
    hide IsPattern;
    hide ArePatterns;
    hide Overlap;
    var i :| 0 < i < |p| && p[..i] in index && Stuck(stored, p, i);
    StuckMeansOverlap(stored, p, i);
  }

  lemma SamePattern(stored: set<Path>, s: Path, t: Path)
    requires PairwiseDisjoint(stored) && s in stored && t in stored && Overlap(s, t)
    ensures s == t
  {
  }

  lemma AgreeOrOverlap(p: Path, i: nat, s: Path, t: Path)
    requires IsPattern(p) && IsPattern(s) && 0 < i < |p| && p[..i] <= t
    requires i - 1 <= |s| && s[..i - 1] == p[..i - 1] && Overlap(s, p)
    ensures (i <= |s| && s[..i] == p[..i]) || Overlap(s, t)
  {
    forall k | 0 <= k < i - 1 ensures s[k] == t[k] {
      assert s[..i - 1][k] == p[..i - 1][k] && t[k] == p[..i][k];
    }
    if i <= |s| && s[i - 1] == p[i - 1] {
      assert s[..i] == s[..i - 1] + [s[i - 1]] && p[..i] == p[..i - 1] + [p[i - 1]];
    }
  }

  /** A stored pattern that overlaps `p` agrees with it along the beginning of `p` in the index. */
  lemma {:induction false} AgreesInIndex(stored: set<Path>, p: Path, i: nat, s: Path)
    requires IsPattern(p) && ArePatterns(stored) && PairwiseDisjoint(stored)
    requires s in stored && Overlap(s, p)
    requires i < |p| && (i > 0 ==> p[..i] in Closure(stored))
    ensures i <= |s| && s[..i] == p[..i]
    decreases i
  {
    if i > 0 {
      InClosure(stored, p[..i]);
      var t :| t in stored && p[..i] <= t;
      assert p[..i - 1] == p[..i][..i - 1] && p[..i - 1] <= t;
      InClosure(stored, p[..i - 1]);
      AgreesInIndex(stored, p, i - 1, s);
      AgreeOrOverlap(p, i, s, t);
      if Overlap(s, t) {
        SamePattern(stored, s, t);
      }
    }
  }

  /** A stored pattern that overlaps `p` keeps the walk inside the index, or stops it. */
  lemma OverlapStaysInside(stored: set<Path>, p: Path, i: nat, s: Path)
    requires IsPattern(p) && ArePatterns(stored) && PairwiseDisjoint(stored)
    requires s in stored && Overlap(s, p)
    requires i < |p| && (i > 0 ==> p[..i] in Closure(stored))
    ensures p[..i + 1] in Closure(stored) || (i > 0 && Stuck(stored, p, i))
  {
    AgreesInIndex(stored, p, i, s);
    if |s| == i {
      assert s == p[..i];
    } else if s[i] == p[i] {
      assert s[..i + 1] == s[..i] + [s[i]] == p[..i] + [p[i]] == p[..i + 1];
      InClosure(stored, p[..i + 1]);
    } else if s[i] == Wildcard {
      assert s == s[..i] + [Wildcard] == p[..i] + [Wildcard];
    }
  }

  /** A walk that goes on where the index ends meets no stored pattern. */
  lemma NothingOverlaps(stored: set<Path>, p: Path, i: nat)
    requires IsPattern(p) && ArePatterns(stored) && PairwiseDisjoint(stored)
    requires i < |p| && p[..i + 1] !in Closure(stored)
    requires i > 0 ==> p[..i] in Closure(stored) && !Stuck(stored, p, i)
    ensures forall s | s in stored :: !Overlap(s, p)
  {
    forall s | s in stored ensures !Overlap(s, p) {
      if Overlap(s, p) {
        OverlapStaysInside(stored, p, i, s);
      }
    }
  }

  lemma IndexedMeansOverlap(stored: set<Path>, p: Path)
    requires p in Closure(stored)
    ensures exists s :: s in stored && Overlap(s, p)
  {
    InClosure(stored, p);
    var s :| s in stored && p <= s;
    assert Overlap(s, p);
  }

  /** A pattern that overlaps none of the stored ones can join them. */
  lemma DisjointJoins(stored: set<Path>, p: Path)
    requires IsPattern(p) && ArePatterns(stored) && PairwiseDisjoint(stored)
    requires forall s | s in stored :: !Overlap(s, p)
    ensures p !in stored && |stored + {p}| == |stored| + 1
    ensures ArePatterns(stored + {p}) && PairwiseDisjoint(stored + {p})
  {
    assert Overlap(p, p);
    forall s ensures Overlap(p, s) == Overlap(s, p) {
    }
  }

  /** The index a matcher that stores these patterns keeps. */
  ghost predicate Indexes(index: set<Path>, stored: set<Path>) {
    ArePatterns(stored) && PairwiseDisjoint(stored) && index == Closure(stored)
  }

  /** How far a walk along `p` has come, and what making a new node on the way has shown. */
  ghost predicate Progress(stored: set<Path>, p: Path, i: nat, index: set<Path>, emplaced: bool)
    requires i < |p|
  {
    && p[..i + 1] in index
    && index == (if emplaced then Closure(stored) + Prefixes(p[..i + 1]) else Closure(stored))
    && (emplaced ==> forall s | s in stored :: !Overlap(s, p))
  }

  lemma ProgressBegins(stored: set<Path>, p: Path, index: set<Path>, emplaced: bool)
    requires IsPattern(p) && ArePatterns(stored) && PairwiseDisjoint(stored)
    requires emplaced <==> p[..1] !in Closure(stored)
    requires index == Closure(stored) + {p[..1]}
    ensures Progress(stored, p, 0, index, emplaced)
  {
    if emplaced {
      NothingOverlaps(stored, p, 0);
      SinglePrefix(p[..1]);
    }
  }

  /** A fresh node on the way makes every later one fresh. */
  lemma ProgressGoesOn(stored: set<Path>, p: Path, i: nat, index: set<Path>, was: bool, emplaced: bool)
    requires IsPattern(p) && ArePatterns(stored) && PairwiseDisjoint(stored)
    requires i + 1 < |p| && Progress(stored, p, i, index, was)
    requires was ==> forall q :: p[..i + 1] + [q] !in index
    requires !Refused(index, p[..i + 1], p[i + 1], was)
    requires emplaced <==> p[..i + 2] !in index
    ensures Progress(stored, p, i + 1, index + {p[..i + 2]}, emplaced)
  {
    hide Closure;
    hide Overlap;
    hide Refused;
    hide Stuck;
    hide Prefixes;
    hide IsPattern;
    hide ArePatterns;
    hide PairwiseDisjoint;
    var r := p[..i + 1];
    assert p[..i + 2] == r + [p[i + 1]] && p[..i + 2][..i + 1] == r;
    PrefixesOf(p[..i + 2]);
    if !was {
      StuckInIndex(stored, p, i + 1);
      if emplaced {
        NothingOverlaps(stored, p, i + 1);
        PrefixesStay(stored, r);
      }
    }
  }

  lemma NoProgress(stored: set<Path>, p: Path, i: nat, index: set<Path>, was: bool)
    requires ArePatterns(stored) && PairwiseDisjoint(stored)
    requires i + 1 < |p| && Progress(stored, p, i, index, was)
    requires was ==> forall q :: p[..i + 1] + [q] !in index
    requires Refused(index, p[..i + 1], p[i + 1], was)
    ensures !was && Stopped(index, stored, p)
  {
    hide Closure;
    StuckInIndex(stored, p, i + 1);
  }

  /** A walk that has come to its end has made room for its pattern, or found it begun. */
  lemma ProgressEnds(before: set<Path>, stored: set<Path>, p: Path, index: set<Path>, emplaced: bool)
    requires IsPattern(p) && Indexes(before, stored)
    requires Progress(stored, p, |p| - 1, index, emplaced)
    ensures emplaced ==> Indexes(index, stored + {p}) && |stored + {p}| == |stored| + 1 && p !in stored
    ensures emplaced <==> forall s | s in stored :: !Overlap(s, p)
  {
    assert p[..|p|] == p;
    if emplaced {
      DisjointJoins(stored, p);
      ClosureAdd(stored, p);
    } else {
      IndexedMeansOverlap(stored, p);
    }
  }

  // ---------- matching ----------

  /**
   * What stepping through the index along `a` can tell: a stored pattern as long as `a` that matches,
   * or a longer one whose beginning does. A shorter pattern is stepped past.
   */
  ghost function StepMatch(stored: set<Path>, a: Path): MatchType {
    if exists s :: s in stored && |s| == |a| && MatchesUpTo(s, a, |a|) then Full
    else if exists s :: s in stored && |s| > |a| && MatchesUpTo(s, a, |a|) then Partial
    else NoMatch
  }

  /** The index leads along an attribute to one place at most. */
  lemma {:induction false} OnePlace(stored: set<Path>, a: Path, u: Path, v: Path)
    requires ArePatterns(stored) && PairwiseDisjoint(stored)
    requires u in Closure(stored) && v in Closure(stored) && |u| == |v| <= |a|
    requires MatchesUpTo(u, a, |u|) && MatchesUpTo(v, a, |v|)
    ensures u == v
    decreases |u|
  {
    InClosure(stored, u);
    InClosure(stored, v);
    var k := |u| - 1;
    assert u == u[..k] + [u[k]] && v == v[..k] + [v[k]];
    if k > 0 {
      PrefixStays(stored, u, k);
      PrefixStays(stored, v, k);
      OnePlace(stored, a, u[..k], v[..k]);
      if u[k] == Wildcard && v[k] != Wildcard {
        NeverBoth(stored, u[..k], v[k]);
      } else if v[k] == Wildcard && u[k] != Wildcard {
        NeverBoth(stored, u[..k], u[k]);
      }
    }
  }

  lemma PrefixStays(stored: set<Path>, u: Path, k: nat)
    requires u in Closure(stored) && 1 <= k <= |u|
    ensures u[..k] in Closure(stored)
  {
    InClosure(stored, u);
    InClosure(stored, u[..k]);
    var s :| s in stored && u <= s;
    assert u[..k] <= s;
  }

  lemma PrefixesStay(stored: set<Path>, u: Path)
    requires u in Closure(stored)
    ensures Prefixes(u) <= Closure(stored)
  {
    forall x | x in Prefixes(u) ensures x in Closure(stored) {
      PrefixStays(stored, u, |x|);
    }
  }

  /** The place reached for all of `a` decides the answer: full at a leaf, partial inside. */
  lemma PlaceDecides(stored: set<Path>, a: Path, w: Path)
    requires ArePatterns(stored) && PairwiseDisjoint(stored)
    requires w in Closure(stored) && |w| == |a| && MatchesUpTo(w, a, |a|)
    ensures StepMatch(stored, a) == if w in stored then Full else Partial
  {
    InClosure(stored, w);
    var t :| t in stored && w <= t;
    assert w == t[..|w|] && t == t[..|t|];
    assert MatchesUpTo(t, a, |a|);
    forall s | s in stored && |s| == |a| && MatchesUpTo(s, a, |a|) ensures s == w {
      assert s == s[..|s|];
      OnePlace(stored, a, s, w);
    }
  }

  /** With no place left for the first `i` keys there is no match. */
  lemma NoPlaceNoMatch(stored: set<Path>, a: Path, i: nat)
    requires 1 <= i <= |a|
    requires forall u | u in Closure(stored) && |u| == i :: !MatchesUpTo(u, a, i)
    ensures StepMatch(stored, a) == NoMatch
  {
    forall s | s in stored && |s| >= |a| ensures !MatchesUpTo(s, a, |a|) {
      assert s[..i] in Closure(stored);
      assert !MatchesUpTo(s[..i], a, i);
    }
  }

  /** Where the next step leads from the place `w`: by key if there are keys, else by wildcard. */
  lemma NextPlace(stored: set<Path>, a: Path, w: Path, u: Path)
    requires ArePatterns(stored) && PairwiseDisjoint(stored)
    requires w in Closure(stored) && |w| < |a| && MatchesUpTo(w, a, |w|)
    requires u in Closure(stored) && |u| == |w| + 1 && MatchesUpTo(u, a, |u|)
    ensures u == w + [a[|w|]] || u == w + [Wildcard]
    ensures u == w + [Wildcard] && a[|w|] != Wildcard ==> forall q | q != Wildcard :: w + [q] !in Closure(stored)
  {
    PrefixStays(stored, u, |w|);
    OnePlace(stored, a, w, u[..|w|]);
    assert u == u[..|w|] + [u[|w|]];
    if u == w + [Wildcard] {
      forall q | q != Wildcard ensures w + [q] !in Closure(stored) {
        NeverBoth(stored, w, q);
      }
    }
  }

  /** Some stored pattern fully matches exactly when stepping along some beginning of `a` ends at a leaf. */
  lemma StepsFindFullMatches(stored: set<Path>, a: Path)
    requires ArePatterns(stored)
    ensures FullyMatched(stored, a) <==> exists k :: 1 <= k <= |a| && StepMatch(stored, a[..k]) == Full
  {
    if FullyMatched(stored, a) {
      var s :| s in stored && IsMatch(s, a) == Full;
      assert MatchesUpTo(s, a[..|s|], |s|);
      assert StepMatch(stored, a[..|s|]) == Full;
    }
    forall k | 1 <= k <= |a| && StepMatch(stored, a[..k]) == Full ensures FullyMatched(stored, a) {
      var s :| s in stored && |s| == k && MatchesUpTo(s, a[..k], k);
      assert MatchesUpTo(s, a, k) && IsMatch(s, a) == Full;
    }
  }

  lemma VariablesAreNamed(index: set<Path>, stored: set<Path>)
    requires Indexes(index, stored)
    ensures [StringKey("")] !in index
  {
    InClosure(stored, [StringKey("")]);
  }

  lemma VariableIsString(index: set<Path>, stored: set<Path>, q: Qualifier)
    requires Indexes(index, stored) && [q] in index
    ensures q.StringKey?
  {
    InClosure(stored, [q]);
  }

  lemma FirstPlace(index: set<Path>, stored: set<Path>, a: Path)
    requires Indexes(index, stored) && a != [] && a[0].StringKey?
    ensures if [a[0]] in index then MatchesUpTo([a[0]], a, 1) else StepMatch(stored, a) == NoMatch
  {
    if [a[0]] !in index {
      forall u | u in index && |u| == 1 ensures !MatchesUpTo(u, a, 1) {
        InClosure(stored, u);
        assert u == [u[0]];
      }
      NoPlaceNoMatch(stored, a, 1);
    }
  }

  lemma LastPlace(index: set<Path>, stored: set<Path>, a: Path, w: Path)
    requires Indexes(index, stored) && w in index && |w| == |a| && MatchesUpTo(w, a, |a|)
    ensures StepMatch(stored, a) == if Bare(index, w) then Full else Partial
  {
    PlaceDecides(stored, a, w);
    StoredIsBare(index, stored, w);
  }

  lemma InvalidNeverMatches(stored: set<Path>, a: Path, i: nat)
    requires i < |a| && a[i] == Invalid
    ensures StepMatch(stored, a) == NoMatch
  {
    forall s | s in stored && |s| >= |a| ensures !MatchesUpTo(s, a, |a|) {
      assert !QualifierMatches(s[i], a[i]);
    }
  }

  // ---------- upsertion ----------

  predicate Covered(stored: set<Path>, p: Path) {
    exists s :: s in stored && Covers(s, p)
  }

  /** The final wildcard of `p` meets a place that has concrete keys. */
  predicate Blocked(stored: set<Path>, p: Path)
    requires p != []
  {
    p[|p| - 1] == Wildcard &&
    exists s :: s in stored && |s| >= |p| && s[..|p| - 1] == p[..|p| - 1] && s[|p| - 1] != Wildcard
  }

  ghost function Extending(stored: set<Path>, p: Path): set<Path> {
    set s | s in stored && p <= s
  }

  /** What UpsertAttribute leaves stored. */
  ghost function Upserted(stored: set<Path>, p: Path): set<Path>
    requires p != []
  {
    if Covered(stored, p) || Blocked(stored, p) then stored
    else stored - Extending(stored, p) + {p}
  }

  /** An uncovered, unblocked pattern overlaps only what it extends to, so replacing that keeps all disjoint. */
  lemma UpsertedStaysDisjoint(stored: set<Path>, p: Path)
    requires IsPattern(p) && ArePatterns(stored) && PairwiseDisjoint(stored)
    ensures ArePatterns(Upserted(stored, p)) && PairwiseDisjoint(Upserted(stored, p))
  {
    if !Covered(stored, p) && !Blocked(stored, p) {
      forall s | s in stored && Overlap(s, p) ensures p <= s {
        OverlapOfUncovered(stored, p, s);
      }
    }
  }

  lemma ShorterOverlapCovers(p: Path, s: Path)
    requires IsPattern(p) && Overlap(s, p)
    ensures |s| < |p| ==> Covers(s, p)
  {
  }

  lemma OverlapOfUncovered(stored: set<Path>, p: Path, s: Path)
    requires IsPattern(p) && ArePatterns(stored) && s in stored && Overlap(s, p)
    requires !Covers(s, p) && !Blocked(stored, p)
    ensures p <= s
  {
    var n := |p| - 1;
    ShorterOverlapCovers(p, s);
    assert s[..n] == p[..n];
    assert p == p[..n] + [p[n]];
    assert s[n] == p[n];
  }

  /** No attribute loses its full match. */
  lemma UpsertLosesNothing(stored: set<Path>, p: Path, a: Path)
    requires p != [] && FullyMatched(stored, a)
    ensures FullyMatched(Upserted(stored, p), a)
  {
    var s :| s in stored && IsMatch(s, a) == Full;
    if s !in Upserted(stored, p) {
      assert forall i | 0 <= i < |p| :: p[i] == s[i];
      assert IsMatch(p, a) == Full;
      assert p in Upserted(stored, p);
    }
  }

  lemma CoveringMatches(s: Path, p: Path, a: Path)
    requires IsPattern(s) && Covers(s, p) && IsMatch(p, a) == Full
    ensures IsMatch(s, a) == Full
  {
  }

  /** An integer key that no pattern of the set uses at position `n`. */
  lemma {:induction false} FreshKey(stored: set<Path>, n: nat) returns (k: int)
    ensures forall s: Path | s in stored && |s| > n && s[n].IntKey? :: s[n].i < k
    decreases |stored|
  {
    if stored == {} {
      k := 0;
    } else {
      var t: Path :| t in stored;
      k := FreshKey(stored - {t}, n);
      if |t| > n && t[n].IntKey? && t[n].i >= k {
        k := t[n].i + 1;
      }
      assert forall s: Path | s in stored :: s == t || s in stored - {t};
    }
  }

  /** Everything the upserted pattern matches is matched afterwards, exactly unless it was blocked and uncovered. */
  lemma UpsertCoversItsPattern(stored: set<Path>, p: Path)
    requires IsPattern(p) && ArePatterns(stored)
    ensures (forall a | IsMatch(p, a) == Full :: FullyMatched(Upserted(stored, p), a))
       <==> (Covered(stored, p) || !Blocked(stored, p))
  {
    if Covered(stored, p) {
      var s :| s in stored && Covers(s, p);
      forall a | IsMatch(p, a) == Full ensures FullyMatched(Upserted(stored, p), a) {
        CoveringMatches(s, p, a);
      }
    } else if !Blocked(stored, p) {
      assert p in Upserted(stored, p);
    } else {
      var n := |p| - 1;
      var k := FreshKey(stored, n);
      var a := p[..n] + [IntKey(k)];
      assert IsMatch(p, a) == Full;
      if FullyMatched(stored, a) {
        MatchedFreshKeyCovers(stored, p, k);
      }
    }
  }

  /** With `a.b` stored, upserting `a.*` changes nothing, and `a.c` goes unmatched. */
  lemma BlockedUpsertLeavesAGap()
    ensures
      var stored := {[StringKey("a"), StringKey("b")]};
      var p, a := [StringKey("a"), Wildcard], [StringKey("a"), StringKey("c")];
      && IsPattern(p) && ArePatterns(stored) && PairwiseDisjoint(stored)
      && Upserted(stored, p) == stored
      && IsMatch(p, a) == Full && !FullyMatched(Upserted(stored, p), a)
  {
    var s, p, a := [StringKey("a"), StringKey("b")], [StringKey("a"), Wildcard], [StringKey("a"), StringKey("c")];
    assert s in {s} && s[..1] == p[..1];
    assert Blocked({s}, p);
    assert !QualifierMatches(s[1], a[1]);
  }

  lemma MatchedFreshKeyCovers(stored: set<Path>, p: Path, k: int)
    requires IsPattern(p) && ArePatterns(stored) && p[|p| - 1] == Wildcard
    requires forall s: Path | s in stored && |s| >= |p| && s[|p| - 1].IntKey? :: s[|p| - 1].i < k
    requires FullyMatched(stored, p[..|p| - 1] + [IntKey(k)])
    ensures Covered(stored, p)
  {
    var s :| s in stored && IsMatch(s, p[..|p| - 1] + [IntKey(k)]) == Full;
    MatchOfFreshKey(p, k, s);
  }

  /** A pattern that matches where `p` has its wildcard and the attribute a key unknown to it covers `p`. */
  lemma MatchOfFreshKey(p: Path, k: int, s: Path)
    requires IsPattern(p) && IsPattern(s) && p[|p| - 1] == Wildcard
    requires |s| >= |p| && s[|p| - 1].IntKey? ==> s[|p| - 1].i < k
    requires IsMatch(s, p[..|p| - 1] + [IntKey(k)]) == Full
    ensures Covers(s, p)
  {
    var n := |p| - 1;
    var a := p[..n] + [IntKey(k)];
    assert |s| == |a| ==> QualifierMatches(s[n], a[n]);
    assert forall i | 0 <= i < |s| && i < n :: QualifierMatches(s[i], a[i]);
  }

  /** Where a walk stops short, the pattern is covered or blocked. */
  lemma StuckIsCoveredOrBlocked(stored: set<Path>, p: Path, i: nat)
    requires IsPattern(p) && 0 < i < |p| && Stuck(stored, p, i)
    ensures Covered(stored, p) || Blocked(stored, p)
    ensures Upserted(stored, p) == stored
  {
    if p[..i] in stored {
      assert Covers(p[..i], p);
    } else if p[i] != Wildcard {
      assert Covers(p[..i] + [Wildcard], p);
    } else {
      var s: Path :| s in stored && |s| > i && s[..i] == p[..i] && s[i] != Wildcard;
      assert i == |p| - 1;
    }
  }

  lemma StoppedUpserts(index: set<Path>, stored: set<Path>, p: Path)
    requires IsPattern(p) && Stopped(index, stored, p)
    ensures Upserted(stored, p) == stored
  {
    hide IsPattern;
    hide Upserted;
    var i :| 0 < i < |p| && p[..i] in index && Stuck(stored, p, i);
    StuckIsCoveredOrBlocked(stored, p, i);
  }

  /** A pattern that overlaps nothing is neither covered nor blocked, and nothing extends it. */
  lemma DisjointUpserts(stored: set<Path>, p: Path)
    requires IsPattern(p) && forall s | s in stored :: !Overlap(s, p)
    ensures !Covered(stored, p) && !Blocked(stored, p) && Extending(stored, p) == {}
    ensures Upserted(stored, p) == stored + {p}
  {
    forall s | s in stored ensures !Covers(s, p) && !(p <= s) {
      assert !Overlap(s, p);
    }
    if Blocked(stored, p) {
      var s :| s in stored && |s| >= |p| && s[..|p| - 1] == p[..|p| - 1] && s[|p| - 1] != Wildcard;
      forall i | 0 <= i < |p| - 1 ensures s[i] == p[i] {
        assert s[i] == s[..|p| - 1][i];
      }
      assert Overlap(s, p);
    }
  }

  /** An indexed pattern is covered exactly when it is stored, and never blocked. */
  lemma IndexedUpserts(stored: set<Path>, p: Path)
    requires IsPattern(p) && ArePatterns(stored) && PairwiseDisjoint(stored) && p in Closure(stored)
    ensures Covered(stored, p) <==> p in stored
    ensures p !in stored ==> !Blocked(stored, p)
  {
    InClosure(stored, p);
    var t :| t in stored && p <= t;
    if Covered(stored, p) {
      var s :| s in stored && Covers(s, p);
      assert Overlap(s, t);
      SamePattern(stored, s, t);
      assert p == t;
    }
    if p in stored {
      assert Covers(p, p);
    }
    if Blocked(stored, p) {
      LeavesAreStored(stored, p);
      assert p[|p| - 1] == Wildcard && p[0] != Wildcard;
    }
  }

  ghost function CutBelow(index: set<Path>, p: Path): set<Path> {
    set x | x in index && !(p <= x && x != p)
  }

  /** Replacing what extends `p` by `p` cuts the index below `p`. */
  lemma ClosureReplace(stored: set<Path>, p: Path)
    requires p in Closure(stored)
    ensures Closure(stored - Extending(stored, p) + {p}) == CutBelow(Closure(stored), p)
  {
    var left := stored - Extending(stored, p) + {p};
    InClosure(stored, p);
    forall x ensures x in Closure(left) <==> x in Closure(stored) && !(p <= x && x != p) {
      InClosure(left, x);
      InClosure(stored, x);
      if x in Closure(left) {
        var s :| s in left && x <= s;
        if s == p {
          var t :| t in stored && p <= t;
          assert x <= t;
        }
      }
      if x in Closure(stored) && !(p <= x && x != p) {
        var s :| s in stored && x <= s;
        assert s in left || x <= p;
      }
    }
  }

  // ---------- leaves ----------

  /** The places at or below `p` that have nothing below them. */
  ghost function Leaves(index: set<Path>, p: Path): set<Path> {
    set x | x in index && p <= x && Bare(index, x)
  }

  ghost predicate Bare(index: set<Path>, p: Path) {
    forall r :: p + [r] !in index
  }

  ghost function LeavesBelow(index: set<Path>, p: Path): set<Path> {
    Leaves(index, p) - {p}
  }

  ghost function Without(index: set<Path>, p: Path): set<Path> {
    set x | x in index && !(p <= x)
  }

  lemma LeavesAreExtending(stored: set<Path>, p: Path)
    requires ArePatterns(stored) && PairwiseDisjoint(stored) && p != []
    ensures Leaves(Closure(stored), p) == Extending(stored, p)
  {
    forall x ensures x in Leaves(Closure(stored), p) <==> x in Extending(stored, p) {
      InClosure(stored, x);
      if x in Closure(stored) {
        LeavesAreStored(stored, x);
      }
      assert x <= x;
    }
  }

  /** Cutting the child `q` off moves its leaves out and no others. */
  lemma LeavesOfChild(index: set<Path>, p: Path, q: Qualifier)
    requires p + [q] in index
    ensures LeavesBelow(index, p) == LeavesBelow(Without(index, p + [q]), p) + Leaves(index, p + [q])
    ensures LeavesBelow(Without(index, p + [q]), p) !! Leaves(index, p + [q])
    ensures |LeavesBelow(index, p)| == |LeavesBelow(Without(index, p + [q]), p)| + |Leaves(index, p + [q])|
  {
    var y := p + [q];
    var cut := Without(index, y);
    assert p <= y && |y| == |p| + 1;
    forall x ensures x in LeavesBelow(index, p) <==> x in LeavesBelow(cut, p) || x in Leaves(index, y) {
      if x in LeavesBelow(cut, p) {
        forall r ensures x + [r] !in index {
          if x + [r] == y {
            SameEnd(x, r, p, q);
          }
          assert x + [r] !in cut;
        }
      }
    }
  }

  /** The leaves reached from `p` through one of `keys`. */
  ghost function LeavesThrough(index: set<Path>, p: Path, keys: set<Qualifier>): set<Path> {
    set x | x in index && p <= x && |x| > |p| && x[|p|] in keys && Bare(index, x)
  }

  lemma OneMoreKey(index: set<Path>, p: Path, keys: set<Qualifier>, q: Qualifier)
    requires q !in keys
    ensures LeavesThrough(index, p, keys + {q}) == LeavesThrough(index, p, keys) + Leaves(index, p + [q])
    ensures multiset(LeavesThrough(index, p, keys + {q}))
         == multiset(LeavesThrough(index, p, keys)) + multiset(Leaves(index, p + [q]))
  {
    forall x ensures p + [q] <= x <==> p <= x && |x| > |p| && x[|p|] == q {
    }
  }

  lemma AllKeys(index: set<Path>, p: Path, keys: set<Qualifier>)
    requires forall x | x in index && p <= x && |x| > |p| :: x[|p|] in keys
    ensures LeavesThrough(index, p, keys) == LeavesBelow(index, p)
  {
    forall x | x in LeavesBelow(index, p) ensures |x| > |p| {
      assert x[..|p|] == p && x[..|x|] == x;
    }
  }

  lemma SomeVariable(index: set<Path>, stored: set<Path>)
    requires Indexes(index, stored)
    ensures stored != {} <==> exists q :: [q] in index
  {
    if stored != {} {
      var s :| s in stored;
      assert s[..1] == [s[0]] && [s[0]] in index;
    }
    forall q | [q] in index ensures stored != {} {
      InClosure(stored, [q]);
    }
  }

  /** Everything stored is below some variable. */
  lemma StoredThroughVariables(index: set<Path>, stored: set<Path>, variables: set<Qualifier>)
    requires Indexes(index, stored) && forall q :: q in variables <==> [q] in index
    ensures LeavesThrough(index, [], variables) == stored
  {
    forall x ensures x in LeavesThrough(index, [], variables) <==> x in stored {
      InClosure(stored, x);
      if x in index {
        StoredIsBare(index, stored, x);
        PrefixStays(stored, x, 1);
        assert x[..1] == [x[0]];
      }
      if x in stored {
        assert x <= x;
      }
    }
  }

  lemma SameEnd(p: Path, q: Qualifier, r: Path, s: Qualifier)
    requires p + [q] == r + [s]
    ensures p == r && q == s
  {
    assert (p + [q])[..|p|] == p && (r + [s])[..|r|] == r;
    assert (p + [q])[|p|] == q && (r + [s])[|r|] == s;
  }

  /** Upserting what is stored changes nothing. */
  lemma StoredUpserts(index: set<Path>, stored: set<Path>, p: Path)
    requires IsPattern(p) && Indexes(index, stored) && p in index && Bare(index, p)
    ensures p in stored && Upserted(stored, p) == stored
  {
    LeavesAreStored(stored, p);
    IndexedUpserts(stored, p);
  }

  /** Upserting what begins longer patterns puts it in their place. */
  lemma SupersetUpserts(index: set<Path>, stored: set<Path>, p: Path)
    requires IsPattern(p) && Indexes(index, stored) && p in index && !Bare(index, p)
    ensures p !in stored && p in Upserted(stored, p) && Indexes(CutBelow(index, p), Upserted(stored, p))
    ensures |LeavesBelow(index, p)| == |Extending(stored, p)| > 0
    ensures |Upserted(stored, p)| == |stored| - |Extending(stored, p)| + 1
  {
    hide Closure;
    hide Bare;
    LeavesAreStored(stored, p);
    IndexedUpserts(stored, p);
    ClosureReplace(stored, p);
    LeavesAreExtending(stored, p);
    InClosure(stored, p);
    UpsertedStaysDisjoint(stored, p);
    var s :| s in stored && p <= s;
    assert s in Extending(stored, p) && LeavesBelow(index, p) == Extending(stored, p);
    assert stored == (stored - Extending(stored, p)) + Extending(stored, p);
  }

  // ---------- removal ----------

  lemma ClosureRemove(stored: set<Path>, p: Path)
    requires p in stored
    ensures Closure(stored) == Closure(stored - {p}) + Prefixes(p)
  {
    ClosureAdd(stored - {p}, p);
    assert stored - {p} + {p} == stored;
  }

  /** A beginning of the removed pattern that has nothing below it is no longer in the index. */
  lemma BareBeginningLeaves(stored: set<Path>, p: Path, r: Path)
    requires ArePatterns(stored) && PairwiseDisjoint(stored) && p in stored
    requires r <= p && r != []
    requires forall q :: r + [q] !in Closure(stored - {p})
    ensures r !in Closure(stored - {p})
  {
    var rest := stored - {p};
    InClosure(rest, r);
    if r in Closure(rest) {
      var s :| s in rest && r <= s;
      if |s| > |r| {
        assert r + [s[|r|]] <= s;
        InClosure(rest, r + [s[|r|]]);
      } else {
        assert s == r;
        assert Overlap(s, p);
      }
    }
  }

  /** Walking up from the removed pattern `p`: a place `r` with nothing below goes, the others stay. */
  lemma BareGoes(stored: set<Path>, p: Path, r: Path, index: set<Path>)
    requires ArePatterns(stored) && PairwiseDisjoint(stored) && p in stored && r <= p && r != []
    requires index == Closure(stored - {p}) + Prefixes(r) && Bare(index, r)
    ensures r !in Closure(stored - {p})
    ensures index - {r} == Closure(stored - {p}) + Prefixes(r[..|r| - 1])
  {
    BareBeginningLeaves(stored, p, r);
    PrefixesOf(r);
  }

  lemma BusyStays(stored: set<Path>, p: Path, r: Path, index: set<Path>)
    requires index == Closure(stored - {p}) + Prefixes(r) && r != [] && !Bare(index, r)
    ensures index == Closure(stored - {p})
  {
    var q :| r + [q] in index;
    assert (r + [q])[..|r|] == r;
    PrefixStays(stored - {p}, r + [q], |r|);
    PrefixesStay(stored - {p}, r);
  }

  lemma StoredIsBare(index: set<Path>, stored: set<Path>, p: Path)
    requires Indexes(index, stored) && p in index
    ensures p in stored <==> Bare(index, p)
  {
    LeavesAreStored(stored, p);
  }

  lemma OverlapsItself(p: Path)
    ensures Overlap(p, p)
  {
  }

  lemma InsertedGoes(stored: set<Path>, p: Path)
    ensures p !in stored ==> stored + {p} - {p} == stored
  {
  }

  lemma NotIndexedNotStored(index: set<Path>, stored: set<Path>, p: Path, k: nat)
    requires Indexes(index, stored) && 1 <= k <= |p| && p[..k] !in index
    ensures p !in stored
  {
  }

  lemma RemovedStaysIndexed(index: set<Path>, stored: set<Path>, p: Path)
    requires Indexes(index, stored) && p in stored
    ensures Indexes(Closure(stored - {p}), stored - {p}) && |stored - {p}| == |stored| - 1
    ensures index == Closure(stored) == Closure(stored - {p}) + Prefixes(p)
    ensures ArePatterns(stored) && PairwiseDisjoint(stored)
  {
    ClosureRemove(stored, p);
  }

  /** Of the variables, a removal can only touch its own. */
  lemma OtherVariablesStay(stored: set<Path>, p: Path, q: Qualifier)
    requires p in stored && p != [] && q != p[0]
    ensures [q] in Closure(stored) <==> [q] in Closure(stored - {p})
  {
    ClosureRemove(stored, p);
    assert [q][0] == q;
  }

  lemma SinglePrefix(p: Path)
    requires |p| == 1
    ensures Prefixes(p) == {p}
  {
    PrefixesOf(p);
  }

  lemma PrefixesOf(p: Path)
    requires p != []
    ensures Prefixes(p) == Prefixes(p[..|p| - 1]) + {p}
  {
    var r := p[..|p| - 1];
    forall x | x in Prefixes(p) ensures x in Prefixes(r) + {p} {
      var k :| 1 <= k <= |p| && x == p[..k];
      assert k < |p| ==> x == r[..k];
      assert k == |p| ==> x == p;
    }
    forall x | x in Prefixes(r) ensures x in Prefixes(p) {
      var k :| 1 <= k <= |r| && x == r[..k];
      assert x == p[..k];
    }
    assert p == p[..|p|];
  }
}
