/** What a matcher holds after any history of calls, whatever their outcomes. */
module MatcherHistories {
  import opened Results
  import opened PatternSets
  import opened AttributeMatchers

  datatype Operation =
    | Insert(variable: string, qualifiers: seq<Qualifier>)
    | Upsert(variable: string, qualifiers: seq<Qualifier>)
    | Remove(variable: string, qualifiers: seq<Qualifier>)
    | Clear

  ghost predicate Insertable(stored: set<Path>, p: Path) {
    IsPattern(p) && forall s | s in stored :: !Overlap(s, p)
  }

  /** What an operation does to the stored patterns. */
  ghost function Effect(stored: set<Path>, op: Operation): set<Path> {
    match op
    case Insert(v, qs) =>
      var p: Path := [StringKey(v)] + qs;
      if Insertable(stored, p) then stored + {p} else stored
    case Upsert(v, qs) =>
      var p: Path := [StringKey(v)] + qs;
      if IsPattern(p) then Upserted(stored, p) else stored
    case Remove(v, qs) => stored - {[StringKey(v)] + qs}
    case Clear => {}
  }

  ghost function Outcome(ops: seq<Operation>): set<Path> {
    if ops == [] then {} else Effect(Outcome(ops[..|ops| - 1]), ops[|ops| - 1])
  }

  predicate NoUpserts(ops: seq<Operation>) {
    forall i | 0 <= i < |ops| :: !ops[i].Upsert?
  }

  /** How many patterns the counter has missed after an operation: those that were upserted in no other's place. */
  ghost function MissedAfter(stored: set<Path>, missed: nat, op: Operation): nat {
    match op
    case Upsert(v, qs) =>
      var p: Path := [StringKey(v)] + qs;
      if IsPattern(p) && Upserted(stored, p) != stored && Extending(stored, p) == {} then missed + 1 else missed
    case Clear => 0
    case _ => missed
  }

  ghost function Missed(ops: seq<Operation>): nat {
    if ops == [] then 0
    else
      var before := ops[..|ops| - 1];
      MissedAfter(Outcome(before), Missed(before), ops[|ops| - 1])
  }

  method Perform(m: AttributeMatcher, op: Operation)
    requires m.Valid()
    modifies m, m.at.Values
    ensures m.Valid() && fresh(m.at.Values - old(m.at.Values))
    ensures m.stored == Effect(old(m.stored), op)
    ensures m.missed == MissedAfter(old(m.stored), old(m.missed), op)
  {
    hide Upserted;
    hide Extending;
    hide IsPattern;
    match op {
      case Insert(v, qs) =>
        var status := m.InsertAttribute(v, qs);
      case Upsert(v, qs) =>
        var status := m.UpsertAttribute(v, qs);
      case Remove(v, qs) =>
        NotAPattern(m.at.Keys, m.stored, [StringKey(v)] + qs);
        var status := m.RemoveAttribute(v, qs);
      case Clear =>
        m.ClearAttributes();
    }
  }

  lemma NotAPattern(index: set<Path>, stored: set<Path>, p: Path)
    requires Indexes(index, stored)
    ensures !IsPattern(p) ==> p !in stored
  {
  }

  /**
   * A history of calls on a new matcher leaves its outcome, and a counter that is short by what it missed: exact when
   * that is a multiple of the word's range.
   */
  method Play(ops: seq<Operation>) returns (m: AttributeMatcher)
    ensures fresh(m) && fresh(m.at.Values) && m.Valid() && m.stored == Outcome(ops) && m.missed == Missed(ops)
    ensures m.attributes == Wrap(|Outcome(ops)| - Missed(ops))
    ensures m.attributes == Wrap(|Outcome(ops)|) <==> Wrap(Missed(ops)) == 0
  {
    hide Effect;
    hide MissedAfter;
    m := new AttributeMatcher();
    for i := 0 to |ops|
      invariant fresh(m) && fresh(m.at.Values) && m.Valid()
      invariant m.stored == Outcome(ops[..i]) && m.missed == Missed(ops[..i])
    {
      Perform(m, ops[i]);
      assert ops[..i + 1][..i] == ops[..i];
    }
    assert ops[..|ops|] == ops;
    CountIsDetermined(m.attributes, m.missed, |m.stored|);
  }

  /** Without upserts nothing is missed. */
  lemma {:induction false} NothingMissed(ops: seq<Operation>)
    requires NoUpserts(ops)
    ensures Missed(ops) == 0
    decreases |ops|
  {
    if ops != [] {
      NothingMissed(ops[..|ops| - 1]);
    }
  }

  /** Of a named variable alone, an upsert stores the pattern and does not count it. */
  lemma FirstUpsertIsMissed(variable: string)
    requires variable != ""
    ensures Outcome([Upsert(variable, [])]) == {[StringKey(variable)]} && Missed([Upsert(variable, [])]) == 1
  {
    var ops := [Upsert(variable, [])];
    assert ops[..0] == [];
    assert [StringKey(variable)] + [] == [StringKey(variable)];
    DisjointUpserts({}, [StringKey(variable)]);
  }

  /** Upserting and removing it again leaves nothing stored, and the counter one below zero. */
  lemma UpsertThenRemoveIsMissed(variable: string)
    requires variable != ""
    ensures
      var ops := [Upsert(variable, []), Remove(variable, [])];
      Outcome(ops) == {} && Missed(ops) == 1 && Wrap(|Outcome(ops)| - Missed(ops)) == SIZE_LIMIT - 1
  {
    var ops := [Upsert(variable, []), Remove(variable, [])];
    FirstUpsertIsMissed(variable);
    assert ops[..1] == [Upsert(variable, [])];
    assert [StringKey(variable)] + [] == [StringKey(variable)];
  }

  /**
   * After any history the listing succeeds exactly when the counter is one that a vector can reserve. As long as no
   * more than that is stored or missed, it is exactly when no more was missed than is stored; so always without
   * upserts.
   */
  method PlayAndList(ops: seq<Operation>, maxSize: nat) returns (patterns: Option<seq<Path>>)
    ensures patterns.Some? <==> Wrap(|Outcome(ops)| - Missed(ops)) <= maxSize
    ensures patterns.Some? ==> multiset(patterns.value) == multiset(Outcome(ops))
    ensures 2 * maxSize < SIZE_LIMIT && |Outcome(ops)| <= maxSize && Missed(ops) <= maxSize ==>
      (patterns.Some? <==> Missed(ops) <= |Outcome(ops)|)
    ensures NoUpserts(ops) && |Outcome(ops)| <= maxSize < SIZE_LIMIT ==> patterns.Some?
  {
    hide Outcome;
    hide Missed;
    hide Wrap;
    hide NoUpserts;
    var m := Play(ops);
    patterns := m.GetAttributes(maxSize);
    if NoUpserts(ops) {
      NothingMissed(ops);
    }
    if |Outcome(ops)| <= maxSize < SIZE_LIMIT {
      WrapBelow(|Outcome(ops)|, Missed(ops), maxSize);
    }
  }

  lemma WrapBelow(n: nat, missed: nat, maxSize: nat)
    requires n <= maxSize < SIZE_LIMIT
    ensures missed == 0 ==> Wrap(n - missed) <= maxSize
    ensures 2 * maxSize < SIZE_LIMIT && missed <= maxSize ==> (Wrap(n - missed) <= maxSize <==> missed <= n)
  {
    if missed > n && missed <= maxSize {
      assert Wrap(n - missed) == SIZE_LIMIT - (missed - n);
    }
  }

  /** Two such upserts under one variable, then one of the variable itself: one stored, two missed, and no listing. */
  method ListingFails(maxSize: nat) returns (patterns: Option<seq<Path>>)
    requires maxSize < SIZE_LIMIT - 1
    ensures patterns == None
  {
    hide Outcome;
    hide Missed;
    var ops := [Upsert("a", [StringKey("b")]), Upsert("a", [StringKey("c")]), Upsert("a", [])];
    ReplacedAfterMissing();
    patterns := PlayAndList(ops, maxSize);
  }

  lemma ReplacedAfterMissing()
    ensures
      var ops := [Upsert("a", [StringKey("b")]), Upsert("a", [StringKey("c")]), Upsert("a", [])];
      Outcome(ops) == {[StringKey("a")]} && Missed(ops) == 2
  {
    var a: Path := [StringKey("a")];
    var ab: Path, ac: Path := a + [StringKey("b")], a + [StringKey("c")];
    var ops := [Upsert("a", [StringKey("b")]), Upsert("a", [StringKey("c")]), Upsert("a", [])];
    assert ops[..2][..1][..0] == [];
    assert ops[..2][..1] == [ops[0]] && ops[..2] == [ops[0], ops[1]];
    DisjointUpserts({}, ab);
    assert Outcome([ops[0]]) == {ab} && Missed([ops[0]]) == 1;
    assert ab[1] != ac[1];
    DisjointUpserts({ab}, ac);
    assert Outcome([ops[0], ops[1]]) == {ab, ac} && Missed([ops[0], ops[1]]) == 2;
    assert a + [] == a && ab in Extending({ab, ac}, a);
    assert Extending({ab, ac}, a) == {ab, ac};
    assert Upserted({ab, ac}, a) == {a};
  }

  /** After any history, a lookup answers as a scan of the outcome does. */
  method PlayAndMatch(ops: seq<Operation>, variable: string, qualifiers: seq<Qualifier>)
    returns (match_: MatchType, any: bool)
    requires Wildcard !in qualifiers
    ensures match_ == StepMatch(Outcome(ops), [StringKey(variable)] + qualifiers)
    ensures any <==> Outcome(ops) != {}
  {
    var m := Play(ops);
    var found := m.MatchAttribute(variable, qualifiers);
    match_ := GetType(found);
    any := m.HasAttributes();
  }

  /** Whatever the history, the stored patterns are pairwise disjoint. */
  lemma {:induction false} OutcomesAreDisjoint(ops: seq<Operation>)
    ensures ArePatterns(Outcome(ops)) && PairwiseDisjoint(Outcome(ops))
    decreases |ops|
  {
    if ops != [] {
      var stored, op := Outcome(ops[..|ops| - 1]), ops[|ops| - 1];
      OutcomesAreDisjoint(ops[..|ops| - 1]);
      if op.Insert? && Insertable(stored, [StringKey(op.variable)] + op.qualifiers) {
        DisjointJoins(stored, [StringKey(op.variable)] + op.qualifiers);
      }
      if op.Upsert? && IsPattern([StringKey(op.variable)] + op.qualifiers) {
        UpsertedStaysDisjoint(stored, [StringKey(op.variable)] + op.qualifiers);
      }
    }
  }
}
