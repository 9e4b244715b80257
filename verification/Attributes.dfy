/**
 * base/attribute.h and base/attribute.cc: matching one pattern, and the order on attributes that the
 * matcher's sets are sorted by.
 */
module Attributes {
  import opened PatternSets

  // ---------- one pattern ----------

  /** AttributePattern::IsMatch, its loop against the quantified specification. */
  method MatchPattern(variable: string, pattern: seq<Qualifier>, name: string, attribute: seq<Qualifier>)
    returns (result: MatchType)
    ensures result == IsMatch([StringKey(variable)] + pattern, [StringKey(name)] + attribute)
  {
    ghost var p: Path := [StringKey(variable)] + pattern;
    ghost var a: Path := [StringKey(name)] + attribute;
    result := NoMatch;
    if name != variable {
      assert !QualifierMatches(p[0], a[0]);
      return;
    }
    var maxIndex := |pattern|;
    result := Full;
    if |pattern| > |attribute| {
      maxIndex := |attribute|;
      result := Partial;
    }
    for i := 0 to maxIndex
      invariant MatchesUpTo(p, a, i + 1)
    {
      assert p[i + 1] == pattern[i] && a[i + 1] == attribute[i];
      if !QualifierMatches(pattern[i], attribute[i]) {
        return NoMatch;
      }
    }
  }

  // ---------- orders ----------

  datatype Ordering = Less | Equal | Greater {
    function Flip(): Ordering {
      match this
      case Less => Greater
      case Equal => Equal
      case Greater => Less
    }
  }

  ghost predicate IsTotalOrder<T(!new)>(compare: (T, T) -> Ordering) {
    && (forall a, b :: compare(a, b) == Equal <==> a == b)
    && (forall a, b :: compare(b, a) == compare(a, b).Flip())
    && (forall a, b, c :: compare(a, b) == Less && compare(b, c) == Less ==> compare(a, c) == Less)
  }

  /** Lexicographic comparison: the first difference decides, then the length. */
  function Lexicographic<T>(compare: (T, T) -> Ordering, a: seq<T>, b: seq<T>): Ordering {
    if a == [] then (if b == [] then Equal else Less)
    else if b == [] then Greater
    else if compare(a[0], b[0]) != Equal then compare(a[0], b[0])
    else Lexicographic(compare, a[1..], b[1..])
  }

  lemma {:induction false} LexicographicEqual<T(!new)>(compare: (T, T) -> Ordering, a: seq<T>, b: seq<T>)
    requires IsTotalOrder(compare)
    ensures Lexicographic(compare, a, b) == Equal <==> a == b
    ensures Lexicographic(compare, b, a) == Lexicographic(compare, a, b).Flip()
    decreases |a|
  {
    if a != [] && b != [] {
      assert a == [a[0]] + a[1..] && b == [b[0]] + b[1..];
      LexicographicEqual(compare, a[1..], b[1..]);
    }
  }

  lemma {:induction false} LexicographicTransitive<T(!new)>(
      compare: (T, T) -> Ordering, a: seq<T>, b: seq<T>, c: seq<T>)
    requires IsTotalOrder(compare)
    requires Lexicographic(compare, a, b) == Less && Lexicographic(compare, b, c) == Less
    ensures Lexicographic(compare, a, c) == Less
    decreases |a|
  {
    if a != [] {
      if compare(a[0], b[0]) == Equal && compare(b[0], c[0]) == Equal {
        LexicographicTransitive(compare, a[1..], b[1..], c[1..]);
      }
    }
  }

  /** Sequences over a total order are totally ordered. */
  lemma LexicographicIsTotal<T(!new)>(compare: (T, T) -> Ordering)
    requires IsTotalOrder(compare)
    ensures IsTotalOrder((a: seq<T>, b: seq<T>) => Lexicographic(compare, a, b))
  {
    forall a: seq<T>, b: seq<T>
      ensures Lexicographic(compare, a, b) == Equal <==> a == b
      ensures Lexicographic(compare, b, a) == Lexicographic(compare, a, b).Flip()
    {
      LexicographicEqual(compare, a, b);
    }
    forall a: seq<T>, b: seq<T>, c: seq<T>
      | Lexicographic(compare, a, b) == Less && Lexicographic(compare, b, c) == Less
      ensures Lexicographic(compare, a, c) == Less
    {
      LexicographicTransitive(compare, a, b, c);
    }
  }

  function CompareInt(a: int, b: int): Ordering {
    if a < b then Less else if b < a then Greater else Equal
  }

  function CompareChar(a: char, b: char): Ordering {
    if a < b then Less else if b < a then Greater else Equal
  }

  function CompareText(a: string, b: string): Ordering {
    Lexicographic(CompareChar, a, b)
  }

  function CompareBool(a: bool, b: bool): Ordering {
    if !a && b then Less else if a && !b then Greater else Equal
  }

  /** AttributeQualifierCompare: empty, then int, uint, string, bool and wildcard keys. */
  function CompareQualifier(a: Qualifier, b: Qualifier): Ordering {
    match (a, b)
    case (Invalid, Invalid) => Equal
    case (Invalid, _) => Less
    case (_, Invalid) => Greater
    case (BoolKey(x), BoolKey(y)) => CompareBool(x, y)
    case (BoolKey(_), IntKey(_)) => Greater
    case (BoolKey(_), UintKey(_)) => Greater
    case (BoolKey(_), StringKey(_)) => Greater
    case (IntKey(_), BoolKey(_)) => Less
    case (IntKey(x), IntKey(y)) => CompareInt(x, y)
    case (IntKey(_), UintKey(_)) => Less
    case (IntKey(_), StringKey(_)) => Less
    case (UintKey(_), BoolKey(_)) => Less
    case (UintKey(_), IntKey(_)) => Greater
    case (UintKey(x), UintKey(y)) => CompareInt(x, y)
    case (UintKey(_), StringKey(_)) => Less
    case (StringKey(_), BoolKey(_)) => Less
    case (StringKey(_), IntKey(_)) => Greater
    case (StringKey(_), UintKey(_)) => Greater
    case (StringKey(x), StringKey(y)) => CompareText(x, y)
    case (Wildcard, Wildcard) => Equal
    case (Wildcard, _) => Greater
    case (_, Wildcard) => Less
  }

  /** AttributeQualifierEqualTo: the empty alternative is not even equal to itself. */
  predicate EqualTo(a: Qualifier, b: Qualifier) {
    match (a, b)
    case (BoolKey(x), BoolKey(y)) => x == y
    case (IntKey(x), IntKey(y)) => x == y
    case (UintKey(x), UintKey(y)) => x == y
    case (StringKey(x), StringKey(y)) => x == y
    case (Wildcard, Wildcard) => true
    case _ => false
  }

  lemma TextIsOrdered()
    ensures IsTotalOrder(CompareText)
  {
    assert IsTotalOrder(CompareChar);
    LexicographicIsTotal(CompareChar);
    var lexicographic := (a: seq<char>, b: seq<char>) => Lexicographic(CompareChar, a, b);
    assert forall a: string, b: string :: CompareText(a, b) == lexicographic(a, b);
  }

  /** Qualifiers of all kinds are totally ordered: the sets of nodes hold one node a key. */
  lemma QualifiersAreOrdered()
    ensures IsTotalOrder(CompareQualifier)
  {
    TextIsOrdered();
  }

  function CompareAttributes(a: Path, b: Path): Ordering {
    Lexicographic(CompareQualifier, a, b)
  }

  predicate AttributesEqual(a: Path, b: Path) {
    |a| == |b| && forall i | 0 <= i < |a| :: EqualTo(a[i], b[i])
  }

  /** The first place where the two differ decides, or the first ends there. */
  ghost predicate DiffersAt<T>(compare: (T, T) -> Ordering, a: seq<T>, b: seq<T>, i: nat) {
    && i <= |a| && i < |b| && a[..i] == b[..i]
    && (i < |a| ==> compare(a[i], b[i]) == Less)
  }

  lemma {:induction false} LexicographicMeans<T(!new)>(compare: (T, T) -> Ordering, a: seq<T>, b: seq<T>)
    requires IsTotalOrder(compare)
    ensures Lexicographic(compare, a, b) == Less <==> exists i: nat :: DiffersAt(compare, a, b, i)
    decreases |a|
  {
    if a == [] {
      assert b != [] ==> DiffersAt(compare, a, b, 0);
    } else if b != [] {
      LexicographicMeans(compare, a[1..], b[1..]);
      if compare(a[0], b[0]) == Less {
        assert DiffersAt(compare, a, b, 0);
      }
      forall i: nat | DiffersAt(compare, a, b, i) && i > 0
        ensures a[0] == b[0] && DiffersAt(compare, a[1..], b[1..], i - 1)
      {
        assert a[..i][0] == b[..i][0] && a[1..][..i - 1] == a[..i][1..] && b[1..][..i - 1] == b[..i][1..];
      }
      forall i: nat | DiffersAt(compare, a[1..], b[1..], i) && a[0] == b[0] ensures DiffersAt(compare, a, b, i + 1) {
        assert a[..i + 1] == [a[0]] + a[1..][..i] && b[..i + 1] == [b[0]] + b[1..][..i];
      }
    }
  }

  /** Within a kind of key the order is that of its values, false before true, and texts by their first difference. */
  lemma KeysCompare(x: int, y: int, u: nat, w: nat, p: bool, q: bool)
    ensures CompareQualifier(IntKey(x), IntKey(y)) == Less <==> x < y
    ensures CompareQualifier(UintKey(u), UintKey(w)) == Less <==> u < w
    ensures CompareQualifier(BoolKey(p), BoolKey(q)) == Less <==> !p && q
  {
  }

  lemma TextsCompare(a: string, b: string)
    ensures CompareQualifier(StringKey(a), StringKey(b)) == Less
      <==> exists i: nat :: i <= |a| && i < |b| && a[..i] == b[..i] && (i < |a| ==> a[i] < b[i])
  {
    LexicographicMeans(CompareChar, a, b);
    forall i: nat
      ensures DiffersAt(CompareChar, a, b, i)
        <==> i <= |a| && i < |b| && a[..i] == b[..i] && (i < |a| ==> a[i] < b[i])
    {
    }
  }

  /** Of different kinds: the empty qualifier, then int, uint, string and bool keys, then the wildcard. */
  lemma KindsCompare(x: int, u: nat, s: string, p: bool)
    ensures
      var order := [Invalid, IntKey(x), UintKey(u), StringKey(s), BoolKey(p), Wildcard];
      forall i, j | 0 <= i < j < |order| :: CompareQualifier(order[i], order[j]) == Less
  {
  }

  /** Attribute::Compare is a total order. */
  lemma AttributesAreOrdered()
    ensures IsTotalOrder(CompareAttributes)
  {
    QualifiersAreOrdered();
    LexicographicIsTotal(CompareQualifier);
    var lexicographic := (a: Path, b: Path) => Lexicographic(CompareQualifier, a, b);
    assert forall a: Path, b: Path :: CompareAttributes(a, b) == lexicographic(a, b);
  }

  /** It agrees with operator== exactly on what holds no empty qualifier. */
  lemma CompareAgreesWithEquality(a: Path)
    ensures (forall b :: CompareAttributes(a, b) == Equal <==> AttributesEqual(a, b)) <==> Invalid !in a
  {
    AttributesAreOrdered();
    assert CompareAttributes(a, a) == Equal;
    if Invalid in a {
      var i :| 0 <= i < |a| && a[i] == Invalid;
      assert !EqualTo(a[i], a[i]);
      assert !AttributesEqual(a, a);
    } else {
      forall b ensures AttributesEqual(a, b) <==> a == b {
        if AttributesEqual(a, b) {
          assert forall i | 0 <= i < |a| :: EqualTo(a[i], b[i]);
        }
      }
    }
  }

  /** So an attribute with one can compare as equal to itself without being equal to itself. */
  lemma EmptyQualifierComparesEqual()
    ensures CompareAttributes([StringKey("a"), Invalid], [StringKey("a"), Invalid]) == Equal
    ensures !AttributesEqual([StringKey("a"), Invalid], [StringKey("a"), Invalid])
  {
    AttributesAreOrdered();
    assert !EqualTo([StringKey("a"), Invalid][1], [StringKey("a"), Invalid][1]);
  }

  lemma {:induction false} SkipEqual(a: Path, b: Path, n: nat)
    requires n <= |a| && n <= |b|
    requires forall i | 0 <= i < n :: CompareQualifier(a[i], b[i]) == Equal
    ensures CompareAttributes(a, b) == CompareAttributes(a[n..], b[n..])
    decreases n
  {
    if n > 0 {
      SkipEqual(a, b, n - 1);
      assert a[n - 1..][1..] == a[n..] && b[n - 1..][1..] == b[n..];
      assert a[n - 1..][0] == a[n - 1] && b[n - 1..][0] == b[n - 1];
    } else {
      assert a[0..] == a && b[0..] == b;
    }
  }

  /** Attribute::Compare, its loop against the lexicographic order. */
  method Compare(variable: string, qualifiers: seq<Qualifier>, otherVariable: string, otherQualifiers: seq<Qualifier>)
    returns (order: Ordering)
    ensures order == CompareAttributes([StringKey(variable)] + qualifiers, [StringKey(otherVariable)] + otherQualifiers)
  {
    ghost var a: Path := [StringKey(variable)] + qualifiers;
    ghost var b: Path := [StringKey(otherVariable)] + otherQualifiers;
    order := CompareText(variable, otherVariable);
    if order != Equal {
      return;
    }
    var minSize := if |qualifiers| < |otherQualifiers| then |qualifiers| else |otherQualifiers|;
    for i := 0 to minSize
      invariant forall k | 0 <= k < i + 1 :: CompareQualifier(a[k], b[k]) == Equal
    {
      assert a[i + 1] == qualifiers[i] && b[i + 1] == otherQualifiers[i];
      order := CompareQualifier(qualifiers[i], otherQualifiers[i]);
      if order != Equal {
        SkipEqual(a, b, i + 1);
        return;
      }
    }
    SkipEqual(a, b, minSize + 1);
    if |qualifiers| < |otherQualifiers| {
      return Less;
    }
    if |qualifiers| > |otherQualifiers| {
      return Greater;
    }
    return Equal;
  }
}
