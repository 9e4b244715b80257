/** common/decl.cc: the overloads of a function, kept disjoint and indexed. */
module Decls {
  import opened Results
  import opened Types
  import opened Assignability
  import opened OverloadSignatures

  datatype OverloadDecl = OverloadDecl(id: string, args: seq<Type>, result: Type, member: bool)

  // ---------- overlapping signatures ----------

  predicate Comparable(a: Type, b: Type) {
    Assignable(a, b) || Assignable(b, a)
  }

  /** Two overloads overlap: one kind of call, and every two arguments are comparable. */
  predicate Overlap(lhs: OverloadDecl, rhs: OverloadDecl) {
    && lhs.member == rhs.member
    && |lhs.args| == |rhs.args|
    && forall i | 0 <= i < |lhs.args| :: Comparable(lhs.args[i], rhs.args[i])
  }

  /** SignaturesOverlap, with its flag that stays down once it is down. */
  method SignaturesOverlap(lhs: OverloadDecl, rhs: OverloadDecl) returns (overlap: bool)
    ensures overlap == Overlap(lhs, rhs)
  {
    hide Assignable;
    if lhs.member != rhs.member {
      return false;
    }
    if |lhs.args| != |rhs.args| {
      return false;
    }
    overlap := true;
    for i := 0 to |lhs.args|
      invariant overlap == forall k | 0 <= k < i :: Comparable(lhs.args[k], rhs.args[k])
    {
      if overlap {
        overlap := TypeIsAssignable(lhs.args[i], rhs.args[i]);
        if !overlap {
          overlap := TypeIsAssignable(rhs.args[i], lhs.args[i]);
        }
      }
    }
  }

  /** A call with these argument types fits the overload. */
  predicate Accepts(overload: OverloadDecl, args: seq<Type>) {
    |overload.args| == |args| && forall i | 0 <= i < |args| :: Assignable(overload.args[i], args[i])
  }

  /** The lower of two comparable types, position by position. */
  function LowerArgs(lhs: seq<Type>, rhs: seq<Type>): (args: seq<Type>)
    requires |lhs| == |rhs|
    ensures |args| == |lhs|
    ensures forall i | 0 <= i < |args| :: args[i] == if Assignable(lhs[i], rhs[i]) then rhs[i] else lhs[i]
  {
    seq(|lhs|, i requires 0 <= i < |lhs| => if Assignable(lhs[i], rhs[i]) then rhs[i] else lhs[i])
  }

  /** Overlapping overloads are ambiguous: some call fits both. */
  lemma OverlapIsAmbiguous(lhs: OverloadDecl, rhs: OverloadDecl)
    requires Overlap(lhs, rhs)
    ensures Accepts(lhs, LowerArgs(lhs.args, rhs.args)) && Accepts(rhs, LowerArgs(lhs.args, rhs.args))
  {
    hide Assignable;
    forall i | 0 <= i < |lhs.args|
      ensures Assignable(lhs.args[i], LowerArgs(lhs.args, rhs.args)[i])
      ensures Assignable(rhs.args[i], LowerArgs(lhs.args, rhs.args)[i])
    {
      assert Comparable(lhs.args[i], rhs.args[i]);
      Reflexive(lhs.args[i]);
      Reflexive(rhs.args[i]);
    }
  }

  lemma Reflexive(t: Type)
    ensures Assignable(t, t)
  {
  }

  /** Some call fits both: of one kind, with argument types that both accept. */
  ghost predicate ShareACall(lhs: OverloadDecl, rhs: OverloadDecl) {
    lhs.member == rhs.member && exists args :: Accepts(lhs, args) && Accepts(rhs, args)
  }

  ghost predicate ArgumentsMeet(lhs: OverloadDecl, rhs: OverloadDecl) {
    |lhs.args| == |rhs.args| && forall i | 0 <= i < |lhs.args| :: Meet(lhs.args[i], rhs.args[i])
  }

  lemma MeetingArguments(lhs: OverloadDecl, rhs: OverloadDecl) returns (args: seq<Type>)
    requires ArgumentsMeet(lhs, rhs)
    ensures Accepts(lhs, args) && Accepts(rhs, args)
  {
    hide Assignable;
    hide Meet;
    args := [];
    for i := 0 to |lhs.args|
      invariant |args| == i
      invariant forall k | 0 <= k < i :: Assignable(lhs.args[k], args[k]) && Assignable(rhs.args[k], args[k])
    {
      var c := MeetingPoint(lhs.args[i], rhs.args[i]);
      args := args + [c];
    }
  }

  /** Two overloads share a call exactly when they are of one kind and their arguments meet position by position. */
  lemma SharedCalls(lhs: OverloadDecl, rhs: OverloadDecl)
    ensures ShareACall(lhs, rhs) <==> lhs.member == rhs.member && ArgumentsMeet(lhs, rhs)
  {
    hide Assignable;
    hide Meet;
    if ShareACall(lhs, rhs) {
      var args :| Accepts(lhs, args) && Accepts(rhs, args);
      forall i | 0 <= i < |lhs.args| ensures Meet(lhs.args[i], rhs.args[i]) {
        CommonMeansMeet(lhs.args[i], rhs.args[i], args[i]);
      }
    }
    if lhs.member == rhs.member && ArgumentsMeet(lhs, rhs) {
      var args := MeetingArguments(lhs, rhs);
    }
  }

  /** They share one in spite of not overlapping exactly when some arguments besides meet without being comparable. */
  lemma DisjointOverloadsShareACall(lhs: OverloadDecl, rhs: OverloadDecl)
    ensures
      !Overlap(lhs, rhs) && ShareACall(lhs, rhs)
      <==>
      && lhs.member == rhs.member && ArgumentsMeet(lhs, rhs)
      && exists i :: 0 <= i < |lhs.args| && !Comparable(lhs.args[i], rhs.args[i])
  {
    hide Meet;
    hide Comparable;
    SharedCalls(lhs, rhs);
  }

  /** For example on `null`, where each of the two takes another wrapper. */
  lemma WrappersShareACall(member: bool)
    ensures
      var lhs := OverloadDecl("a", [Simple(BoolWrapperType)], Simple(DynType), member);
      var rhs := OverloadDecl("b", [Simple(IntWrapperType)], Simple(DynType), member);
      !Overlap(lhs, rhs) && Accepts(lhs, [Simple(NullType)]) && Accepts(rhs, [Simple(NullType)])
  {
    var lhs := OverloadDecl("a", [Simple(BoolWrapperType)], Simple(DynType), member);
    var rhs := OverloadDecl("b", [Simple(IntWrapperType)], Simple(DynType), member);
    assert !Comparable(lhs.args[0], rhs.args[0]);
  }

  // ---------- the tables ----------

  predicate Disjoint(overloads: seq<OverloadDecl>) {
    forall i, j | 0 <= i < j < |overloads| :: !Overlap(overloads[j], overloads[i])
  }

  /** Ids are unique, and the table holds exactly them, with their places. */
  predicate IdsIndexed(overloads: seq<OverloadDecl>, byId: map<string, nat>) {
    && (forall id | id in byId :: byId[id] < |overloads| && overloads[byId[id]].id == id)
    && (forall i | 0 <= i < |overloads| :: overloads[i].id in byId && byId[overloads[i].id] == i)
  }

  /** The table leads from each signature to the last overload that was added with it. */
  predicate SignaturesIndexed(signatures: seq<string>, bySignature: map<string, nat>) {
    && (forall s | s in bySignature :: bySignature[s] < |signatures| && signatures[bySignature[s]] == s)
    && (forall i | 0 <= i < |signatures| :: signatures[i] in bySignature && i <= bySignature[signatures[i]])
  }

  datatype Status = OkStatus | SignatureError | AlreadyExists | InvalidArgument

  /** The overload as it is stored: without an id of its own, its signature is its id. */
  function Identified(overload: OverloadDecl, signature: string): OverloadDecl {
    if overload.id == "" then overload.(id := signature) else overload
  }

  predicate HasId(overloads: seq<OverloadDecl>, id: string) {
    exists i | 0 <= i < |overloads| :: overloads[i].id == id
  }

  predicate OverlapsAny(overload: OverloadDecl, overloads: seq<OverloadDecl>) {
    exists i | 0 <= i < |overloads| :: Overlap(overload, overloads[i])
  }

  function SignatureOf(pool: set<string>, name: string, overload: OverloadDecl): Result<string> {
    MakeOverloadSignature(pool, name, overload.args, overload.member)
  }

  /** What adding an overload to a function with these overloads comes to. */
  function AddStatus(pool: set<string>, name: string, overloads: seq<OverloadDecl>, overload: OverloadDecl): Status {
    var signature := SignatureOf(pool, name, overload);
    if signature.Error? then SignatureError
    else if HasId(overloads, Identified(overload, signature.value).id) then AlreadyExists
    else if OverlapsAny(overload, overloads) then InvalidArgument
    else OkStatus
  }

  lemma IdsAreKeys(overloads: seq<OverloadDecl>, byId: map<string, nat>, id: string)
    requires IdsIndexed(overloads, byId)
    ensures id in byId <==> HasId(overloads, id)
  {
  }

  /** Appending an overload with a new id that overlaps none keeps the tables. */
  lemma Appended(
      overloads: seq<OverloadDecl>, byId: map<string, nat>, signatures: seq<string>, bySignature: map<string, nat>,
      stored: OverloadDecl, signature: string)
    requires Disjoint(overloads) && IdsIndexed(overloads, byId) && SignaturesIndexed(signatures, bySignature)
    requires |signatures| == |overloads| && !OverlapsAny(stored, overloads) && stored.id !in byId
    ensures Disjoint(overloads + [stored])
    ensures IdsIndexed(overloads + [stored], byId[stored.id := |overloads|])
    ensures SignaturesIndexed(signatures + [signature], bySignature[signature := |overloads|])
  {
    hide Overlap;
  }

  class FunctionDecl {
    // The names of the structs that are messages.
    const pool: set<string>
    var name: string
    var insertionOrder: seq<OverloadDecl>
    var byId: map<string, nat>
    var bySignature: map<string, nat>
    // The name and the signature that each overload was added under; the name can be changed later.
    ghost var names: seq<string>
    ghost var signatures: seq<string>

    ghost predicate Valid()
      reads this
    {
      && |names| == |signatures| == |insertionOrder|
      && Disjoint(insertionOrder)
      && IdsIndexed(insertionOrder, byId)
      && SignaturesIndexed(signatures, bySignature)
      && (forall i | 0 <= i < |insertionOrder| :: SignatureOf(pool, names[i], insertionOrder[i]) == Ok(signatures[i]))
    }

    constructor (pool: set<string>, name: string)
      ensures Valid() && this.pool == pool && this.name == name && insertionOrder == [] && names == []
    {
      this.pool, this.name := pool, name;
      insertionOrder, byId, bySignature, names, signatures := [], map[], map[], [], [];
    }

    method SetName(name: string)
      requires Valid()
      modifies `name
      ensures Valid() && this.name == name
    {
      this.name := name;
    }

    /** AddOverload: a failed call changes nothing, and a successful one appends the overload. */
    method AddOverload(overload: OverloadDecl) returns (status: Status)
      requires Valid()
      modifies this
      ensures Valid() && name == old(name)
      ensures status == AddStatus(pool, name, old(insertionOrder), overload)
      ensures status != OkStatus ==> unchanged(this)
      ensures status == OkStatus ==>
        var signature := SignatureOf(pool, name, overload).value;
        && insertionOrder == old(insertionOrder) + [Identified(overload, signature)]
        && names == old(names) + [name]
        && signatures == old(signatures) + [signature]
    {
      status := AddOverloadImpl(overload, OkStatus);
    }

    /** AddOverloadInternal, which does nothing once the status is a failure. */
    method AddOverloadImpl(overload: OverloadDecl, status0: Status) returns (status: Status)
      requires Valid()
      modifies this
      ensures Valid() && name == old(name)
      ensures status == if status0 == OkStatus then AddStatus(pool, name, old(insertionOrder), overload) else status0
      ensures status != OkStatus ==> unchanged(this)
      ensures status == OkStatus ==>
        var signature := SignatureOf(pool, name, overload).value;
        && insertionOrder == old(insertionOrder) + [Identified(overload, signature)]
        && names == old(names) + [name]
        && signatures == old(signatures) + [signature]
    {
      hide Overlap;
      hide MakeOverloadSignature;
      hide Disjoint;
      hide IdsIndexed;
      hide SignaturesIndexed;
      hide HasId;
      if status0 != OkStatus {
        return status0;
      }
      var signature := SignatureOf(pool, name, overload);
      if signature.Error? {
        return SignatureError;
      }
      var stored := overload;
      if stored.id == "" {
        stored := stored.(id := signature.value);
      }
      IdsAreKeys(insertionOrder, byId, stored.id);
      if stored.id in byId {
        return AlreadyExists;
      }
      SameOverlaps(overload, stored);
      for i := 0 to |insertionOrder|
        invariant unchanged(this)
        invariant forall k | 0 <= k < i :: !Overlap(stored, insertionOrder[k])
      {
        var overlap := SignaturesOverlap(stored, insertionOrder[i]);
        if overlap {
          return InvalidArgument;
        }
      }
      Appended(insertionOrder, byId, signatures, bySignature, stored, signature.value);
      var index := |insertionOrder|;
      byId := byId[stored.id := index];
      bySignature := bySignature[signature.value := index];
      insertionOrder := insertionOrder + [stored];
      names := names + [name];
      signatures := signatures + [signature.value];
      assert SignatureOf(pool, name, stored) == signature;
      return OkStatus;
    }

    /** FindOverloadById: by id if there is one, else the last overload added with that signature. */
    function FindOverloadById(id: string): (found: Option<OverloadDecl>)
      requires Valid()
      reads this
      ensures found.Some? <==> HasId(insertionOrder, id) || id in signatures
      ensures found.Some? && HasId(insertionOrder, id) ==> found.value in insertionOrder && found.value.id == id
      ensures found.Some? && !HasId(insertionOrder, id) ==>
        exists i | 0 <= i < |signatures| ::
          found.value == insertionOrder[i] && signatures[i] == id && id !in signatures[i + 1..]
    {
      hide Overlap;
      hide MakeOverloadSignature;
      if id in byId then
        assert insertionOrder[byId[id]].id == id;
        Some(insertionOrder[byId[id]])
      else if id in bySignature then
        assert forall k | bySignature[id] < k < |signatures| :: signatures[k] != id;
        Some(insertionOrder[bySignature[id]])
      else None
    }

    /** The `k`-th overload has the signature of the `i`-th. */
    ghost predicate SharesSignature(i: nat, k: nat)
      requires Valid() && i < |insertionOrder| && k < |insertionOrder|
      reads this
    {
      && names[i] == names[k] && insertionOrder[i].member == insertionOrder[k].member
      && Told(pool, insertionOrder[i].args, insertionOrder[i].member)
        == Told(pool, insertionOrder[k].args, insertionOrder[k].member)
    }

    lemma SignaturesAreShared(i: nat, k: nat)
      requires Valid() && i < |insertionOrder| && k < |insertionOrder|
      ensures signatures[i] == signatures[k] <==> SharesSignature(i, k)
    {
      hide Overlap;
      hide Disjoint;
      hide MakeOverloadSignature;
      hide Told;
      var a, b := insertionOrder[i], insertionOrder[k];
      assert SignatureOf(pool, names[i], a) == Ok(signatures[i]) && SignatureOf(pool, names[k], b) == Ok(signatures[k]);
      SignaturesCollide(pool, names[i], a.args, a.member, names[k], b.args, b.member);
    }

    /**
     * An overload is found by its signature exactly when that is its id, or it is no overload's id and no later
     * overload shares it.
     */
    lemma SignatureFindsOverload(i: nat)
      requires Valid() && i < |insertionOrder|
      ensures
        FindOverloadById(signatures[i]) == Some(insertionOrder[i])
        <==>
        || insertionOrder[i].id == signatures[i]
        || (!HasId(insertionOrder, signatures[i])
            && forall k | i < k < |insertionOrder| :: !SharesSignature(i, k))
    {
      hide Overlap;
      hide Disjoint;
      hide SharesSignature;
      hide MakeOverloadSignature;
      forall k | i < k < |insertionOrder| ensures signatures[i] == signatures[k] <==> SharesSignature(i, k) {
        SignaturesAreShared(i, k);
      }
    }

    /** release_overloads: hands out the overloads and leaves an empty function. */
    method ReleaseOverloads() returns (released: seq<OverloadDecl>)
      requires Valid()
      modifies this
      ensures Valid() && name == old(name)
      ensures released == old(insertionOrder) && insertionOrder == []
    {
      released := insertionOrder;
      insertionOrder, byId, bySignature, names, signatures := [], map[], map[], [], [];
    }
  }

  lemma SameOverlaps(a: OverloadDecl, b: OverloadDecl)
    requires b == a.(id := b.id)
    ensures forall c :: Overlap(a, c) == Overlap(b, c)
    ensures forall c :: Overlap(c, a) == Overlap(c, b)
    ensures forall pool, name :: SignatureOf(pool, name, a) == SignatureOf(pool, name, b)
  {
    hide Comparable;
  }

  lemma {:induction false} OverlapIsSymmetric(a: OverloadDecl, b: OverloadDecl)
    requires Overlap(a, b)
    ensures Overlap(b, a)
  {
    hide Assignable;
    forall i | 0 <= i < |b.args| ensures Comparable(b.args[i], a.args[i]) {
      assert Comparable(a.args[i], b.args[i]);
    }
  }

  // ---------- declaring a function at once ----------

  function StoredId(pool: set<string>, name: string, overload: OverloadDecl): string
    requires SignatureOf(pool, name, overload).Ok?
  {
    Identified(overload, SignatureOf(pool, name, overload).value).id
  }

  /** Every overload has a signature, the ids differ, and no two overlap. */
  predicate WellDeclared(pool: set<string>, name: string, overloads: seq<OverloadDecl>) {
    && (forall i | 0 <= i < |overloads| :: SignatureOf(pool, name, overloads[i]).Ok?)
    && (forall i, j | 0 <= i < j < |overloads| ::
          StoredId(pool, name, overloads[j]) != StoredId(pool, name, overloads[i]))
    && Disjoint(overloads)
  }

  predicate IsStored(pool: set<string>, name: string, stored: OverloadDecl, overload: OverloadDecl) {
    SignatureOf(pool, name, overload).Ok? && stored == Identified(overload, SignatureOf(pool, name, overload).value)
  }

  predicate AreStored(pool: set<string>, name: string, stored: seq<OverloadDecl>, overloads: seq<OverloadDecl>) {
    |stored| == |overloads| && forall i | 0 <= i < |stored| :: IsStored(pool, name, stored[i], overloads[i])
  }

  lemma StoredLikeDeclared(
      pool: set<string>, name: string, stored: seq<OverloadDecl>, overloads: seq<OverloadDecl>, overload: OverloadDecl)
    requires AreStored(pool, name, stored, overloads)
    ensures forall i | 0 <= i < |stored| ::
      && SignatureOf(pool, name, overloads[i]).Ok? && stored[i].id == StoredId(pool, name, overloads[i])
      && Overlap(overload, stored[i]) == Overlap(overload, overloads[i])
  {
    hide Overlap;
    hide MakeOverloadSignature;
    forall i | 0 <= i < |stored|
      ensures SignatureOf(pool, name, overloads[i]).Ok? && stored[i].id == StoredId(pool, name, overloads[i])
      ensures Overlap(overload, stored[i]) == Overlap(overload, overloads[i])
    {
      assert IsStored(pool, name, stored[i], overloads[i]);
      SameOverlaps(overloads[i], stored[i]);
    }
  }

  lemma AddedIsNew(pool: set<string>, name: string, stored: seq<OverloadDecl>, overload: OverloadDecl)
    requires AddStatus(pool, name, stored, overload) == OkStatus
    ensures SignatureOf(pool, name, overload).Ok?
    ensures forall i | 0 <= i < |stored| ::
      stored[i].id != StoredId(pool, name, overload) && !Overlap(overload, stored[i])
  {
    hide Overlap;
    hide MakeOverloadSignature;
  }

  lemma AddedIsDeclared(
      pool: set<string>, name: string, stored: seq<OverloadDecl>, overloads: seq<OverloadDecl>, overload: OverloadDecl)
    requires AreStored(pool, name, stored, overloads) && WellDeclared(pool, name, overloads)
    requires AddStatus(pool, name, stored, overload) == OkStatus
    ensures WellDeclared(pool, name, overloads + [overload])
  {
    hide Overlap;
    hide SignatureOf;
    hide Identified;
    hide AddStatus;
    hide IsStored;
    AddedIsNew(pool, name, stored, overload);
    StoredLikeDeclared(pool, name, stored, overloads, overload);
    var all := overloads + [overload];
    forall i, j | 0 <= i < j < |all|
      ensures SignatureOf(pool, name, all[i]).Ok? && SignatureOf(pool, name, all[j]).Ok?
      ensures StoredId(pool, name, all[j]) != StoredId(pool, name, all[i]) && !Overlap(all[j], all[i])
    {
      assert all[i] == overloads[i];
      if j < |overloads| {
        assert all[j] == overloads[j];
      } else {
        assert stored[i].id == StoredId(pool, name, overloads[i]);
      }
    }
    forall i | 0 <= i < |all| ensures SignatureOf(pool, name, all[i]).Ok? {
      assert i < |overloads| ==> all[i] == overloads[i];
    }
  }

  lemma DeclaredIsAdded(
      pool: set<string>, name: string, stored: seq<OverloadDecl>, overloads: seq<OverloadDecl>, overload: OverloadDecl)
    requires AreStored(pool, name, stored, overloads) && WellDeclared(pool, name, overloads + [overload])
    ensures AddStatus(pool, name, stored, overload) == OkStatus
  {
    StoredLikeDeclared(pool, name, stored, overloads, overload);
    hide Overlap;
    hide SignatureOf;
    var all := overloads + [overload];
    assert all[|overloads|] == overload;
    forall i | 0 <= i < |stored|
      ensures stored[i].id != StoredId(pool, name, overload) && !Overlap(overload, stored[i])
    {
      assert all[i] == overloads[i];
    }
  }

  /** One more overload can be added exactly when the list with it is well declared. */
  lemma AddingIsDeclaring(
      pool: set<string>, name: string, stored: seq<OverloadDecl>, overloads: seq<OverloadDecl>, overload: OverloadDecl)
    requires AreStored(pool, name, stored, overloads) && WellDeclared(pool, name, overloads)
    ensures AddStatus(pool, name, stored, overload) == OkStatus <==> WellDeclared(pool, name, overloads + [overload])
  {
    hide AddStatus;
    hide WellDeclared;
    hide AreStored;
    if AddStatus(pool, name, stored, overload) == OkStatus {
      AddedIsDeclared(pool, name, stored, overloads, overload);
    }
    if WellDeclared(pool, name, overloads + [overload]) {
      DeclaredIsAdded(pool, name, stored, overloads, overload);
    }
  }

  /** MakeFunctionDecl: succeeds exactly on well-declared overloads, and then stores them all in order. */
  method MakeFunctionDecl(pool: set<string>, name: string, overloads: seq<OverloadDecl>)
    returns (status: Status, decl: FunctionDecl)
    ensures fresh(decl) && decl.Valid() && decl.pool == pool && decl.name == name
    ensures status == OkStatus <==> WellDeclared(pool, name, overloads)
    ensures status == OkStatus ==> AreStored(pool, name, decl.insertionOrder, overloads)
  {
    hide Overlap;
    hide MakeOverloadSignature;
    decl := new FunctionDecl(pool, name);
    status := OkStatus;
    for i := 0 to |overloads|
      invariant decl.Valid() && decl.pool == pool && decl.name == name && fresh(decl)
      invariant status == OkStatus <==> WellDeclared(pool, name, overloads[..i])
      invariant status == OkStatus ==> AreStored(pool, name, decl.insertionOrder, overloads[..i])
    {
      assert overloads[..i + 1] == overloads[..i] + [overloads[i]];
      if status == OkStatus {
        AddingIsDeclaring(pool, name, decl.insertionOrder, overloads[..i], overloads[i]);
      } else {
        DeclaredBefore(pool, name, overloads[..i], overloads[i]);
      }
      status := decl.AddOverloadImpl(overloads[i], status);
    }
    assert overloads[..|overloads|] == overloads;
  }

  lemma DeclaredBefore(pool: set<string>, name: string, overloads: seq<OverloadDecl>, overload: OverloadDecl)
    ensures WellDeclared(pool, name, overloads + [overload]) ==> WellDeclared(pool, name, overloads)
  {
    hide Overlap;
    hide MakeOverloadSignature;
    var all := overloads + [overload];
    assert forall i | 0 <= i < |overloads| :: all[i] == overloads[i];
  }
}
