/**
 JSON values as the replay engine sees them, and its order-independent comparison
 (runtime/src/deterministic/replay.rs). An object is a list of members in some order, with
 distinct keys; section 4 of RFC 8259 calls objects unordered.
 */
module Json {
  import opened Prelude

  /** Numbers keep their kind: an integer never equals a float. Floats are exact reals here. */
  datatype Number = PosInt(n: nat) | NegInt(i: int) | Float(x: real)

  datatype Member = Member(key: string, value: RawValue)

  datatype RawValue =
    | Null
    | Bool(b: bool)
    | Num(number: Number)
    | Str(s: string)
    | Array(items: seq<RawValue>)
    | Object(members: seq<Member>)
  {
    /** No object, at any depth, has two members with the same key. */
    predicate WellFormed() {
      match this
      case Array(items) => forall i :: 0 <= i < |items| ==> items[i].WellFormed()
      case Object(members) =>
        && DistinctKeys(members)
        && (forall i :: 0 <= i < |members| ==> members[i].value.WellFormed())
      case _ => true
    }
  }

  predicate DistinctKeys(members: seq<Member>) {
    forall i, j :: 0 <= i < j < |members| ==> members[i].key != members[j].key
  }

  type Value = v: RawValue | v.WellFormed() witness Null

  function Get(members: seq<Member>, key: string): Option<RawValue> {
    if |members| == 0 then None
    else if members[0].key == key then Some(members[0].value)
    else Get(members[1..], key)
  }

  /** Structural comparison that ignores the order of object members. */
  predicate JsonEquivalent(a: RawValue, b: RawValue)
    decreases a
  {
    match (a, b)
    case (Object(ao), Object(bo)) =>
      && |ao| == |bo|
      && forall i :: 0 <= i < |ao| ==>
           Get(bo, ao[i].key).Some? && JsonEquivalent(ao[i].value, Get(bo, ao[i].key).value)
    case (Array(aa), Array(ba)) =>
      |aa| == |ba| && forall i :: 0 <= i < |aa| ==> JsonEquivalent(aa[i], ba[i])
    case _ => a == b
  }

  // ---------- What a JSON text denotes ----------

  /** A JSON value with every object a map: the order of members is gone. */
  datatype Tree =
    | NullTree
    | BoolTree(b: bool)
    | NumTree(number: Number)
    | StrTree(s: string)
    | ArrayTree(items: seq<Tree>)
    | ObjectTree(members: map<string, Tree>)

  function Denotation(v: RawValue): Tree
    decreases v, 1
  {
    match v
    case Null => NullTree
    case Bool(b) => BoolTree(b)
    case Num(n) => NumTree(n)
    case Str(s) => StrTree(s)
    case Array(items) => ArrayTree(ItemTrees(items))
    case Object(members) => ObjectTree(MemberTrees(members))
  }

  function ItemTrees(items: seq<RawValue>): (ts: seq<Tree>)
    ensures |ts| == |items|
    decreases items, 0
  {
    if |items| == 0 then [] else [Denotation(items[0])] + ItemTrees(items[1..])
  }

  function MemberTrees(members: seq<Member>): map<string, Tree>
    decreases members, 0
  {
    if |members| == 0 then map[]
    else MemberTrees(members[1..])[members[0].key := Denotation(members[0].value)]
  }

  lemma {:induction false} ItemTreeAt(items: seq<RawValue>, i: nat)
    requires i < |items|
    ensures ItemTrees(items)[i] == Denotation(items[i])
  {
    if i > 0 {
      ItemTreeAt(items[1..], i - 1);
    }
  }

  lemma {:induction false} MemberTreesLookup(members: seq<Member>, key: string)
    ensures key in MemberTrees(members) <==> Get(members, key).Some?
    ensures key in MemberTrees(members) ==>
      MemberTrees(members)[key] == Denotation(Get(members, key).value)
  {
    if |members| > 0 {
      MemberTreesLookup(members[1..], key);
    }
  }

  lemma {:induction false} MemberTreesSize(members: seq<Member>)
    requires DistinctKeys(members)
    ensures |MemberTrees(members)| == |members|
  {
    if |members| > 0 {
      MemberTreesSize(members[1..]);
      GetFindsMember(members[1..], members[0].key);
      MemberTreesLookup(members[1..], members[0].key);
    }
  }

  lemma {:induction false} GetFindsMember(members: seq<Member>, key: string)
    ensures Get(members, key).Some? ==>
      exists i :: 0 <= i < |members| && members[i] == Member(key, Get(members, key).value)
    ensures (exists i :: 0 <= i < |members| && members[i].key == key) ==> Get(members, key).Some?
  {
    if |members| > 0 && members[0].key != key {
      GetFindsMember(members[1..], key);
      if Get(members, key).Some? {
        var i :| 0 <= i < |members[1..]| && members[1..][i] == Member(key, Get(members[1..], key).value);
        assert members[i + 1] == Member(key, Get(members, key).value);
      }
      if i :| 0 <= i < |members| && members[i].key == key {
        assert members[1..][i - 1].key == key;
      }
    } else if |members| > 0 {
      assert members[0] == Member(key, Get(members, key).value);
    }
  }

  lemma GetOwnMember(members: seq<Member>, i: nat)
    requires DistinctKeys(members) && i < |members|
    ensures Get(members, members[i].key) == Some(members[i].value)
  {
    GetFindsMember(members, members[i].key);
  }

  /**
   The engine's comparison is exactly equality of what the two values denote: JSON trees up to
   the order of object members at every depth. Hence it is an equivalence relation.
   */
  lemma {:induction false} EquivalentIffSameDenotation(a: RawValue, b: RawValue)
    requires a.WellFormed() && b.WellFormed()
    ensures JsonEquivalent(a, b) <==> Denotation(a) == Denotation(b)
    decreases a
  {
    match (a, b)
    case (Object(ao), Object(bo)) =>
      forall i | 0 <= i < |ao|
        ensures AgreesAt(ao, bo, i) <==>
          Get(bo, ao[i].key).Some? && JsonEquivalent(ao[i].value, Get(bo, ao[i].key).value)
      {
        GetFindsMember(bo, ao[i].key);
        if Get(bo, ao[i].key).Some? {
          EquivalentIffSameDenotation(ao[i].value, Get(bo, ao[i].key).value);
        }
      }
      ObjectsAgree(ao, bo);
    case (Array(aa), Array(ba)) =>
      forall i | 0 <= i < |aa| && i < |ba|
        ensures JsonEquivalent(aa[i], ba[i]) <==> ItemTrees(aa)[i] == ItemTrees(ba)[i]
      {
        EquivalentIffSameDenotation(aa[i], ba[i]);
        ItemTreeAt(aa, i);
        ItemTreeAt(ba, i);
      }
    case _ =>
  }

  /** Looking a member of `ao` up in `bo` is looking its key up in the map of `bo`. */
  ghost predicate LooksUp(ao: seq<Member>, bo: seq<Member>, i: nat)
    requires i < |ao|
  {
    var am, bm, k := MemberTrees(ao), MemberTrees(bo), ao[i].key;
    && k in am && am[k] == Denotation(ao[i].value)
    && (k in bm <==> Get(bo, k).Some?)
    && (k in bm ==> bm[k] == Denotation(Get(bo, k).value))
  }

  lemma MemberLooksUp(ao: seq<Member>, bo: seq<Member>, i: nat)
    requires DistinctKeys(ao) && i < |ao|
    ensures LooksUp(ao, bo, i)
  {
    GetOwnMember(ao, i);
    MemberTreesLookup(ao, ao[i].key);
    MemberTreesLookup(bo, ao[i].key);
  }

  lemma KeyIsMember(ao: seq<Member>, k: string) returns (i: nat)
    requires k in MemberTrees(ao)
    ensures i < |ao| && ao[i].key == k
  {
    MemberTreesLookup(ao, k);
    GetFindsMember(ao, k);
    i :| i < |ao| && ao[i] == Member(k, Get(ao, k).value);
  }

  ghost predicate AgreesAt(ao: seq<Member>, bo: seq<Member>, i: nat)
    requires i < |ao|
  {
    Get(bo, ao[i].key).Some? && Denotation(ao[i].value) == Denotation(Get(bo, ao[i].key).value)
  }

  /** Equal sizes turn one-sided inclusion of the members into equality of the maps. */
  lemma ObjectsAgree(ao: seq<Member>, bo: seq<Member>)
    requires DistinctKeys(ao) && DistinctKeys(bo)
    ensures MemberTrees(ao) == MemberTrees(bo) <==> |ao| == |bo| && forall i :: 0 <= i < |ao| ==> AgreesAt(ao, bo, i)
  {
    var am, bm := MemberTrees(ao), MemberTrees(bo);
    MemberTreesSize(ao);
    MemberTreesSize(bo);
    forall i | 0 <= i < |ao| ensures LooksUp(ao, bo, i) {
      MemberLooksUp(ao, bo, i);
    }
    if |ao| == |bo| && forall i :: 0 <= i < |ao| ==> AgreesAt(ao, bo, i) {
      forall k | k in am ensures k in bm && am[k] == bm[k] {
        var i := KeyIsMember(ao, k);
        assert LooksUp(ao, bo, i) && AgreesAt(ao, bo, i);
      }
      assert am.Keys <= bm.Keys;
      SubsetOfEqualSize(am.Keys, bm.Keys);
    } else if |ao| == |bo| {
      var i :| 0 <= i < |ao| && !AgreesAt(ao, bo, i);
      assert LooksUp(ao, bo, i);
    }
  }

  lemma SubsetOfEqualSize<T>(s: set<T>, t: set<T>)
    requires s <= t && |s| == |t|
    ensures s == t
  {
    assert |t - s| == |t| - |s|;
  }

  lemma EquivalenceRelation(a: Value, b: Value, c: Value)
    ensures JsonEquivalent(a, a)
    ensures JsonEquivalent(a, b) ==> JsonEquivalent(b, a)
    ensures JsonEquivalent(a, b) && JsonEquivalent(b, c) ==> JsonEquivalent(a, c)
  {
    EquivalentIffSameDenotation(a, a);
    EquivalentIffSameDenotation(a, b);
    EquivalentIffSameDenotation(b, a);
    EquivalentIffSameDenotation(b, c);
    EquivalentIffSameDenotation(a, c);
  }

  predicate IsScalar(v: RawValue) {
    !v.Array? && !v.Object?
  }

  /** Scalars are compared exactly, kinds included, and arrays element by element. */
  lemma OnlyObjectsAreUnordered(a: Value, b: Value)
    ensures IsScalar(a) ==> (JsonEquivalent(a, b) <==> a == b)
    ensures a.Array? ==> (JsonEquivalent(a, b) <==>
      b.Array? && |a.items| == |b.items| && forall i :: 0 <= i < |a.items| ==> JsonEquivalent(a.items[i], b.items[i]))
    ensures a.Object? && JsonEquivalent(a, b) ==> b.Object?
  {
  }

  /** Objects with the same members, in whatever order, are equivalent, and every member counts. */
  lemma ReorderedObjectsAreEquivalent(ao: seq<Member>, bo: seq<Member>)
    requires Object(ao).WellFormed() && Object(bo).WellFormed()
    ensures |ao| == |bo| && (forall m :: m in ao ==> m in bo) ==> JsonEquivalent(Object(ao), Object(bo))
    ensures JsonEquivalent(Object(ao), Object(bo)) ==> forall m :: m in ao ==>
      exists m' :: m' in bo && m'.key == m.key && JsonEquivalent(m.value, m'.value)
  {
    if |ao| == |bo| && forall m :: m in ao ==> m in bo {
      forall i | 0 <= i < |ao|
        ensures Get(bo, ao[i].key).Some? && JsonEquivalent(ao[i].value, Get(bo, ao[i].key).value)
      {
        assert ao[i] in bo;
        var j :| 0 <= j < |bo| && bo[j] == ao[i];
        GetOwnMember(bo, j);
        EquivalentIffSameDenotation(ao[i].value, ao[i].value);
      }
    }
    if JsonEquivalent(Object(ao), Object(bo)) {
      forall m | m in ao ensures exists m' :: m' in bo && m'.key == m.key && JsonEquivalent(m.value, m'.value) {
        var i :| 0 <= i < |ao| && ao[i] == m;
        GetFindsMember(bo, ao[i].key);
        var m' := Member(m.key, Get(bo, m.key).value);
        assert m' in bo;
      }
    }
  }
}
