/** The JSON tree a reader owns, and the primitive operations on an object's
    members that the navigation engine is built from (HasMember, operator[],
    member assignment and AddMember of rapidjson::Value). */
module JsonValue {
  import opened Results

  /** A JSON node. Numbers are one kind: rapidjson decides IsInt, IsUint,
      IsInt64 and IsUint64 from the value's range, which the predicates below
      restate. An object is a list of members in insertion order. */
  datatype Json =
    | Null
    | Bool(b: bool)
    | Num(n: int)
    | Str(s: string)
    | Arr(items: seq<Json>)
    | Obj(members: seq<Member>)

  datatype Member = Member(key: string, value: Json)

  /** rapidjson's number flags, as ranges of the stored value. */
  predicate IsInt(j: Json) { j.Num? && -0x8000_0000 <= j.n < 0x8000_0000 }
  predicate IsUint(j: Json) { j.Num? && 0 <= j.n < 0x1_0000_0000 }
  predicate IsInt64(j: Json) { j.Num? && -0x8000_0000_0000_0000 <= j.n < 0x8000_0000_0000_0000 }
  predicate IsUint64(j: Json) { j.Num? && 0 <= j.n < 0x1_0000_0000_0000_0000 }

  /** The member names of an object, in order. */
  function Keys(ms: seq<Member>): (ks: seq<string>)
    ensures |ks| == |ms|
    ensures forall i :: 0 <= i < |ms| ==> ks[i] == ms[i].key
  {
    seq(|ms|, i requires 0 <= i < |ms| => ms[i].key)
  }

  /** No two members share a name. */
  predicate UniqueKeys(ms: seq<Member>) {
    forall i, j :: 0 <= i < j < |ms| ==> ms[i].key != ms[j].key
  }

  /** Position of the first member named `key`, or -1 (FindMember). */
  function IndexOf(ms: seq<Member>, key: string): (i: int)
    ensures -1 <= i < |ms|
    ensures i == -1 <==> key !in Keys(ms)
    ensures 0 <= i ==> ms[i].key == key && forall j :: 0 <= j < i ==> ms[j].key != key
  {
    if |ms| == 0 then -1
    else if ms[0].key == key then 0
    else
      var i := IndexOf(ms[1..], key);
      KeysOfTail(ms);
      if i == -1 then -1 else i + 1
  }

  /** The names of a non-empty list: the first one, then the tail's. */
  lemma KeysOfTail(ms: seq<Member>)
    requires |ms| > 0
    ensures Keys(ms) == [ms[0].key] + Keys(ms[1..])
    ensures forall k :: k in Keys(ms) <==> k == ms[0].key || k in Keys(ms[1..])
  {
    assert Keys(ms) == [ms[0].key] + Keys(ms[1..]);
  }

  /** The value of the first member named `key` (operator[] after HasMember). */
  function MemberValue(ms: seq<Member>, key: string): (r: Option<Json>)
    ensures r.Some? <==> key in Keys(ms)
    ensures r.Some? ==> exists i :: 0 <= i < |ms| && ms[i] == Member(key, r.value) && forall j :: 0 <= j < i ==> ms[j].key != key
  {
    var i := IndexOf(ms, key);
    if i < 0 then None else Some(ms[i].value)
  }

  /** Two member lists with the same names in the same order find each name
      at the same position. */
  lemma {:induction false} IndexOfFollowsKeys(a: seq<Member>, b: seq<Member>, key: string)
    requires Keys(a) == Keys(b)
    ensures IndexOf(a, key) == IndexOf(b, key)
  {
    if |a| > 0 && a[0].key != key {
      assert Keys(a[1..]) == Keys(a)[1..] && Keys(b[1..]) == Keys(b)[1..];
      IndexOfFollowsKeys(a[1..], b[1..], key);
    }
  }

  /** The write at the last key of a path: overwrite the existing member in
      place (member assignment), or append a new member with a copy of the key
      (AddMember). */
  function PutMember(ms: seq<Member>, key: string, v: Json): (r: seq<Member>)
    ensures MemberValue(r, key) == Some(v)
    ensures forall other :: other != key ==> MemberValue(r, other) == MemberValue(ms, other)
    ensures key in Keys(ms) ==> Keys(r) == Keys(ms)
    ensures key !in Keys(ms) ==> r == ms + [Member(key, v)]
    ensures forall i :: 0 <= i < |ms| && ms[i].key != key ==> r[i] == ms[i]
    ensures forall i :: 0 <= i < |ms| && i != IndexOf(ms, key) ==> r[i] == ms[i]
    ensures UniqueKeys(ms) ==> UniqueKeys(r)
  {
    var i := IndexOf(ms, key);
    if i >= 0 then
      OverwriteLookups(ms, i, key, v);
      ms[i := Member(key, v)]
    else
      AppendLookups(ms, key, v);
      ms + [Member(key, v)]
  }

  /** Overwriting a member in place keeps every name where it was. */
  lemma OverwriteLookups(ms: seq<Member>, i: int, key: string, v: Json)
    requires 0 <= i && i == IndexOf(ms, key)
    ensures Keys(ms[i := Member(key, v)]) == Keys(ms)
    ensures MemberValue(ms[i := Member(key, v)], key) == Some(v)
    ensures forall other :: other != key ==> MemberValue(ms[i := Member(key, v)], other) == MemberValue(ms, other)
  {
    var r := ms[i := Member(key, v)];
    OverwriteKeepsKeys(ms, i, Member(key, v));
    IndexOfFollowsKeys(r, ms, key);
    forall other | other != key
      ensures MemberValue(r, other) == MemberValue(ms, other)
    {
      IndexOfFollowsKeys(r, ms, other);
    }
  }

  /** Replacing a member by one of the same name keeps the list of names. */
  lemma OverwriteKeepsKeys(ms: seq<Member>, i: int, m: Member)
    requires 0 <= i < |ms| && ms[i].key == m.key
    ensures Keys(ms[i := m]) == Keys(ms)
  {
    assert forall j :: 0 <= j < |ms| ==> ms[i := m][j].key == ms[j].key;
  }

  /** Appending a member with a new name leaves the other lookups alone. */
  lemma AppendLookups(ms: seq<Member>, key: string, v: Json)
    requires key !in Keys(ms)
    ensures Keys(ms + [Member(key, v)]) == Keys(ms) + [key]
    ensures MemberValue(ms + [Member(key, v)], key) == Some(v)
    ensures forall other :: other != key ==> MemberValue(ms + [Member(key, v)], other) == MemberValue(ms, other)
  {
    var r := ms + [Member(key, v)];
    assert Keys(r) == Keys(ms) + [key];
    forall other | other != key
      ensures MemberValue(r, other) == MemberValue(ms, other)
    {
      if other in Keys(ms) {
        var j := IndexOf(ms, other);
        assert r[j] == ms[j];
        assert IndexOf(r, other) == j;
      }
    }
  }

  /** Writing the same name twice leaves only the second write. */
  lemma {:induction false} PutMemberTwice(ms: seq<Member>, key: string, a: Json, b: Json)
    ensures PutMember(PutMember(ms, key, a), key, b) == PutMember(ms, key, b)
  {
    var i := IndexOf(ms, key);
    var once := PutMember(ms, key, a);
    PutMemberPosition(ms, key, a);
    PutMemberShape(ms, key, a);
    PutMemberShape(once, key, b);
    PutMemberShape(ms, key, b);
    if i >= 0 {
      OverwriteTwice(ms, i, Member(key, a), Member(key, b));
    } else {
      OverwriteAppended(ms, Member(key, a), Member(key, b));
    }
  }

  /** A put is an overwrite at the name's first position, or an append. */
  lemma PutMemberShape(ms: seq<Member>, key: string, v: Json)
    ensures IndexOf(ms, key) >= 0 ==> PutMember(ms, key, v) == ms[IndexOf(ms, key) := Member(key, v)]
    ensures IndexOf(ms, key) < 0 ==> PutMember(ms, key, v) == ms + [Member(key, v)]
  {
  }

  /** Two writes at one position leave the second. */
  lemma OverwriteTwice(ms: seq<Member>, i: int, a: Member, b: Member)
    requires 0 <= i < |ms|
    ensures ms[i := a][i := b] == ms[i := b]
  {
  }

  /** Overwriting a member just appended is appending the new one. */
  lemma OverwriteAppended(ms: seq<Member>, a: Member, b: Member)
    ensures (ms + [a])[|ms| := b] == ms + [b]
  {
  }

  /** After a put, the name is found where it was, or at the end. */
  lemma PutMemberPosition(ms: seq<Member>, key: string, v: Json)
    ensures IndexOf(PutMember(ms, key, v), key) == if IndexOf(ms, key) >= 0 then IndexOf(ms, key) else |ms|
  {
    var i := IndexOf(ms, key);
    var r := PutMember(ms, key, v);
    var j := IndexOf(r, key);
    var at := if i >= 0 then i else |ms|;
    assert r[at].key == key;
    assert Keys(r)[at] == key;
    assert forall k :: 0 <= k < at ==> r[k].key != key;
  }

  /** Every object in the tree has unique member names. */
  predicate WellFormed(j: Json)
    decreases j
  {
    match j
    case Arr(items) => forall i :: 0 <= i < |items| ==> WellFormed(items[i])
    case Obj(ms) => UniqueKeys(ms) && forall i :: 0 <= i < |ms| ==> WellFormed(ms[i].value)
    case _ => true
  }

  /** A put into a well-formed object keeps it well-formed. */
  lemma PutMemberWellFormed(ms: seq<Member>, key: string, v: Json)
    requires WellFormed(Obj(ms)) && WellFormed(v)
    ensures WellFormed(Obj(PutMember(ms, key, v)))
  {
    var r := PutMember(ms, key, v);
    forall i | 0 <= i < |r| ensures WellFormed(r[i].value) {
      if i < |ms| && ms[i].key != key {
        assert r[i] == ms[i];
      } else {
        assert r[i].key == key;
        assert IndexOf(r, key) == i;
      }
    }
  }
}
