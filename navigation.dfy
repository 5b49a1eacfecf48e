/** The key-path navigation engine: existence test, lookup, shallow set and
    deep set. Every helper takes the object it starts from, one required
    `currentKey` and a possibly empty rest `keys`, as the recursive helpers of
    GenericConfigReader do, so a path always has at least one key and the
    recursion stops when `keys` is empty. */
module Navigation {
  import opened Results
  import opened JsonValue

  /** ContainsKeyRecursive: true when every key of the path names a member of
      the object reached so far. A non-object on the way answers false (the
      source's HasMember asserts there instead). */
  function ContainsKeyRecursive(obj: Json, currentKey: string, keys: seq<string>): (r: bool)
    ensures r ==> obj.Obj? && currentKey in Keys(obj.members)
    ensures r && keys != [] ==> ContainsKeyRecursive(MemberValue(obj.members, currentKey).value, keys[0], keys[1..])
    decreases |keys|
  {
    && obj.Obj?
    && match MemberValue(obj.members, currentKey)
       case None => false
       case Some(child) => keys == [] || ContainsKeyRecursive(child, keys[0], keys[1..])
  }

  /** The const GetValueRefRecursive: the node at the path, or why there is
      none. */
  function GetValueRefRecursive(obj: Json, currentKey: string, keys: seq<string>): (r: Result<Json>)
    ensures r.Failure? ==> r.error == MissingKey || r.error == WrongNodeKind
    decreases |keys|
  {
    if !obj.Obj? then Failure(WrongNodeKind)
    else match MemberValue(obj.members, currentKey)
      case None => Failure(MissingKey)
      case Some(child) =>
        if keys == [] then Success(child) else GetValueRefRecursive(child, keys[0], keys[1..])
  }

  /** Lookup along a whole path, where the empty path names the node itself. */
  function Resolve(obj: Json, path: seq<string>): (r: Result<Json>)
    ensures path == [] ==> r == Success(obj)
  {
    if path == [] then Success(obj) else GetValueRefRecursive(obj, path[0], path[1..])
  }

  /** The shallow SetValueRecursive: every intermediate object must exist
      already. At the last key the member is overwritten in place or appended.
      The source's recursive branch (rapid_json_config_reader.hpp:1784-1788)
      passes the child node where a key is expected and so never compiles for
      paths longer than one key; this descends into that child, and fails
      when it is missing or not an object. */
  function ShallowSet(obj: Json, value: Json, currentKey: string, keys: seq<string>): (r: Result<Json>)
    ensures r.Failure? ==> r.error == InvalidPathSegment || r.error == WrongNodeKind
    ensures r.Success? ==> r.value.Obj? && currentKey in Keys(r.value.members)
    decreases |keys|
  {
    if !obj.Obj? then Failure(WrongNodeKind)
    else if keys == [] then Success(Obj(PutMember(obj.members, currentKey, value)))
    else match MemberValue(obj.members, currentKey)
      case None => Failure(InvalidPathSegment)
      case Some(child) =>
        match ShallowSet(child, value, keys[0], keys[1..])
        case Failure(e) => Failure(e)
        case Success(updated) => Success(Obj(PutMember(obj.members, currentKey, updated)))
  }

  /** The deep SetDeepValueRecursive: a missing intermediate key is first
      added as an empty object, and the descent continues into that new
      object. An intermediate node that exists but is not an object makes the
      set fail. */
  function DeepSet(obj: Json, value: Json, currentKey: string, keys: seq<string>): (r: Result<Json>)
    ensures r.Failure? ==> r.error == WrongNodeKind
    decreases |keys|
  {
    if !obj.Obj? then Failure(WrongNodeKind)
    else if keys == [] then Success(Obj(PutMember(obj.members, currentKey, value)))
    else
      var child := ChildOrEmpty(obj.members, currentKey);
      match DeepSet(child, value, keys[0], keys[1..])
      case Failure(e) => Failure(e)
      case Success(updated) => Success(Obj(PutMember(obj.members, currentKey, updated)))
  }

  /** The member named `key`, or the empty object a deep set adds in its
      place. */
  function ChildOrEmpty(ms: seq<Member>, key: string): (child: Json)
    ensures key in Keys(ms) ==> MemberValue(ms, key) == Some(child)
    ensures key !in Keys(ms) ==> child == Obj([])
  {
    match MemberValue(ms, key)
    case None => Obj([])
    case Some(c) => c
  }

  /** The chain of single-member objects that a deep set builds below a
      missing key: Nested(["b", "c"], v) is {"b": {"c": v}}. */
  function Nested(keys: seq<string>, value: Json): (j: Json)
    ensures keys != [] ==> j.Obj? && |j.members| == 1 && j.members[0].key == keys[0]
    ensures keys == [] ==> j == value
    ensures keys != [] ==> GetValueRefRecursive(j, keys[0], keys[1..]) == Success(value)
    decreases |keys|
  {
    if keys == [] then value else Obj([Member(keys[0], Nested(keys[1..], value))])
  }

  /** Two paths part ways: neither is a prefix of the other. */
  predicate Diverges(p: seq<string>, q: seq<string>)
    decreases |p|
  {
    |p| > 0 && |q| > 0 && (p[0] != q[0] || Diverges(p[1..], q[1..]))
  }

  /** The parent of the path's last key exists and is an object. */
  predicate ParentIsObject(obj: Json, currentKey: string, keys: seq<string>) {
    var parent := Resolve(obj, ([currentKey] + keys)[..|keys|]);
    parent.Success? && parent.value.Obj?
  }

  /** Conversely, a member whose rest of the path has an object parent gives
      the whole path an object parent. */
  lemma ParentIsObjectLift(obj: Json, currentKey: string, keys: seq<string>, child: Json)
    requires keys != [] && obj.Obj? && MemberValue(obj.members, currentKey) == Some(child)
    requires ParentIsObject(child, keys[0], keys[1..])
    ensures ParentIsObject(obj, currentKey, keys)
  {
    var rest := keys[..|keys| - 1];
    assert ([currentKey] + keys)[..|keys|] == [currentKey] + rest;
    assert ([keys[0]] + keys[1..])[..|keys[1..]|] == rest;
    ResolveStep(obj, currentKey, rest, child);
  }

  /** Below the first key of a longer path, the parent is still an object:
      the first key names a member, and the rest of the path has the same
      parent inside it. */
  lemma ParentIsObjectStep(obj: Json, currentKey: string, keys: seq<string>)
    requires keys != [] && ParentIsObject(obj, currentKey, keys)
    ensures obj.Obj? && currentKey in Keys(obj.members)
    ensures ParentIsObject(MemberValue(obj.members, currentKey).value, keys[0], keys[1..])
  {
    var rest := keys[..|keys| - 1];
    assert ([currentKey] + keys)[..|keys|] == [currentKey] + rest;
    assert ([currentKey] + rest)[0] == currentKey && ([currentKey] + rest)[1..] == rest;
    assert GetValueRefRecursive(obj, currentKey, rest).Success?;
    var child := MemberValue(obj.members, currentKey).value;
    ResolveStep(obj, currentKey, rest, child);
    assert ([keys[0]] + keys[1..])[..|keys[1..]|] == rest;
  }

  /** No node along the path above its last key exists as a non-object. */
  predicate NoScalarAbove(obj: Json, currentKey: string, keys: seq<string>) {
    && obj.Obj?
    && forall n :: 1 <= n <= |keys| ==> ObjectOrAbsent(Resolve(obj, ([currentKey] + keys)[..n]))
  }

  predicate ObjectOrAbsent(r: Result<Json>) {
    r.Success? ==> r.value.Obj?
  }

  // ---------------------------------------------------------------------
  // Lookup

  /** Descending one key into an object is resolving the rest of the path in
      that member. */
  lemma ResolveStep(obj: Json, key: string, rest: seq<string>, child: Json)
    requires obj.Obj? && MemberValue(obj.members, key) == Some(child)
    ensures Resolve(obj, [key] + rest) == Resolve(child, rest)
  {
    assert ([key] + rest)[1..] == rest;
  }

  /** Two objects that agree on one member agree on every path through it. */
  lemma SameMemberSameLookup(a: Json, b: Json, key: string, rest: seq<string>)
    requires a.Obj? && b.Obj? && MemberValue(a.members, key) == MemberValue(b.members, key)
    ensures Resolve(a, [key] + rest) == Resolve(b, [key] + rest)
  {
    assert ([key] + rest)[1..] == rest;
  }

  /** ContainsKey holds exactly when GetValueRef finds a node. */
  lemma {:induction false} ContainsKeyIffFound(obj: Json, currentKey: string, keys: seq<string>)
    ensures ContainsKeyRecursive(obj, currentKey, keys) <==> GetValueRefRecursive(obj, currentKey, keys).Success?
    decreases |keys|
  {
    if obj.Obj? && keys != [] {
      match MemberValue(obj.members, currentKey)
      case None =>
      case Some(child) => ContainsKeyIffFound(child, keys[0], keys[1..]);
    }
  }

  /** ContainsKey answers false as soon as one key is not a member of the
      object reached so far. */
  lemma {:induction false} ContainsKeyStopsAtMissingMember(obj: Json, path: seq<string>, n: nat)
    requires |path| > 0 && n < |path|
    requires var above := Resolve(obj, path[..n]);
             above.Success? && above.value.Obj? && path[n] !in Keys(above.value.members)
    ensures !ContainsKeyRecursive(obj, path[0], path[1..])
    decreases n
  {
    ContainsKeyIffFound(obj, path[0], path[1..]);
    if n > 0 {
      assert obj.Obj?;
      var child := MemberValue(obj.members, path[0]).value;
      assert path[..n] == [path[0]] + path[1..][..n - 1];
      ResolveStep(obj, path[0], path[1..][..n - 1], child);
      ContainsKeyStopsAtMissingMember(child, path[1..], n - 1);
      ContainsKeyIffFound(child, path[1], path[2..]);
    }
  }

  // ---------------------------------------------------------------------
  // Shallow and deep set

  /** A shallow set succeeds exactly when the parent of the last key exists
      and is an object: it never creates an intermediate level. */
  lemma {:induction false} ShallowSetSucceedsIff(obj: Json, value: Json, currentKey: string, keys: seq<string>)
    ensures ShallowSet(obj, value, currentKey, keys).Success? <==> ParentIsObject(obj, currentKey, keys)
    decreases |keys|
  {
    if obj.Obj? && keys != [] {
      assert ([currentKey] + keys)[..|keys|] == [currentKey] + keys[..|keys| - 1];
      match MemberValue(obj.members, currentKey)
      case None =>
      case Some(child) =>
        ShallowSetSucceedsIff(child, value, keys[0], keys[1..]);
        ResolveStep(obj, currentKey, keys[..|keys| - 1], child);
        assert ([keys[0]] + keys[1..])[..|keys[1..]|] == keys[..|keys| - 1];
    }
  }

  /** Where a shallow set succeeds, a deep set gives the same document. */
  lemma {:induction false} ShallowSetIsDeepSet(obj: Json, value: Json, currentKey: string, keys: seq<string>)
    requires ShallowSet(obj, value, currentKey, keys).Success?
    ensures DeepSet(obj, value, currentKey, keys) == ShallowSet(obj, value, currentKey, keys)
    decreases |keys|
  {
    if keys != [] {
      var child := MemberValue(obj.members, currentKey).value;
      ShallowSetIsDeepSet(child, value, keys[0], keys[1..]);
    }
  }

  /** Below a key the object lacks, a deep set appends one member holding the
      chain of new objects down to the value. */
  lemma {:induction false} DeepSetCreatesMissing(obj: Json, value: Json, currentKey: string, keys: seq<string>)
    requires obj.Obj? && currentKey !in Keys(obj.members)
    ensures DeepSet(obj, value, currentKey, keys)
            == Success(Obj(obj.members + [Member(currentKey, Nested(keys, value))]))
    decreases |keys|
  {
    if keys != [] {
      DeepSetCreatesMissing(Obj([]), value, keys[0], keys[1..]);
      assert [] + [Member(keys[0], Nested(keys[1..], value))] == [Member(keys[0], Nested(keys[1..], value))];
    }
  }

  /** A deep set succeeds exactly when the root is an object and nothing
      above the last key exists as a non-object. */
  lemma {:induction false} DeepSetSucceedsIff(obj: Json, value: Json, currentKey: string, keys: seq<string>)
    ensures DeepSet(obj, value, currentKey, keys).Success? <==> NoScalarAbove(obj, currentKey, keys)
    decreases |keys|
  {
    if obj.Obj? && keys != [] {
      var path := [currentKey] + keys;
      match MemberValue(obj.members, currentKey)
      case None =>
        DeepSetCreatesMissing(obj, value, currentKey, keys);
        forall n | 1 <= n <= |keys| ensures ObjectOrAbsent(Resolve(obj, path[..n])) {
          assert path[..n][0] == currentKey;
        }
      case Some(child) =>
        DeepSetSucceedsIff(child, value, keys[0], keys[1..]);
        assert [keys[0]] + keys[1..] == keys;
        forall n | 1 <= n <= |keys|
          ensures Resolve(obj, path[..n]) == Resolve(child, keys[..n - 1])
        {
          assert path[..n] == [currentKey] + keys[..n - 1];
          ResolveStep(obj, currentKey, keys[..n - 1], child);
        }
        assert Resolve(child, keys[..0]) == Success(child);
        if NoScalarAbove(obj, currentKey, keys) {
          assert ObjectOrAbsent(Resolve(obj, path[..1]));
          forall m | 1 <= m <= |keys[1..]|
            ensures ObjectOrAbsent(Resolve(child, keys[..m]))
          {
            assert ObjectOrAbsent(Resolve(obj, path[..m + 1]));
          }
        }
        if NoScalarAbove(child, keys[0], keys[1..]) {
          forall n | 1 <= n <= |keys|
            ensures ObjectOrAbsent(Resolve(obj, path[..n]))
          {
            if n > 1 {
              assert ObjectOrAbsent(Resolve(child, keys[..n - 1]));
            }
          }
        }
    }
  }

  /** After a successful deep set the path exists and holds the value. */
  lemma {:induction false} DeepSetThenGet(obj: Json, value: Json, currentKey: string, keys: seq<string>)
    requires DeepSet(obj, value, currentKey, keys).Success?
    ensures GetValueRefRecursive(DeepSet(obj, value, currentKey, keys).value, currentKey, keys) == Success(value)
    ensures ContainsKeyRecursive(DeepSet(obj, value, currentKey, keys).value, currentKey, keys)
    decreases |keys|
  {
    if keys != [] {
      var child := ChildOrEmpty(obj.members, currentKey);
      DeepSetThenGet(child, value, keys[0], keys[1..]);
    }
    ContainsKeyIffFound(DeepSet(obj, value, currentKey, keys).value, currentKey, keys);
  }

  /** After a successful shallow set the path exists and holds the value. */
  lemma ShallowSetThenGet(obj: Json, value: Json, currentKey: string, keys: seq<string>)
    requires ShallowSet(obj, value, currentKey, keys).Success?
    ensures GetValueRefRecursive(ShallowSet(obj, value, currentKey, keys).value, currentKey, keys) == Success(value)
    ensures ContainsKeyRecursive(ShallowSet(obj, value, currentKey, keys).value, currentKey, keys)
  {
    ShallowSetIsDeepSet(obj, value, currentKey, keys);
    DeepSetThenGet(obj, value, currentKey, keys);
  }

  /** A deep set changes nothing that a path parting ways with its own path
      leads to: those lookups give the same node, or fail the same way. */
  lemma {:induction false} DeepSetFrame(obj: Json, value: Json, currentKey: string, keys: seq<string>, other: seq<string>)
    requires DeepSet(obj, value, currentKey, keys).Success?
    requires Diverges([currentKey] + keys, other)
    ensures Resolve(DeepSet(obj, value, currentKey, keys).value, other) == Resolve(obj, other)
    decreases |keys|, 1
  {
    assert other == [other[0]] + other[1..];
    if other[0] != currentKey {
      DeepSetFrameBeside(obj, value, currentKey, keys, other[0], other[1..]);
    } else {
      assert ([currentKey] + keys)[1..] == keys;
      DeepSetFrameBelow(obj, value, currentKey, keys, other[1..]);
    }
  }

  /** The step of DeepSetFrame for a path whose first key is another member. */
  lemma DeepSetFrameBeside(obj: Json, value: Json, currentKey: string, keys: seq<string>, otherKey: string, rest: seq<string>)
    requires DeepSet(obj, value, currentKey, keys).Success?
    requires otherKey != currentKey
    ensures Resolve(DeepSet(obj, value, currentKey, keys).value, [otherKey] + rest) == Resolve(obj, [otherKey] + rest)
  {
    DeepSetKeepsOtherMembers(obj, value, currentKey, keys, otherKey);
    SameMemberSameLookup(DeepSet(obj, value, currentKey, keys).value, obj, otherKey, rest);
  }

  /** A deep set rewrites only the member named by the path's first key. */
  lemma DeepSetKeepsOtherMembers(obj: Json, value: Json, currentKey: string, keys: seq<string>, otherKey: string)
    requires DeepSet(obj, value, currentKey, keys).Success?
    requires otherKey != currentKey
    ensures DeepSet(obj, value, currentKey, keys).value.Obj?
    ensures MemberValue(DeepSet(obj, value, currentKey, keys).value.members, otherKey) == MemberValue(obj.members, otherKey)
  {
    var written := if keys == [] then value
                   else DeepSet(ChildOrEmpty(obj.members, currentKey), value, keys[0], keys[1..]).value;
    assert DeepSet(obj, value, currentKey, keys).value == Obj(PutMember(obj.members, currentKey, written));
  }

  /** The step of DeepSetFrame for a path that shares the first key. */
  lemma {:induction false} DeepSetFrameBelow(obj: Json, value: Json, currentKey: string, keys: seq<string>, rest: seq<string>)
    requires DeepSet(obj, value, currentKey, keys).Success?
    requires Diverges(keys, rest)
    ensures Resolve(DeepSet(obj, value, currentKey, keys).value, [currentKey] + rest) == Resolve(obj, [currentKey] + rest)
    decreases |keys|, 0
  {
    var child := ChildOrEmpty(obj.members, currentKey);
    var updated := DeepSet(child, value, keys[0], keys[1..]).value;
    assert [keys[0]] + keys[1..] == keys;
    DeepSetFrame(child, value, keys[0], keys[1..], rest);
    ResolveStep(DeepSet(obj, value, currentKey, keys).value, currentKey, rest, updated);
    if MemberValue(obj.members, currentKey).Some? {
      ResolveStep(obj, currentKey, rest, child);
    } else {
      assert Resolve(obj, [currentKey] + rest) == Failure(MissingKey);
    }
  }

  /** A shallow set has the same frame. */
  lemma ShallowSetFrame(obj: Json, value: Json, currentKey: string, keys: seq<string>, other: seq<string>)
    requires ShallowSet(obj, value, currentKey, keys).Success?
    requires Diverges([currentKey] + keys, other)
    ensures Resolve(ShallowSet(obj, value, currentKey, keys).value, other) == Resolve(obj, other)
  {
    ShallowSetIsDeepSet(obj, value, currentKey, keys);
    DeepSetFrame(obj, value, currentKey, keys, other);
  }

  /** Setting a path twice is setting it once with the second value: the
      second write overwrites in place, so no duplicate member and no extra
      intermediate object is left behind. */
  lemma {:induction false} DeepSetTwice(obj: Json, v1: Json, v2: Json, currentKey: string, keys: seq<string>)
    requires DeepSet(obj, v1, currentKey, keys).Success?
    ensures DeepSet(DeepSet(obj, v1, currentKey, keys).value, v2, currentKey, keys)
            == DeepSet(obj, v2, currentKey, keys)
    decreases |keys|
  {
    var ms := obj.members;
    if keys == [] {
      PutMemberTwice(ms, currentKey, v1, v2);
    } else {
      var child := ChildOrEmpty(ms, currentKey);
      var u1 := DeepSet(child, v1, keys[0], keys[1..]).value;
      DeepSetTwice(child, v1, v2, keys[0], keys[1..]);
      DeepSetSucceedsIff(child, v1, keys[0], keys[1..]);
      DeepSetSucceedsIff(child, v2, keys[0], keys[1..]);
      var u2 := DeepSet(child, v2, keys[0], keys[1..]).value;
      PutMemberTwice(ms, currentKey, u1, u2);
    }
  }

  /** Same for a shallow set. */
  lemma ShallowSetTwice(obj: Json, v1: Json, v2: Json, currentKey: string, keys: seq<string>)
    requires ShallowSet(obj, v1, currentKey, keys).Success?
    ensures ShallowSet(ShallowSet(obj, v1, currentKey, keys).value, v2, currentKey, keys)
            == ShallowSet(obj, v2, currentKey, keys)
  {
    ShallowSetIsDeepSet(obj, v1, currentKey, keys);
    ShallowSetSucceedsIff(obj, v1, currentKey, keys);
    ShallowSetSucceedsIff(obj, v2, currentKey, keys);
    ShallowSetIsDeepSet(obj, v2, currentKey, keys);
    DeepSetTwice(obj, v1, v2, currentKey, keys);
    var once := ShallowSet(obj, v1, currentKey, keys).value;
    DeepSetThenGet(obj, v1, currentKey, keys);
    ShallowSetParentKept(obj, v1, currentKey, keys);
    ShallowSetSucceedsIff(once, v2, currentKey, keys);
    ShallowSetIsDeepSet(once, v2, currentKey, keys);
  }

  /** A shallow set leaves the parent of its last key an object. */
  lemma {:induction false} ShallowSetParentKept(obj: Json, value: Json, currentKey: string, keys: seq<string>)
    requires ShallowSet(obj, value, currentKey, keys).Success?
    ensures ParentIsObject(ShallowSet(obj, value, currentKey, keys).value, currentKey, keys)
    decreases |keys|
  {
    var result := ShallowSet(obj, value, currentKey, keys).value;
    if keys != [] {
      var child := MemberValue(obj.members, currentKey).value;
      var updated := ShallowSet(child, value, keys[0], keys[1..]).value;
      ShallowSetParentKept(child, value, keys[0], keys[1..]);
      assert result == Obj(PutMember(obj.members, currentKey, updated));
      ParentIsObjectLift(result, currentKey, keys, updated);
    }
  }

  /** Both setters keep every object's member names unique, so after a set
      there is exactly one member with the written name. */
  lemma {:induction false} DeepSetWellFormed(obj: Json, value: Json, currentKey: string, keys: seq<string>)
    requires WellFormed(obj) && WellFormed(value)
    requires DeepSet(obj, value, currentKey, keys).Success?
    ensures WellFormed(DeepSet(obj, value, currentKey, keys).value)
    decreases |keys|
  {
    var ms := obj.members;
    if keys == [] {
      PutMemberWellFormed(ms, currentKey, value);
    } else {
      var child := ChildOrEmpty(ms, currentKey);
      DeepSetWellFormed(child, value, keys[0], keys[1..]);
      PutMemberWellFormed(ms, currentKey, DeepSet(child, value, keys[0], keys[1..]).value);
    }
  }

  lemma ShallowSetWellFormed(obj: Json, value: Json, currentKey: string, keys: seq<string>)
    requires WellFormed(obj) && WellFormed(value)
    requires ShallowSet(obj, value, currentKey, keys).Success?
    ensures WellFormed(ShallowSet(obj, value, currentKey, keys).value)
  {
    ShallowSetIsDeepSet(obj, value, currentKey, keys);
    DeepSetWellFormed(obj, value, currentKey, keys);
  }

  /** On an empty document, a shallow set of ("a", "b") fails for want of
      "a", while a deep set builds {"a": {"b": v}}. */
  lemma ShallowAndDeepOnEmptyDocument(v: Json)
    ensures ShallowSet(Obj([]), v, "a", ["b"]) == Failure(InvalidPathSegment)
    ensures DeepSet(Obj([]), v, "a", ["b"]) == Success(Obj([Member("a", Obj([Member("b", v)]))]))
  {
    DeepSetCreatesMissing(Obj([]), v, "a", ["b"]);
    assert Nested(["b"], v) == Obj([Member("b", v)]);
    assert [] + [Member("a", Obj([Member("b", v)]))] == [Member("a", Obj([Member("b", v)]))];
  }
}
