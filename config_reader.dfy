/** The reader object: one configuration file path and the one document it
    owns. Queries read the document; setters and Read replace it. */
module ConfigReaders {
  import opened Results
  import opened JsonValue
  import opened Navigation
  import opened TypedAccessors

  class ConfigReader {
    const configFilePath: string
    var doc: Json

    /** A reader is always built from a path; its document starts out as the
        null value a fresh rapidjson::Document holds. */
    constructor (configFilePath: string)
      ensures this.configFilePath == configFilePath
      ensures doc == Null
    {
      this.configFilePath := configFilePath;
      doc := Null;
    }

    /** The read-only view of the document. */
    function JsonDocument(): (d: Json)
      reads this
      ensures d == doc
    {
      doc
    }

    /** Read, as intended: a missing file is first created holding `{}`,
        then the file is parsed. The file system is reduced to whether the
        file existed, whether it could be opened for reading, and what the
        parser produced from an existing file; the parse result is taken
        without checking it for errors, as the code does. The code as written
        also refuses a file that already exists (see Findings.ReadAsWritten). */
    method Read(fileExisted: bool, readable: bool, parsed: Json) returns (ok: bool)
      modifies this
      ensures ok <==> readable
      ensures ok && fileExisted ==> doc == parsed
      ensures ok && !fileExisted ==> doc == Obj([])
      ensures !ok ==> doc == old(doc)
    {
      if !readable {
        return false;
      }
      if fileExisted {
        doc := parsed;
      } else {
        doc := Obj([]);
      }
      return true;
    }

    /** ContainsKey over the document. */
    function ContainsKey(firstKey: string, keys: seq<string>): (r: bool)
      reads this
      ensures r <==> GetValueRefRecursive(doc, firstKey, keys).Success?
    {
      ContainsKeyIffFound(doc, firstKey, keys);
      ContainsKeyRecursive(doc, firstKey, keys)
    }

    /** GetValueRef over the document. */
    function GetValueRef(firstKey: string, keys: seq<string>): (r: Result<Json>)
      reads this
      ensures r.Success? <==> ContainsKeyRecursive(doc, firstKey, keys)
      ensures r.Failure? ==> r.error == MissingKey || r.error == WrongNodeKind
    {
      ContainsKeyIffFound(doc, firstKey, keys);
      GetValueRefRecursive(doc, firstKey, keys)
    }

    // -------------------------------------------------------------------
    // The recursive setters. The source rewrites the object it holds a
    // reference to; here each level returns its rewritten object.

    /** SetValueRecursive: the shallow set, one key at a time. */
    static method SetValueRecursive(value: Json, obj: Json, currentKey: string, keys: seq<string>) returns (r: Result<Json>)
      ensures r == ShallowSet(obj, value, currentKey, keys)
      decreases |keys|
    {
      if !obj.Obj? {
        return Failure(WrongNodeKind);
      }
      var members := obj.members;
      var i := IndexOf(members, currentKey);
      if keys == [] {
        if i >= 0 {
          members := members[i := Member(currentKey, value)];
        } else {
          members := members + [Member(currentKey, value)];
        }
        return Success(Obj(members));
      }
      if i < 0 {
        return Failure(InvalidPathSegment);
      }
      var child := SetValueRecursive(value, members[i].value, keys[0], keys[1..]);
      if child.Failure? {
        return Failure(child.error);
      }
      members := members[i := Member(currentKey, child.value)];
      return Success(Obj(members));
    }

    /** SetDeepValueRecursive: the deep set, adding an empty object for a
        missing intermediate key before descending into it. */
    static method SetDeepValueRecursive(value: Json, obj: Json, currentKey: string, keys: seq<string>) returns (r: Result<Json>)
      ensures r == DeepSet(obj, value, currentKey, keys)
      decreases |keys|
    {
      if !obj.Obj? {
        return Failure(WrongNodeKind);
      }
      var members := obj.members;
      var i := IndexOf(members, currentKey);
      if keys == [] {
        if i >= 0 {
          members := members[i := Member(currentKey, value)];
        } else {
          members := members + [Member(currentKey, value)];
        }
        return Success(Obj(members));
      }
      ghost var original := members;
      if i < 0 {
        members := members + [Member(currentKey, Obj([]))];
        i := |members| - 1;
      }
      var child := SetDeepValueRecursive(value, members[i].value, keys[0], keys[1..]);
      if child.Failure? {
        return Failure(child.error);
      }
      members := members[i := Member(currentKey, child.value)];
      if currentKey !in Keys(original) {
        assert members == original + [Member(currentKey, child.value)];
      }
      return Success(Obj(members));
    }

    /** SetValue: a shallow set on the document. On success the path holds
        the value; where the source would assert, the document is left as it
        was and the failure is reported. */
    method SetValue(value: Json, firstKey: string, keys: seq<string>) returns (s: Status)
      modifies this
      ensures s == Done <==> ParentIsObject(old(doc), firstKey, keys)
      ensures s == Done ==> ShallowSet(old(doc), value, firstKey, keys) == Success(doc)
      ensures s == Done ==> GetValueRefRecursive(doc, firstKey, keys) == Success(value)
      ensures s.Failed? ==> doc == old(doc) && ShallowSet(old(doc), value, firstKey, keys) == Failure(s.error)
    {
      var r := SetValueRecursive(value, doc, firstKey, keys);
      ShallowSetSucceedsIff(doc, value, firstKey, keys);
      if r.Failure? {
        return Failed(r.error);
      }
      ShallowSetThenGet(doc, value, firstKey, keys);
      doc := r.value;
      return Done;
    }

    /** SetDeepValue: a deep set on the document. */
    method SetDeepValue(value: Json, firstKey: string, keys: seq<string>) returns (s: Status)
      modifies this
      ensures s == Done <==> NoScalarAbove(old(doc), firstKey, keys)
      ensures s == Done ==> DeepSet(old(doc), value, firstKey, keys) == Success(doc)
      ensures s == Done ==> GetValueRefRecursive(doc, firstKey, keys) == Success(value)
      ensures s.Failed? ==> doc == old(doc) && DeepSet(old(doc), value, firstKey, keys) == Failure(WrongNodeKind) && s.error == WrongNodeKind
    {
      var r := SetDeepValueRecursive(value, doc, firstKey, keys);
      DeepSetSucceedsIff(doc, value, firstKey, keys);
      if r.Failure? {
        return Failed(r.error);
      }
      DeepSetThenGet(doc, value, firstKey, keys);
      doc := r.value;
      return Done;
    }

    // -------------------------------------------------------------------
    // Arrays

    /** The PushBack loop of SetArray and SetDeepArray. */
    static method BuildArray<T>(xs: seq<T>, toJson: T -> Json) returns (jsonArray: Json)
      ensures jsonArray == Arr(Encoded(xs, toJson))
    {
      var items: seq<Json> := [];
      for i := 0 to |xs|
        invariant items == Encoded(xs[..i], toJson)
      {
        assert xs[..i + 1][..i] == xs[..i];
        items := items + [toJson(xs[i])];
      }
      assert xs[..|xs|] == xs;
      return Arr(items);
    }

    /** SetArray: the elements, in order, as an array stored by a shallow set.
        SetDeque and SetVector pass their container's order as `xs`. Its loops
        advance the iterator with `+= 1`, which the iterators of std::set and
        std::unordered_set lack, so SetSet and SetUnorderedSet do not compile
        and have no model. */
    method SetArray<T>(xs: seq<T>, toJson: T -> Json, firstKey: string, keys: seq<string>) returns (s: Status)
      modifies this
      ensures s == Done <==> ParentIsObject(old(doc), firstKey, keys)
      ensures s == Done ==> GetValueRefRecursive(doc, firstKey, keys) == Success(Arr(Encoded(xs, toJson)))
      ensures s == Done ==> ShallowSet(old(doc), Arr(Encoded(xs, toJson)), firstKey, keys) == Success(doc)
      ensures s.Failed? ==> doc == old(doc) && ShallowSet(old(doc), Arr(Encoded(xs, toJson)), firstKey, keys) == Failure(s.error)
    {
      var jsonArray := BuildArray(xs, toJson);
      s := SetValue(jsonArray, firstKey, keys);
    }

    /** SetDeepArray: the same array stored by a deep set. Its loops advance
        with `++`, so SetDeepDeque, SetDeepSet, SetDeepUnorderedSet and
        SetDeepVector all pass their container's iteration order as `xs`. */
    method SetDeepArray<T>(xs: seq<T>, toJson: T -> Json, firstKey: string, keys: seq<string>) returns (s: Status)
      modifies this
      ensures s == Done <==> NoScalarAbove(old(doc), firstKey, keys)
      ensures s == Done ==> GetValueRefRecursive(doc, firstKey, keys) == Success(Arr(Encoded(xs, toJson)))
      ensures s == Done ==> DeepSet(old(doc), Arr(Encoded(xs, toJson)), firstKey, keys) == Success(doc)
      ensures s.Failed? ==> doc == old(doc) && DeepSet(old(doc), Arr(Encoded(xs, toJson)), firstKey, keys) == Failure(WrongNodeKind) && s.error == WrongNodeKind
    {
      var jsonArray := BuildArray(xs, toJson);
      s := SetDeepValue(jsonArray, firstKey, keys);
    }

    /** GetArrayCopy into a sequence container (GetDeque, GetVector):
        each element converted and inserted at the end. An element of
        another kind fails, as its conversion asserts. */
    method GetSequenceCopy<T>(fromJson: Json -> Option<T>, firstKey: string, keys: seq<string>) returns (r: Result<seq<T>>)
      ensures r == GetSequence(doc, fromJson, firstKey, keys)
    {
      var node := GetValueRef(firstKey, keys);
      if node.Failure? {
        return Failure(node.error);
      }
      if !node.value.Arr? {
        return Failure(WrongNodeKind);
      }
      var items := node.value.items;
      var container: seq<T> := [];
      for i := 0 to |items|
        invariant Decoded(items[..i], fromJson) == Some(container)
      {
        var converted := fromJson(items[i]);
        if converted.None? {
          assert Decoded(items, fromJson).None?;
          return Failure(WrongNodeKind);
        }
        DecodedSnoc(items, i, fromJson, container, converted.value);
        container := container + [converted.value];
      }
      assert items[..|items|] == items;
      return Success(container);
    }

    /** GetArrayCopy into a set container (GetSet, GetUnorderedSet): the
        same loop, where inserting an element already present changes
        nothing. */
    method GetSetCopy<T(!new)>(fromJson: Json -> Option<T>, firstKey: string, keys: seq<string>) returns (r: Result<set<T>>)
      ensures r == GetSet(doc, fromJson, firstKey, keys)
    {
      var node := GetValueRef(firstKey, keys);
      if node.Failure? {
        return Failure(node.error);
      }
      if !node.value.Arr? {
        return Failure(WrongNodeKind);
      }
      var items := node.value.items;
      var container: set<T> := {};
      ghost var inserted: seq<T> := [];
      for i := 0 to |items|
        invariant Decoded(items[..i], fromJson) == Some(inserted)
        invariant container == Elements(inserted)
      {
        var converted := fromJson(items[i]);
        if converted.None? {
          assert Decoded(items, fromJson).None?;
          assert GetSequence(doc, fromJson, firstKey, keys) == Failure(WrongNodeKind);
          return Failure(WrongNodeKind);
        }
        DecodedSnoc(items, i, fromJson, inserted, converted.value);
        ElementsSnoc(inserted, converted.value);
        inserted := inserted + [converted.value];
        container := container + {converted.value};
      }
      assert items[..|items|] == items;
      assert GetSequence(doc, fromJson, firstKey, keys) == Success(inserted);
      return Success(container);
    }

    /** GetDequeOrDefault, GetVectorOrDefault (as intended: see the
        findings), GetSetOrDefault and GetUnorderedSetOrDefault, which copy the
        array only when HasX holds. */
    method GetSequenceCopyOrDefault<T>(default: seq<T>, fromJson: Json -> Option<T>, firstKey: string, keys: seq<string>) returns (r: Result<seq<T>>)
      ensures r == GetSequenceOrDefault(default, doc, fromJson, firstKey, keys)
    {
      if !Has(doc, DequeType, firstKey, keys) {
        return Success(default);
      }
      r := GetSequenceCopy(fromJson, firstKey, keys);
    }

    method GetSetCopyOrDefault<T(!new)>(default: set<T>, fromJson: Json -> Option<T>, firstKey: string, keys: seq<string>) returns (r: Result<set<T>>)
      ensures r == GetSetOrDefault(default, doc, fromJson, firstKey, keys)
    {
      if !Has(doc, SetType, firstKey, keys) {
        return Success(default);
      }
      r := GetSetCopy(fromJson, firstKey, keys);
    }

    // -------------------------------------------------------------------
    // Typed setters: each stores its value's node through SetValue or
    // SetDeepValue, after which the matching GetX reads it back.

    method SetBool(b: bool, firstKey: string, keys: seq<string>) returns (s: Status)
      modifies this
      ensures s == Done <==> ParentIsObject(old(doc), firstKey, keys)
      ensures s == Done ==> ShallowSet(old(doc), Bool(b), firstKey, keys) == Success(doc)
      ensures s == Done ==> GetBool(doc, firstKey, keys) == Success(b)
      ensures s.Failed? ==> doc == old(doc) && ShallowSet(old(doc), Bool(b), firstKey, keys) == Failure(s.error)
    {
      s := SetValue(Bool(b), firstKey, keys);
    }

    method SetDeepBool(b: bool, firstKey: string, keys: seq<string>) returns (s: Status)
      modifies this
      ensures s == Done <==> NoScalarAbove(old(doc), firstKey, keys)
      ensures s == Done ==> DeepSet(old(doc), Bool(b), firstKey, keys) == Success(doc)
      ensures s == Done ==> GetBool(doc, firstKey, keys) == Success(b)
      ensures s.Failed? ==> doc == old(doc) && DeepSet(old(doc), Bool(b), firstKey, keys) == Failure(WrongNodeKind) && s.error == WrongNodeKind
    {
      s := SetDeepValue(Bool(b), firstKey, keys);
    }

    /** SetInt, SetInt32, SetInt64, SetLong, SetLongLong, SetUnsignedInt,
        SetUnsignedInt32, SetUnsignedInt64, SetUnsignedLong and
        SetUnsignedLongLong: the argument's C++ type bounds `n`. */
    method SetNumber(t: NumericType, n: int, firstKey: string, keys: seq<string>) returns (s: Status)
      requires InRange(t, n)
      modifies this
      ensures s == Done <==> ParentIsObject(old(doc), firstKey, keys)
      ensures s == Done ==> ShallowSet(old(doc), Num(n), firstKey, keys) == Success(doc)
      ensures s == Done ==> GetNumber(t, doc, firstKey, keys) == Success(n)
      ensures s.Failed? ==> doc == old(doc) && ShallowSet(old(doc), Num(n), firstKey, keys) == Failure(s.error)
    {
      s := SetValue(Num(n), firstKey, keys);
    }

    method SetDeepNumber(t: NumericType, n: int, firstKey: string, keys: seq<string>) returns (s: Status)
      requires InRange(t, n)
      modifies this
      ensures s == Done <==> NoScalarAbove(old(doc), firstKey, keys)
      ensures s == Done ==> DeepSet(old(doc), Num(n), firstKey, keys) == Success(doc)
      ensures s == Done ==> GetNumber(t, doc, firstKey, keys) == Success(n)
      ensures s.Failed? ==> doc == old(doc) && DeepSet(old(doc), Num(n), firstKey, keys) == Failure(WrongNodeKind) && s.error == WrongNodeKind
    {
      s := SetDeepValue(Num(n), firstKey, keys);
    }

    method SetString(text: string, firstKey: string, keys: seq<string>) returns (s: Status)
      modifies this
      ensures s == Done <==> ParentIsObject(old(doc), firstKey, keys)
      ensures s == Done ==> ShallowSet(old(doc), Str(text), firstKey, keys) == Success(doc)
      ensures s == Done ==> GetString(doc, firstKey, keys) == Success(text)
      ensures s.Failed? ==> doc == old(doc) && ShallowSet(old(doc), Str(text), firstKey, keys) == Failure(s.error)
    {
      s := SetValue(Str(text), firstKey, keys);
    }

    method SetDeepString(text: string, firstKey: string, keys: seq<string>) returns (s: Status)
      modifies this
      ensures s == Done <==> NoScalarAbove(old(doc), firstKey, keys)
      ensures s == Done ==> DeepSet(old(doc), Str(text), firstKey, keys) == Success(doc)
      ensures s == Done ==> GetString(doc, firstKey, keys) == Success(text)
      ensures s.Failed? ==> doc == old(doc) && DeepSet(old(doc), Str(text), firstKey, keys) == Failure(WrongNodeKind) && s.error == WrongNodeKind
    {
      s := SetDeepValue(Str(text), firstKey, keys);
    }

    /** SetPath stores the path's text as a string node. */
    method SetPath(path: string, firstKey: string, keys: seq<string>) returns (s: Status)
      modifies this
      ensures s == Done <==> ParentIsObject(old(doc), firstKey, keys)
      ensures s == Done ==> ShallowSet(old(doc), Str(path), firstKey, keys) == Success(doc)
      ensures s == Done ==> GetPath(doc, firstKey, keys) == Success(path)
      ensures s.Failed? ==> doc == old(doc) && ShallowSet(old(doc), Str(path), firstKey, keys) == Failure(s.error)
    {
      s := SetValue(Str(path), firstKey, keys);
    }

    method SetDeepPath(path: string, firstKey: string, keys: seq<string>) returns (s: Status)
      modifies this
      ensures s == Done <==> NoScalarAbove(old(doc), firstKey, keys)
      ensures s == Done ==> DeepSet(old(doc), Str(path), firstKey, keys) == Success(doc)
      ensures s == Done ==> GetPath(doc, firstKey, keys) == Success(path)
      ensures s.Failed? ==> doc == old(doc) && DeepSet(old(doc), Str(path), firstKey, keys) == Failure(WrongNodeKind) && s.error == WrongNodeKind
    {
      s := SetDeepValue(Str(path), firstKey, keys);
    }
  }

  /** Reading a file that did not exist: the reader writes `{}` to it and
      parses it, after which no path is present. */
  lemma MissingFileBootstrap(firstKey: string, keys: seq<string>)
    ensures !ContainsKeyRecursive(Obj([]), firstKey, keys)
    ensures GetValueRefRecursive(Obj([]), firstKey, keys) == Failure(MissingKey)
  {
    assert Keys([]) == [];
  }
}
