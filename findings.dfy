/** Places where the reader's code, as written, does something other than
    what it evidently intends. Each is modelled here as written, next to an
    input that shows the difference; the rest of the model uses the intended
    behaviour (Navigation.DeepSet, TypedAccessors.Has,
    TypedAccessors.GetSequenceOrDefault, TypedAccessors.GetNumber,
    ConfigReaders.ConfigReader.Read). */
module Findings {
  import opened Results
  import opened JsonValue
  import opened Navigation
  import opened TypedAccessors

  // ---------------------------------------------------------------------
  // SetDeepValueRecursive takes the reference to the child before adding it

  /** SetDeepValueRecursive as written. The reference to the child is taken
      by operator[] before the missing member is added, so the descent goes
      into the detached node operator[] hands back for an absent name, not
      into the new empty object. The new member stays {} and the write below
      it is lost. (Build without assertions; with them operator[] aborts.) */
  function DeepSetAsWritten(obj: Json, value: Json, currentKey: string, keys: seq<string>): (r: Result<Json>)
    ensures r.Success? <==> DeepSet(obj, value, currentKey, keys).Success?
    decreases |keys|
  {
    if !obj.Obj? then Failure(WrongNodeKind)
    else if keys == [] then Success(Obj(PutMember(obj.members, currentKey, value)))
    else match MemberValue(obj.members, currentKey)
      case None =>
        DeepSetCreatesMissing(obj, value, currentKey, keys);
        Success(Obj(obj.members + [Member(currentKey, Obj([]))]))
      case Some(child) =>
        match DeepSetAsWritten(child, value, keys[0], keys[1..])
        case Failure(e) => Failure(e)
        case Success(updated) => Success(Obj(PutMember(obj.members, currentKey, updated)))
  }

  /** Where every key above the last one already exists, the code as
      written and the intended deep set agree. */
  lemma {:induction false} DeepSetAsWrittenAgreesOnExistingPath(obj: Json, value: Json, currentKey: string, keys: seq<string>)
    requires ParentIsObject(obj, currentKey, keys)
    ensures DeepSetAsWritten(obj, value, currentKey, keys) == DeepSet(obj, value, currentKey, keys)
    decreases |keys|
  {
    if keys != [] {
      ParentIsObjectStep(obj, currentKey, keys);
      var child := MemberValue(obj.members, currentKey).value;
      DeepSetAsWrittenAgreesOnExistingPath(child, value, keys[0], keys[1..]);
    }
  }

  /** On an empty document, a deep set of v at ("a", "b") as written leaves
      {"a": {}}, where v cannot be found; the intended deep set finds it. */
  lemma DeepSetAsWrittenLosesValue(v: Json)
    ensures DeepSetAsWritten(Obj([]), v, "a", ["b"]) == Success(Obj([Member("a", Obj([]))]))
    ensures GetValueRefRecursive(DeepSetAsWritten(Obj([]), v, "a", ["b"]).value, "a", ["b"]) == Failure(MissingKey)
    ensures GetValueRefRecursive(DeepSet(Obj([]), v, "a", ["b"]).value, "a", ["b"]) == Success(v)
  {
    assert [] + [Member("a", Obj([]))] == [Member("a", Obj([]))];
    ShallowAndDeepOnEmptyDocument(v);
    DeepSetThenGet(Obj([]), v, "a", ["b"]);
  }

  // ---------------------------------------------------------------------
  // HasString tests the string's pointer instead of the node's kind

  /** HasString as written: after ContainsKey it returns the pointer from
      GetString as a truth value, which asserts when the node is not a
      string. */
  function HasStringAsWritten(doc: Json, firstKey: string, keys: seq<string>): (r: Result<bool>)
    ensures r.Success? ==> r.value == Has(doc, StringType, firstKey, keys)
    ensures r.Failure? <==> var found := GetValueRefRecursive(doc, firstKey, keys);
                            found.Success? && !found.value.Str?
  {
    ContainsKeyIffFound(doc, firstKey, keys);
    if !ContainsKeyRecursive(doc, firstKey, keys) then Success(false)
    else if GetValueRefRecursive(doc, firstKey, keys).value.Str? then Success(true)
    else Failure(WrongNodeKind)
  }

  /** For {"k": 5}, HasString("k") as written asserts; intended, it is false. */
  lemma HasStringAsWrittenOnNumber()
    ensures HasStringAsWritten(Obj([Member("k", Num(5))]), "k", []) == Failure(WrongNodeKind)
    ensures !Has(Obj([Member("k", Num(5))]), StringType, "k", [])
  {
  }

  // ---------------------------------------------------------------------
  // GetVectorOrDefault tests ContainsKey instead of HasVector

  /** GetVectorOrDefault as written: the default only when ContainsKey
      fails, so a present non-array goes on to GetVector, which asserts. */
  function GetVectorOrDefaultAsWritten<T>(default: seq<T>, doc: Json, fromJson: Json -> Option<T>, firstKey: string, keys: seq<string>): (r: Result<seq<T>>)
    ensures r != GetSequenceOrDefault(default, doc, fromJson, firstKey, keys)
            <==> GetValueRefRecursive(doc, firstKey, keys).Success? && !Has(doc, VectorType, firstKey, keys)
    ensures r != GetSequenceOrDefault(default, doc, fromJson, firstKey, keys) ==> r == Failure(WrongNodeKind)
  {
    ContainsKeyIffFound(doc, firstKey, keys);
    if !ContainsKeyRecursive(doc, firstKey, keys) then Success(default)
    else GetSequence(doc, fromJson, firstKey, keys)
  }

  /** For {"v": 5}, GetVectorOrDefault(d, "v") as written asserts; intended,
      it returns d. */
  lemma GetVectorOrDefaultAsWrittenOnNumber(d: seq<int>)
    ensures GetVectorOrDefaultAsWritten(d, Obj([Member("v", Num(5))]), j => DecodeNumber(Int, j), "v", []) == Failure(WrongNodeKind)
    ensures GetSequenceOrDefault(d, Obj([Member("v", Num(5))]), j => DecodeNumber(Int, j), "v", []) == Success(d)
  {
  }

  // ---------------------------------------------------------------------
  // GetLong, GetUnsignedLong and GetUnsignedInt64 read through another width

  /** The range test of the rapidjson getter each GetX calls as written:
      GetLong calls GetInt, GetUnsignedLong calls GetUint (and HasUnsignedLong
      tests IsUint), and GetUnsignedInt64 calls GetInt64. */
  predicate ReadableAsWritten(t: NumericType, node: Json) {
    match t
    case Int | Int32 | Long => IsInt(node)
    case Int64 | LongLong | UInt64 => IsInt64(node)
    case UnsignedInt | UInt32 | UnsignedLong => IsUint(node)
    case UnsignedLongLong => IsUint64(node)
  }

  /** GetX of an integer family as written. GetLong reads through GetInt
      and GetUnsignedLong through GetUint, so both behave as their 32-bit
      counterparts; GetUnsignedInt64 converts the signed 64-bit result of
      GetInt64 to std::uint64_t, which wraps a negative number. */
  function GetNumberAsWritten(t: NumericType, doc: Json, firstKey: string, keys: seq<string>): (r: Result<int>)
    ensures r.Success? ==> InRange(t, r.value)
    ensures t != Long && t != UnsignedLong && t != UInt64 ==> r == GetNumber(t, doc, firstKey, keys)
    ensures t == Long ==> r == GetNumber(Int, doc, firstKey, keys)
    ensures t == UnsignedLong ==> r == GetNumber(UnsignedInt, doc, firstKey, keys)
  {
    match GetValueRefRecursive(doc, firstKey, keys)
    case Failure(e) => Failure(e)
    case Success(node) =>
      if !ReadableAsWritten(t, node) then Failure(WrongNodeKind)
      else if t == UInt64 then
        WrapToUInt64(node.n);
        Success(node.n % 0x1_0000_0000_0000_0000)
      else Success(node.n)
  }

  /** GetLong and GetUnsignedLong as written give the intended result
      exactly when the stored number fits the 32-bit getter, and otherwise
      fail. */
  lemma NarrowReadAsWritten(t: NumericType, doc: Json, firstKey: string, keys: seq<string>)
    requires t == Long || t == UnsignedLong
    ensures var intended := GetNumber(t, doc, firstKey, keys);
            intended.Success? ==>
              if ReadableAsWritten(t, Num(intended.value))
              then GetNumberAsWritten(t, doc, firstKey, keys) == intended
              else GetNumberAsWritten(t, doc, firstKey, keys) == Failure(WrongNodeKind)
    ensures GetNumberAsWritten(t, doc, firstKey, keys).Success? ==> GetNumberAsWritten(t, doc, firstKey, keys) == GetNumber(t, doc, firstKey, keys)
  {
    match GetValueRefRecursive(doc, firstKey, keys)
    case Failure(_) =>
    case Success(node) =>
      NumberAt(t, doc, firstKey, keys, node);
  }

  /** GetUnsignedInt64 as written agrees with the intended read below 2^63
      and fails on the rest of the unsigned 64-bit range, which
      HasUnsignedInt64 accepts; where the intended read fails, it still
      succeeds on a negative signed 64-bit number, wrapped by 2^64. */
  lemma UInt64ReadAsWritten(doc: Json, firstKey: string, keys: seq<string>)
    ensures var intended := GetNumber(UInt64, doc, firstKey, keys);
            intended.Success? ==>
              if intended.value < 0x8000_0000_0000_0000
              then GetNumberAsWritten(UInt64, doc, firstKey, keys) == intended
              else GetNumberAsWritten(UInt64, doc, firstKey, keys) == Failure(WrongNodeKind)
    ensures var asWritten := GetNumberAsWritten(UInt64, doc, firstKey, keys);
            asWritten.Success? && GetNumber(UInt64, doc, firstKey, keys).Failure? ==>
              asWritten.value >= 0x8000_0000_0000_0000 &&
              GetNumber(Int64, doc, firstKey, keys) == Success(asWritten.value - 0x1_0000_0000_0000_0000)
  {
    match GetValueRefRecursive(doc, firstKey, keys)
    case Failure(_) =>
    case Success(node) =>
      NumberAt(UInt64, doc, firstKey, keys, node);
      NumberAt(Int64, doc, firstKey, keys, node);
      if IsInt64(node) {
        WrapToUInt64(node.n);
      }
  }

  /** GetX on a path that holds `node`. */
  lemma NumberAt(t: NumericType, doc: Json, firstKey: string, keys: seq<string>, node: Json)
    requires GetValueRefRecursive(doc, firstKey, keys) == Success(node)
    ensures GetNumber(t, doc, firstKey, keys) == if KindMatches(Number(t), node) then Success(node.n) else Failure(WrongNodeKind)
  {
  }

  /** Converting a signed 64-bit value to std::uint64_t keeps a non-negative
      value and adds 2^64 to a negative one. */
  lemma WrapToUInt64(n: int)
    requires -0x8000_0000_0000_0000 <= n < 0x8000_0000_0000_0000
    ensures 0 <= n ==> n % 0x1_0000_0000_0000_0000 == n
    ensures n < 0 ==> n % 0x1_0000_0000_0000_0000 == n + 0x1_0000_0000_0000_0000
  {
  }

  /** {"k": 2147483648}, stored by SetLong, cannot be read back by GetLong;
      {"k": 9223372036854775808} passes HasUnsignedInt64 but GetUnsignedInt64
      asserts; {"k": -1} fails HasUnsignedInt64 but GetUnsignedInt64 returns
      18446744073709551615. */
  lemma NumberReadsAsWritten()
    ensures InRange(Long, 0x8000_0000)
    ensures GetNumber(Long, Obj([Member("k", Num(0x8000_0000))]), "k", []) == Success(0x8000_0000)
    ensures GetNumberAsWritten(Long, Obj([Member("k", Num(0x8000_0000))]), "k", []) == Failure(WrongNodeKind)
    ensures Has(Obj([Member("k", Num(0x8000_0000_0000_0000))]), Number(UInt64), "k", [])
    ensures GetNumberAsWritten(UInt64, Obj([Member("k", Num(0x8000_0000_0000_0000))]), "k", []) == Failure(WrongNodeKind)
    ensures !Has(Obj([Member("k", Num(-1))]), Number(UInt64), "k", [])
    ensures GetNumberAsWritten(UInt64, Obj([Member("k", Num(-1))]), "k", []) == Success(0xFFFF_FFFF_FFFF_FFFF)
  {
  }

  /** {"k": 4294967296}, stored by SetUnsignedLong, fails HasUnsignedLong as
      written (IsUint), so GetUnsignedLongOrDefault returns its default, and
      GetUnsignedLong asserts; intended, both read 4294967296. */
  lemma UnsignedLongReadsAsWritten(d: int)
    ensures InRange(UnsignedLong, 0x1_0000_0000)
    ensures !ReadableAsWritten(UnsignedLong, Num(0x1_0000_0000))
    ensures GetNumberAsWritten(UnsignedLong, Obj([Member("k", Num(0x1_0000_0000))]), "k", []) == Failure(WrongNodeKind)
    ensures GetNumber(UnsignedLong, Obj([Member("k", Num(0x1_0000_0000))]), "k", []) == Success(0x1_0000_0000)
    ensures GetNumberOrDefault(UnsignedLong, d, Obj([Member("k", Num(0x1_0000_0000))]), "k", []) == 0x1_0000_0000
  {
  }

  // ---------------------------------------------------------------------
  // Read refuses a file that already exists

  /** The outcome of Read: its answer and the document afterwards. */
  datatype ReadOutcome = ReadOutcome(ok: bool, doc: Json)

  /** Read as written: an existing file makes it return false before
      parsing, so the only file it ever parses is the `{}` it has just
      written. */
  function ReadAsWritten(fileExisted: bool, readable: bool, doc: Json): (r: ReadOutcome)
    ensures r.ok <==> !fileExisted && readable
    ensures r.ok ==> r.doc == Obj([])
    ensures r.ok ==> forall firstKey, keys :: !ContainsKeyRecursive(r.doc, firstKey, keys)
    ensures !r.ok ==> r.doc == doc
  {
    if fileExisted then ReadOutcome(false, doc)
    else if !readable then ReadOutcome(false, doc)
    else
      EmptyHasNoPath();
      ReadOutcome(true, Obj([]))
  }

  /** No path is present in `{}`. */
  lemma EmptyHasNoPath()
    ensures forall firstKey, keys :: !ContainsKeyRecursive(Obj([]), firstKey, keys)
  {
    assert Keys([]) == [];
  }

  /** A readable file that already exists, such as one Write produced, is
      never loaded as written: Read answers false and the document keeps its
      value. */
  lemma ReadAsWrittenRefusesExistingFile(doc: Json)
    ensures ReadAsWritten(true, true, doc) == ReadOutcome(false, doc)
    ensures ReadAsWritten(false, true, doc) == ReadOutcome(true, Obj([]))
  {
  }
}
