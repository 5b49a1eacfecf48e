/** The typed layer over the navigation engine: for each native type the
    reader offers Has, Get and GetOrDefault (the setters are methods of
    ConfigReader), and collections are read back from arrays element by
    element. */
module TypedAccessors {
  import opened Results
  import opened JsonValue
  import opened Navigation

  /** The C++ integer types of the typed API. */
  datatype NumericType =
    | Int | Int32 | Int64 | Long | LongLong
    | UnsignedInt | UInt32 | UInt64 | UnsignedLong | UnsignedLongLong

  /** Every native type with its own Get/GetOrDefault/Has/Set/SetDeep
      family. A path is stored as its text, so PathType behaves as
      StringType; the four containers are all stored as arrays. */
  datatype NativeType =
    | BoolType
    | Number(numeric: NumericType)
    | StringType
    | PathType
    | DequeType
    | SetType
    | UnorderedSetType
    | VectorType

  /** The node test each HasX applies: IsBool, IsInt, IsInt64, IsUint,
      IsUint64, a string test, or IsArray. `long` and `unsigned long` are
      taken to have 64 bits, the width at which SetLong's
      rapidjson::Value(long) selects the int64_t constructor; the code as
      written reads them through 32-bit getters (see Findings). */
  predicate KindMatches(t: NativeType, node: Json) {
    match t
    case BoolType => node.Bool?
    case Number(numeric) =>
      (match numeric
       case Int | Int32 => IsInt(node)
       case Int64 | Long | LongLong => IsInt64(node)
       case UnsignedInt | UInt32 => IsUint(node)
       case UInt64 | UnsignedLong | UnsignedLongLong => IsUint64(node))
    case StringType | PathType => node.Str?
    case DequeType | SetType | UnorderedSetType | VectorType => node.Arr?
  }

  /** The values an integer family stores and reads back. */
  predicate InRange(t: NumericType, n: int) {
    KindMatches(Number(t), Num(n))
  }

  // ---------------------------------------------------------------------
  // Has, Get, GetOrDefault

  /** HasX: ContainsKey first, then the node test of the type. */
  function Has(doc: Json, t: NativeType, firstKey: string, keys: seq<string>): (r: bool)
    ensures r <==> var found := GetValueRefRecursive(doc, firstKey, keys);
                   found.Success? && KindMatches(t, found.value)
  {
    ContainsKeyIffFound(doc, firstKey, keys);
    if !ContainsKeyRecursive(doc, firstKey, keys) then false
    else KindMatches(t, GetValueRefRecursive(doc, firstKey, keys).value)
  }

  /** GetBool: the flag at the path, failing when the path is absent or
      holds another kind of node. */
  function GetBool(doc: Json, firstKey: string, keys: seq<string>): (r: Result<bool>)
    ensures r.Success? <==> Has(doc, BoolType, firstKey, keys)
    ensures r.Success? ==> GetValueRefRecursive(doc, firstKey, keys) == Success(Bool(r.value))
  {
    match GetValueRefRecursive(doc, firstKey, keys)
    case Failure(e) => Failure(e)
    case Success(node) => if node.Bool? then Success(node.b) else Failure(WrongNodeKind)
  }

  /** GetInt, GetInt32, GetInt64, GetLong, GetLongLong, GetUnsignedInt,
      GetUnsignedInt32, GetUnsignedInt64, GetUnsignedLong and
      GetUnsignedLongLong: the number at the path when it is in the range
      that the family's HasX tests. */
  function GetNumber(t: NumericType, doc: Json, firstKey: string, keys: seq<string>): (r: Result<int>)
    ensures r.Success? <==> Has(doc, Number(t), firstKey, keys)
    ensures r.Success? ==> InRange(t, r.value)
    ensures r.Success? ==> GetValueRefRecursive(doc, firstKey, keys) == Success(Num(r.value))
  {
    match GetValueRefRecursive(doc, firstKey, keys)
    case Failure(e) => Failure(e)
    case Success(node) => if KindMatches(Number(t), node) then Success(node.n) else Failure(WrongNodeKind)
  }

  /** GetString: the text at the path. */
  function GetString(doc: Json, firstKey: string, keys: seq<string>): (r: Result<string>)
    ensures r.Success? <==> Has(doc, StringType, firstKey, keys)
    ensures r.Success? ==> GetValueRefRecursive(doc, firstKey, keys) == Success(Str(r.value))
  {
    match GetValueRefRecursive(doc, firstKey, keys)
    case Failure(e) => Failure(e)
    case Success(node) => if node.Str? then Success(node.s) else Failure(WrongNodeKind)
  }

  /** GetPath: the path whose text is stored at the path (through GetString). */
  function GetPath(doc: Json, firstKey: string, keys: seq<string>): (r: Result<string>)
    ensures r.Success? <==> Has(doc, PathType, firstKey, keys)
    ensures r.Success? ==> GetValueRefRecursive(doc, firstKey, keys) == Success(Str(r.value))
  {
    GetString(doc, firstKey, keys)
  }

  /** GetBoolOrDefault: the default exactly when HasBool fails. */
  function GetBoolOrDefault(default: bool, doc: Json, firstKey: string, keys: seq<string>): (r: bool)
    ensures !Has(doc, BoolType, firstKey, keys) ==> r == default
    ensures Has(doc, BoolType, firstKey, keys) ==> GetBool(doc, firstKey, keys) == Success(r)
  {
    if !Has(doc, BoolType, firstKey, keys) then default else GetBool(doc, firstKey, keys).value
  }

  /** The GetXOrDefault of every integer family. */
  function GetNumberOrDefault(t: NumericType, default: int, doc: Json, firstKey: string, keys: seq<string>): (r: int)
    ensures !Has(doc, Number(t), firstKey, keys) ==> r == default
    ensures Has(doc, Number(t), firstKey, keys) ==> GetNumber(t, doc, firstKey, keys) == Success(r)
  {
    if !Has(doc, Number(t), firstKey, keys) then default else GetNumber(t, doc, firstKey, keys).value
  }

  /** GetStringOrDefault. */
  function GetStringOrDefault(default: string, doc: Json, firstKey: string, keys: seq<string>): (r: string)
    ensures !Has(doc, StringType, firstKey, keys) ==> r == default
    ensures Has(doc, StringType, firstKey, keys) ==> GetString(doc, firstKey, keys) == Success(r)
  {
    if !Has(doc, StringType, firstKey, keys) then default else GetString(doc, firstKey, keys).value
  }

  /** GetPathOrDefault, decided by HasPath. */
  function GetPathOrDefault(default: string, doc: Json, firstKey: string, keys: seq<string>): (r: string)
    ensures !Has(doc, PathType, firstKey, keys) ==> r == default
    ensures Has(doc, PathType, firstKey, keys) ==> GetPath(doc, firstKey, keys) == Success(r)
  {
    if !Has(doc, PathType, firstKey, keys) then default else GetPath(doc, firstKey, keys).value
  }

  /** HasPath is HasString. */
  lemma HasPathIsHasString(doc: Json, firstKey: string, keys: seq<string>)
    ensures Has(doc, PathType, firstKey, keys) == Has(doc, StringType, firstKey, keys)
  {
  }

  /** Where ContainsKey fails, no HasX holds, so every GetXOrDefault gives
      back its default. */
  lemma AbsentPathHasNoKind(doc: Json, t: NativeType, firstKey: string, keys: seq<string>)
    requires !ContainsKeyRecursive(doc, firstKey, keys)
    ensures !Has(doc, t, firstKey, keys)
  {
    ContainsKeyIffFound(doc, firstKey, keys);
  }

  // ---------------------------------------------------------------------
  // Elements of collections

  /** How one element is read back from an array (Value::Get<T> or
      GetString), failing on a node of another kind. */
  function DecodeBool(j: Json): (r: Option<bool>)
    ensures r.Some? <==> KindMatches(BoolType, j)
    ensures r.Some? ==> j == Bool(r.value)
  {
    if j.Bool? then Some(j.b) else None
  }

  function DecodeNumber(t: NumericType, j: Json): (r: Option<int>)
    ensures r.Some? <==> KindMatches(Number(t), j)
    ensures r.Some? ==> j == Num(r.value) && InRange(t, r.value)
  {
    if KindMatches(Number(t), j) then Some(j.n) else None
  }

  function DecodeString(j: Json): (r: Option<string>)
    ensures r.Some? <==> KindMatches(StringType, j)
    ensures r.Some? ==> j == Str(r.value)
  {
    if j.Str? then Some(j.s) else None
  }

  /** Each element decoder reads back the node SetArray pushes for it. */
  lemma DecodeEncodedElement(b: bool, t: NumericType, n: int, text: string)
    requires InRange(t, n)
    ensures DecodeBool(Bool(b)) == Some(b)
    ensures DecodeNumber(t, Num(n)) == Some(n)
    ensures DecodeString(Str(text)) == Some(text)
  {
  }

  /** The elements SetArray pushes, one per input element, in input order. */
  function Encoded<T>(xs: seq<T>, toJson: T -> Json): (items: seq<Json>)
    ensures |items| == |xs|
    ensures forall i :: 0 <= i < |xs| ==> items[i] == toJson(xs[i])
    decreases |xs|
  {
    if xs == [] then [] else Encoded(xs[..|xs| - 1], toJson) + [toJson(xs[|xs| - 1])]
  }

  /** The elements GetArrayCopy inserts at the end of a sequence container,
      or None when some element is not of the requested kind. */
  function Decoded<T>(items: seq<Json>, fromJson: Json -> Option<T>): (r: Option<seq<T>>)
    ensures r.Some? <==> forall i :: 0 <= i < |items| ==> fromJson(items[i]).Some?
    ensures r.Some? ==> |r.value| == |items|
    ensures r.Some? ==> forall i :: 0 <= i < |items| ==> fromJson(items[i]) == Some(r.value[i])
    decreases |items|
  {
    if items == [] then Some([])
    else
      var last := |items| - 1;
      match Decoded(items[..last], fromJson)
      case None => None
      case Some(prefix) =>
        match fromJson(items[last])
        case None => None
        case Some(x) => Some(prefix + [x])
  }

  /** What inserting the elements one by one into a set container keeps:
      each distinct element once. */
  function Elements<T(!new)>(xs: seq<T>): (s: set<T>)
    ensures forall x :: x in s <==> x in xs
    ensures |s| <= |xs|
    decreases |xs|
  {
    if xs == [] then {} else Elements(xs[..|xs| - 1]) + {xs[|xs| - 1]}
  }

  /** Reading back one more element of an array. */
  lemma DecodedSnoc<T>(items: seq<Json>, i: nat, fromJson: Json -> Option<T>, prefix: seq<T>, x: T)
    requires i < |items|
    requires Decoded(items[..i], fromJson) == Some(prefix) && fromJson(items[i]) == Some(x)
    ensures Decoded(items[..i + 1], fromJson) == Some(prefix + [x])
  {
    assert items[..i + 1][..i] == items[..i];
  }

  /** Inserting one more element into a set container. */
  lemma ElementsSnoc<T(!new)>(xs: seq<T>, x: T)
    ensures Elements(xs + [x]) == Elements(xs) + {x}
  {
    assert (xs + [x])[..|xs|] == xs;
  }

  /** Reading back what was written gives the input, in order, provided each
      element reads back as itself. */
  lemma {:induction false} DecodedEncoded<T>(xs: seq<T>, toJson: T -> Json, fromJson: Json -> Option<T>)
    requires forall i :: 0 <= i < |xs| ==> fromJson(toJson(xs[i])) == Some(xs[i])
    ensures Decoded(Encoded(xs, toJson), fromJson) == Some(xs)
    decreases |xs|
  {
    if xs != [] {
      var last := |xs| - 1;
      DecodedEncoded(xs[..last], toJson, fromJson);
      assert Encoded(xs, toJson)[..last] == Encoded(xs[..last], toJson);
      assert xs[..last] + [xs[last]] == xs;
    }
  }

  // ---------------------------------------------------------------------
  // Collections

  /** GetDeque and GetVector (GetArrayCopy into a sequence container): the
      array's elements in order, failing when the node is absent, not an
      array, or holds an element of another kind. */
  function GetSequence<T>(doc: Json, fromJson: Json -> Option<T>, firstKey: string, keys: seq<string>): (r: Result<seq<T>>)
    ensures r.Success? <==> var found := GetValueRefRecursive(doc, firstKey, keys);
                            found.Success? && found.value.Arr? && Decoded(found.value.items, fromJson).Some?
    ensures r.Success? ==> Has(doc, VectorType, firstKey, keys) && Has(doc, DequeType, firstKey, keys)
    ensures r.Success? ==> var items := GetValueRefRecursive(doc, firstKey, keys).value.items;
                           |r.value| == |items| && forall i :: 0 <= i < |items| ==> fromJson(items[i]) == Some(r.value[i])
  {
    match GetValueRefRecursive(doc, firstKey, keys)
    case Failure(e) => Failure(e)
    case Success(node) =>
      if !node.Arr? then Failure(WrongNodeKind)
      else match Decoded(node.items, fromJson)
        case None => Failure(WrongNodeKind)
        case Some(xs) => Success(xs)
  }

  /** GetSet and GetUnorderedSet: the distinct elements of the array. */
  function GetSet<T(!new)>(doc: Json, fromJson: Json -> Option<T>, firstKey: string, keys: seq<string>): (r: Result<set<T>>)
    ensures r.Success? <==> GetSequence(doc, fromJson, firstKey, keys).Success?
    ensures r.Success? ==> forall x :: x in r.value <==> x in GetSequence(doc, fromJson, firstKey, keys).value
  {
    match GetSequence(doc, fromJson, firstKey, keys)
    case Failure(e) => Failure(e)
    case Success(xs) => Success(Elements(xs))
  }

  /** GetDequeOrDefault and GetVectorOrDefault: the default exactly when the
      node is absent or not an array. An array holding an element of another
      kind still fails, as the element conversion asserts. */
  function GetSequenceOrDefault<T>(default: seq<T>, doc: Json, fromJson: Json -> Option<T>, firstKey: string, keys: seq<string>): (r: Result<seq<T>>)
    ensures !Has(doc, DequeType, firstKey, keys) ==> r == Success(default)
    ensures Has(doc, DequeType, firstKey, keys) ==> r == GetSequence(doc, fromJson, firstKey, keys)
  {
    if !Has(doc, DequeType, firstKey, keys) then Success(default) else GetSequence(doc, fromJson, firstKey, keys)
  }

  /** GetSetOrDefault and GetUnorderedSetOrDefault. */
  function GetSetOrDefault<T(!new)>(default: set<T>, doc: Json, fromJson: Json -> Option<T>, firstKey: string, keys: seq<string>): (r: Result<set<T>>)
    ensures !Has(doc, SetType, firstKey, keys) ==> r == Success(default)
    ensures Has(doc, SetType, firstKey, keys) ==> r == GetSet(doc, fromJson, firstKey, keys)
  {
    if !Has(doc, SetType, firstKey, keys) then Success(default) else GetSet(doc, fromJson, firstKey, keys)
  }

  // ---------------------------------------------------------------------
  // Set, then read back

  /** SetDeepBool then GetBool returns the flag, and HasBool holds. */
  lemma SetDeepBoolThenGet(doc: Json, b: bool, firstKey: string, keys: seq<string>)
    requires DeepSet(doc, Bool(b), firstKey, keys).Success?
    ensures var d := DeepSet(doc, Bool(b), firstKey, keys).value;
            Has(d, BoolType, firstKey, keys) && GetBool(d, firstKey, keys) == Success(b)
            && GetBoolOrDefault(!b, d, firstKey, keys) == b
  {
    DeepSetThenGet(doc, Bool(b), firstKey, keys);
  }

  /** SetDeepX then GetX returns the number for every integer family, when
      the number is in the range that family stores. */
  lemma SetDeepNumberThenGet(t: NumericType, doc: Json, n: int, firstKey: string, keys: seq<string>)
    requires InRange(t, n)
    requires DeepSet(doc, Num(n), firstKey, keys).Success?
    ensures var d := DeepSet(doc, Num(n), firstKey, keys).value;
            Has(d, Number(t), firstKey, keys) && GetNumber(t, d, firstKey, keys) == Success(n)
            && GetNumberOrDefault(t, n + 1, d, firstKey, keys) == n
  {
    DeepSetThenGet(doc, Num(n), firstKey, keys);
  }

  /** SetDeepString then GetString returns the text. */
  lemma SetDeepStringThenGet(doc: Json, s: string, firstKey: string, keys: seq<string>)
    requires DeepSet(doc, Str(s), firstKey, keys).Success?
    ensures var d := DeepSet(doc, Str(s), firstKey, keys).value;
            Has(d, StringType, firstKey, keys) && GetString(d, firstKey, keys) == Success(s)
            && GetStringOrDefault(s + "x", d, firstKey, keys) == s
  {
    DeepSetThenGet(doc, Str(s), firstKey, keys);
  }

  /** SetDeepPath stores the path's text; GetPath reads the same text back. */
  lemma SetDeepPathThenGet(doc: Json, p: string, firstKey: string, keys: seq<string>)
    requires DeepSet(doc, Str(p), firstKey, keys).Success?
    ensures var d := DeepSet(doc, Str(p), firstKey, keys).value;
            Has(d, PathType, firstKey, keys) && GetPath(d, firstKey, keys) == Success(p)
            && GetPathOrDefault(p + "x", d, firstKey, keys) == p
  {
    DeepSetThenGet(doc, Str(p), firstKey, keys);
  }

  /** SetDeepArray then GetVector or GetDeque returns the elements with the
      same length and order; GetSet or GetUnorderedSet returns the distinct
      elements. */
  lemma SetDeepArrayThenGet<T(!new)>(doc: Json, xs: seq<T>, toJson: T -> Json, fromJson: Json -> Option<T>, firstKey: string, keys: seq<string>)
    requires forall i :: 0 <= i < |xs| ==> fromJson(toJson(xs[i])) == Some(xs[i])
    requires DeepSet(doc, Arr(Encoded(xs, toJson)), firstKey, keys).Success?
    ensures var d := DeepSet(doc, Arr(Encoded(xs, toJson)), firstKey, keys).value;
            && Has(d, VectorType, firstKey, keys)
            && GetSequence(d, fromJson, firstKey, keys) == Success(xs)
            && GetSet(d, fromJson, firstKey, keys) == Success(Elements(xs))
  {
    DeepSetThenGet(doc, Arr(Encoded(xs, toJson)), firstKey, keys);
    DecodedEncoded(xs, toJson, fromJson);
  }

  /** The array [1, 2, 2, 3] reads back as a sequence of four numbers in the
      same order. */
  lemma ArrayReadKeepsOrder()
    ensures Decoded([Num(1), Num(2), Num(2), Num(3)], j => DecodeNumber(Int, j)) == Some([1, 2, 2, 3])
  {
    var items := [Num(1), Num(2), Num(2), Num(3)];
    var read := Decoded(items, j => DecodeNumber(Int, j));
    assert forall i :: 0 <= i < |items| ==> DecodeNumber(Int, items[i]) == Some(items[i].n);
    assert read.value == [1, 2, 2, 3];
  }

  /** The numbers [1, 2, 2, 3] collect into a set of three. */
  lemma DuplicatesCollapseInSets()
    ensures Elements([1, 2, 2, 3]) == {1, 2, 3}
    ensures |Elements([1, 2, 2, 3])| == 3
  {
    var s := Elements([1, 2, 2, 3]);
    assert s == {1, 2, 3};
    assert |{1, 2, 3}| == 3;
  }

}
