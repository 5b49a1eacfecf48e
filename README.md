# Multi JSON Interface: the configuration reader, modelled in Dafny

Multi JSON Interface offers one typed configuration reader,
`GenericConfigReader`, specialised for rapidjson as `RapidJsonConfigReader`.
A reader is built from a configuration file path and owns one JSON document.
Callers address a value by a non-empty sequence of keys, each naming a member
of a nested object. For every supported native type the reader has `GetX`,
`GetXOrDefault`, `HasX`, `SetX` and `SetDeepX`. All of them are built on four
recursive helpers: `ContainsKeyRecursive`, `GetValueRefRecursive`,
`SetValueRecursive` (the shallow set) and `SetDeepValueRecursive` (the deep
set, which creates missing intermediate objects).

The model has six modules:

- `Results` (`results.dfy`): the failure kinds and the `Option`, `Result` and
  `Status` types. Every place where the source relies on `RAPIDJSON_ASSERT` (an
  absent member, a node of the wrong kind) is a `Failure` here.
- `JsonValue` (`json_value.dfy`): the JSON tree, with objects as member lists in
  insertion order. It also holds rapidjson's number flags as range predicates,
  first-match member lookup, and `PutMember`. `PutMember` is the write at the
  last key of a path: overwrite in place, or append a member with a copied key.
- `Navigation` (`navigation.dfy`): the recursive helpers as functions over the
  tree, and what they promise: existence versus lookup, when each setter
  succeeds, set-then-get, the frame of a set, setting twice, key uniqueness.
- `TypedAccessors` (`typed_accessors.dfy`): `HasX`, `GetX`, `GetXOrDefault`
  for every native type, collections read back element by element, and the
  set-then-get round trips.
- `ConfigReaders` (`config_reader.dfy`): the class `ConfigReader`, with the path
  and the document as fields. Its methods are the non-const operations
  (`Read`, `SetValue`, `SetDeepValue`, `SetArray`, `SetDeepArray` and the typed
  setters) and the `GetArrayCopy` loops. Each method is proved against the
  `Navigation` and `TypedAccessors` functions.
- `Findings` (`findings.dfy`): seven places where the code as written differs
  from its evident intent, listed under "## Findings", each modelled as
  written with an input that shows the difference.

`Read` as written returns false without parsing when the file already
exists, so it parses only a file it has just created. That is a finding
below: `ConfigReader.Read` models the intended behaviour, which parses an
existing file too, and `Findings.ReadAsWritten` models the code. Either way
`Read` does not check the parse result for errors, and the model follows the
code in that.

I/O is reduced to parameters: whether the file existed, whether it could be
opened, and the parser's result.

`long` and `unsigned long` are taken to have 64 bits. At that width
`rapidjson::Value(long)` in `SetLong` (rapid_json_config_reader.hpp:657-667) selects the `int64_t`
constructor. `GetLong`, `HasUnsignedLong` and `GetUnsignedLong` as written
read through the 32-bit getters, which is a finding below.

## Model

| member | source | states |
|---|---|---|
| JsonValue.IndexOf | Multi-JSON-Interface/include/mjsoni/rapid_json_config_reader.hpp:1693 | the position found is the first member with that name; -1 exactly when no member has it |
| JsonValue.MemberValue | Multi-JSON-Interface/include/mjsoni/rapid_json_config_reader.hpp:1693-1702 | a value is found exactly when some member has the name, and it is the value of the first member with that name |
| JsonValue.PutMember | Multi-JSON-Interface/include/mjsoni/rapid_json_config_reader.hpp:1765-1782 | afterwards the name maps to the new value; every other name maps to what it did; an existing name keeps its position and the key list is unchanged; only the first member with the name is overwritten, and every other position, including a later member with the same name, is left as it was; a new name is appended as the last member; unique names stay unique |
| JsonValue.OverwriteLookups | Multi-JSON-Interface/include/mjsoni/rapid_json_config_reader.hpp:1768-1770 | overwriting an existing member keeps every name in place; the name then maps to the new value and every other name to what it did |
| JsonValue.AppendLookups | Multi-JSON-Interface/include/mjsoni/rapid_json_config_reader.hpp:1771-1781 | adding a new name puts it last among the names; it then maps to the value and every other name to what it did |
| JsonValue.PutMemberPosition | Multi-JSON-Interface/include/mjsoni/rapid_json_config_reader.hpp:1768-1781 | after a write the name is found where it was, or at the end when it was new |
| JsonValue.PutMemberTwice | Multi-JSON-Interface/include/mjsoni/rapid_json_config_reader.hpp:1765-1782 | writing a name twice equals writing it once with the second value |
| JsonValue.PutMemberWellFormed | Multi-JSON-Interface/include/mjsoni/rapid_json_config_reader.hpp:1765-1782 | writing a member into a tree whose objects have unique names keeps it so |
| Navigation.ContainsKeyRecursive | Multi-JSON-Interface/include/mjsoni/rapid_json_config_reader.hpp:1687-1709 | true only when the first key names a member of an object and, for a longer path, the rest of the path is present in that member |
| Navigation.GetValueRefRecursive | Multi-JSON-Interface/include/mjsoni/rapid_json_config_reader.hpp:1734-1751 | a lookup fails only with a missing member or a non-object on the way |
| Navigation.ShallowSet | Multi-JSON-Interface/include/mjsoni/rapid_json_config_reader.hpp:1755-1790 | a shallow set fails only with an invalid path segment (a missing intermediate member) or a wrong node kind; on success the result is an object holding the first key |
| Navigation.DeepSet | Multi-JSON-Interface/include/mjsoni/rapid_json_config_reader.hpp:1794-1844 | a deep set fails only on a node of the wrong kind, never on a missing member |
| Navigation.ResolveStep | Multi-JSON-Interface/include/mjsoni/rapid_json_config_reader.hpp:1741-1749 | descending one key is looking up the rest of the path in that member |
| Navigation.ContainsKeyIffFound | Multi-JSON-Interface/include/mjsoni/rapid_json_config_reader.hpp:1687-1709 | ContainsKey holds exactly when GetValueRef finds a node |
| Navigation.ContainsKeyStopsAtMissingMember | Multi-JSON-Interface/include/mjsoni/rapid_json_config_reader.hpp:1693-1695 | when some key of the path is absent from the object reached so far, ContainsKey is false |
| Navigation.ShallowSetSucceedsIff | Multi-JSON-Interface/include/mjsoni/rapid_json_config_reader.hpp:1755-1790 | a shallow set succeeds exactly when the parent of the last key exists and is an object |
| Navigation.ShallowSetIsDeepSet | Multi-JSON-Interface/include/mjsoni/rapid_json_config_reader.hpp:1755-1844 | where a shallow set succeeds, the deep set gives the same document |
| Navigation.DeepSetCreatesMissing | Multi-JSON-Interface/include/mjsoni/rapid_json_config_reader.hpp:1823-1842 | below an absent key, a deep set appends one member holding the chain of new objects down to the value |
| Navigation.DeepSetSucceedsIff | Multi-JSON-Interface/include/mjsoni/rapid_json_config_reader.hpp:1794-1844 | a deep set succeeds exactly when the root is an object and nothing above the last key exists as a non-object |
| Navigation.DeepSetThenGet | Multi-JSON-Interface/include/mjsoni/rapid_json_config_reader.hpp:1794-1844 | after a deep set, ContainsKey holds for the path and GetValueRef returns the value |
| Navigation.ShallowSetThenGet | Multi-JSON-Interface/include/mjsoni/rapid_json_config_reader.hpp:1755-1790 | after a shallow set, ContainsKey holds for the path and GetValueRef returns the value |
| Navigation.DeepSetFrame | Multi-JSON-Interface/include/mjsoni/rapid_json_config_reader.hpp:1794-1844 | every path that parts ways with the set path looks up the same result as before |
| Navigation.DeepSetKeepsOtherMembers | Multi-JSON-Interface/include/mjsoni/rapid_json_config_reader.hpp:1794-1844 | a deep set leaves the root an object and every root member other than the first key's unchanged |
| Navigation.DeepSetFrameBeside | Multi-JSON-Interface/include/mjsoni/rapid_json_config_reader.hpp:1794-1844 | a path that starts with another root member looks up the same result after a deep set as before |
| Navigation.DeepSetFrameBelow | Multi-JSON-Interface/include/mjsoni/rapid_json_config_reader.hpp:1823-1842 | the same, for a path that shares the first key and parts ways below it |
| Navigation.ShallowSetFrame | Multi-JSON-Interface/include/mjsoni/rapid_json_config_reader.hpp:1755-1790 | a shallow set leaves every path that parts ways with its own unchanged; for a one-key path only that member of the root changes |
| Navigation.DeepSetTwice | Multi-JSON-Interface/include/mjsoni/rapid_json_config_reader.hpp:1794-1844 | a second deep set at the same path overrides the first: the result equals one set with the second value |
| Navigation.ShallowSetTwice | Multi-JSON-Interface/include/mjsoni/rapid_json_config_reader.hpp:1755-1790 | the same for the shallow set |
| Navigation.ShallowSetParentKept | Multi-JSON-Interface/include/mjsoni/rapid_json_config_reader.hpp:1755-1790 | after a shallow set the parent of the last key is still an object, so the written member hangs under an object that existed before (see ShallowSetSucceedsIff) |
| Navigation.DeepSetWellFormed | Multi-JSON-Interface/include/mjsoni/rapid_json_config_reader.hpp:1804-1835 | a deep set keeps every object's member names unique |
| Navigation.ShallowSetWellFormed | Multi-JSON-Interface/include/mjsoni/rapid_json_config_reader.hpp:1765-1782 | a shallow set keeps every object's member names unique |
| Navigation.ShallowAndDeepOnEmptyDocument | Multi-JSON-Interface/include/mjsoni/rapid_json_config_reader.hpp:1755-1844 | on {} a shallow set at ("a", "b") fails with an invalid path segment, while a deep set gives {"a": {"b": v}} |
| TypedAccessors.Has | Multi-JSON-Interface/include/mjsoni/rapid_json_config_reader.hpp:251-265 | HasX holds exactly when the path is found and its node passes the type's test |
| TypedAccessors.GetBool | Multi-JSON-Interface/include/mjsoni/rapid_json_config_reader.hpp:223-233 | succeeds exactly when HasBool holds, with the flag stored at the path |
| TypedAccessors.GetNumber | Multi-JSON-Interface/include/mjsoni/rapid_json_config_reader.hpp:419-429 | succeeds exactly when the family's HasX holds, with the number at the path, in the family's range |
| TypedAccessors.GetString | Multi-JSON-Interface/include/mjsoni/rapid_json_config_reader.hpp:949-959 | succeeds exactly when the node at the path is a string, with its text |
| TypedAccessors.GetPath | Multi-JSON-Interface/include/mjsoni/rapid_json_config_reader.hpp:745-755 | succeeds exactly when HasPath holds, with the stored text |
| TypedAccessors.GetBoolOrDefault | Multi-JSON-Interface/include/mjsoni/rapid_json_config_reader.hpp:237-247 | the default exactly when HasBool fails, otherwise what GetBool returns |
| TypedAccessors.GetNumberOrDefault | Multi-JSON-Interface/include/mjsoni/rapid_json_config_reader.hpp:433-443 | the default exactly when the family's HasX fails, otherwise what its GetX returns |
| TypedAccessors.GetStringOrDefault | Multi-JSON-Interface/include/mjsoni/rapid_json_config_reader.hpp:963-973 | the default exactly when HasString fails, otherwise what GetString returns |
| TypedAccessors.GetPathOrDefault | Multi-JSON-Interface/include/mjsoni/rapid_json_config_reader.hpp:759-769 | the default exactly when HasPath fails, otherwise what GetPath returns |
| TypedAccessors.HasPathIsHasString | Multi-JSON-Interface/include/mjsoni/rapid_json_config_reader.hpp:787-795 | HasPath and HasString agree on every document and path |
| TypedAccessors.AbsentPathHasNoKind | Multi-JSON-Interface/include/mjsoni/rapid_json_config_reader.hpp:255-257 | where ContainsKey fails, no HasX holds, so every GetXOrDefault returns its default |
| TypedAccessors.DecodeBool | Multi-JSON-Interface/include/mjsoni/rapid_json_config_reader.hpp:97-103 | an array element converts to a flag exactly when it is a boolean node, and then it is that node |
| TypedAccessors.DecodeNumber | Multi-JSON-Interface/include/mjsoni/rapid_json_config_reader.hpp:97-103 | an array element converts to a number of a family exactly when it passes the family's range test, and then it is that number |
| TypedAccessors.DecodeString | Multi-JSON-Interface/include/mjsoni/rapid_json_config_reader.hpp:89-95 | an array element converts to text exactly when it is a string node, and then it is that node |
| TypedAccessors.DecodeEncodedElement | Multi-JSON-Interface/include/mjsoni/rapid_json_config_reader.hpp:89-138 | each element decoder reads back the node SetArray pushes for a value of its type |
| TypedAccessors.Encoded | Multi-JSON-Interface/include/mjsoni/rapid_json_config_reader.hpp:111-146 | the built array has one element per input element, each the input's node, in input order |
| TypedAccessors.Decoded | Multi-JSON-Interface/include/mjsoni/rapid_json_config_reader.hpp:77-107 | elements are read back exactly when each one converts; the result has the array's length and each converted element at its position |
| TypedAccessors.Elements | Multi-JSON-Interface/include/mjsoni/rapid_json_config_reader.hpp:97-104 | a set container holds exactly the elements inserted, and no more of them than were inserted |
| TypedAccessors.DecodedEncoded | Multi-JSON-Interface/include/mjsoni/rapid_json_config_reader.hpp:77-146 | reading back a built array gives the input sequence when each element reads back as itself |
| TypedAccessors.GetSequence | Multi-JSON-Interface/include/mjsoni/rapid_json_config_reader.hpp:299-307 | GetDeque and GetVector succeed exactly when the path holds an array whose elements all convert; then HasDeque and HasVector hold and the result has one element per array element, each the conversion of the element at the same position |
| TypedAccessors.GetSet | Multi-JSON-Interface/include/mjsoni/rapid_json_config_reader.hpp:829-837 | GetSet succeeds exactly when the sequence read does, and holds exactly its elements |
| TypedAccessors.GetSequenceOrDefault | Multi-JSON-Interface/include/mjsoni/rapid_json_config_reader.hpp:311-321 | the default exactly when HasDeque fails, otherwise what GetDeque returns |
| TypedAccessors.GetSetOrDefault | Multi-JSON-Interface/include/mjsoni/rapid_json_config_reader.hpp:841-851 | the default exactly when HasSet fails, otherwise what GetSet returns |
| TypedAccessors.SetDeepBoolThenGet | Multi-JSON-Interface/include/mjsoni/rapid_json_config_reader.hpp:223-293 | after SetDeepBool, HasBool holds and GetBool and GetBoolOrDefault return the flag |
| TypedAccessors.SetDeepNumberThenGet | Multi-JSON-Interface/include/mjsoni/rapid_json_config_reader.hpp:419-489 | after SetDeepX of a number in the family's range, HasX holds and GetX and GetXOrDefault return it |
| TypedAccessors.SetDeepStringThenGet | Multi-JSON-Interface/include/mjsoni/rapid_json_config_reader.hpp:949-1047 | after SetDeepString, HasString holds and GetString and GetStringOrDefault return the text |
| TypedAccessors.SetDeepPathThenGet | Multi-JSON-Interface/include/mjsoni/rapid_json_config_reader.hpp:745-823 | after SetDeepPath, HasPath holds and GetPath and GetPathOrDefault return the same path text |
| TypedAccessors.SetDeepArrayThenGet | Multi-JSON-Interface/include/mjsoni/rapid_json_config_reader.hpp:77-187 | after SetDeepArray, HasVector holds, the sequence read returns the input in order with its length, and the set read returns its distinct elements |
| TypedAccessors.ArrayReadKeepsOrder | Multi-JSON-Interface/include/mjsoni/rapid_json_config_reader.hpp:77-107 | the array [1, 2, 2, 3] reads back into a sequence as four numbers in the same order |
| TypedAccessors.DuplicatesCollapseInSets | Multi-JSON-Interface/include/mjsoni/rapid_json_config_reader.hpp:97-104 | the numbers [1, 2, 2, 3] collect into a set of three |
| ConfigReaders.ConfigReader.constructor | Multi-JSON-Interface/include/mjsoni/rapid_json_config_reader.hpp:40-44 | a reader is built from a path and starts with a null document |
| ConfigReaders.ConfigReader.JsonDocument | Multi-JSON-Interface/include/mjsoni/generic_json_config_reader.hpp:717-719 | a read-only view of the document |
| ConfigReaders.ConfigReader.Read | Multi-JSON-Interface/include/mjsoni/rapid_json_config_reader.hpp:1847-1867 | as intended: succeeds exactly when the file, created first if missing, could be opened; the document is then the parse of an existing file, or the `{}` just written to a missing one; otherwise the document is unchanged |
| ConfigReaders.ConfigReader.ContainsKey | Multi-JSON-Interface/include/mjsoni/rapid_json_config_reader.hpp:50-59 | true exactly when GetValueRef finds a node in the document |
| ConfigReaders.ConfigReader.GetValueRef | Multi-JSON-Interface/include/mjsoni/rapid_json_config_reader.hpp:64-73 | finds a node exactly when ContainsKey holds; fails only with a missing member or a wrong node kind |
| ConfigReaders.ConfigReader.SetValueRecursive | Multi-JSON-Interface/include/mjsoni/rapid_json_config_reader.hpp:1755-1790 | the step-by-step shallow set computes the shallow set |
| ConfigReaders.ConfigReader.SetDeepValueRecursive | Multi-JSON-Interface/include/mjsoni/rapid_json_config_reader.hpp:1794-1844 | the step-by-step deep set, which appends an empty object before descending, computes the deep set |
| ConfigReaders.ConfigReader.SetValue | Multi-JSON-Interface/include/mjsoni/rapid_json_config_reader.hpp:191-202 | succeeds exactly when the parent of the last key is an object; then the document is the shallow set and the path holds the value; otherwise the document is unchanged |
| ConfigReaders.ConfigReader.SetDeepValue | Multi-JSON-Interface/include/mjsoni/rapid_json_config_reader.hpp:206-217 | succeeds exactly when nothing above the last key is a non-object; then the document is the deep set and the path holds the value; otherwise the document is unchanged and the failure is a wrong node kind |
| ConfigReaders.ConfigReader.BuildArray | Multi-JSON-Interface/include/mjsoni/rapid_json_config_reader.hpp:117-138 | the PushBack loop builds one element per input element, in order |
| ConfigReaders.ConfigReader.SetArray | Multi-JSON-Interface/include/mjsoni/rapid_json_config_reader.hpp:111-146 | stores the built array by a shallow set: the new document is the shallow set of the old one, and the path holds the array; on failure the document is unchanged |
| ConfigReaders.ConfigReader.SetDeepArray | Multi-JSON-Interface/include/mjsoni/rapid_json_config_reader.hpp:150-187 | stores the built array by a deep set: the new document is the deep set of the old one, and the path holds the array; on failure the document is unchanged |
| ConfigReaders.ConfigReader.GetSequenceCopy | Multi-JSON-Interface/include/mjsoni/rapid_json_config_reader.hpp:77-107 | the copy loop into a deque or vector computes the sequence read |
| ConfigReaders.ConfigReader.GetSetCopy | Multi-JSON-Interface/include/mjsoni/rapid_json_config_reader.hpp:77-107 | the copy loop into a set or unordered set computes the set read |
| ConfigReaders.ConfigReader.GetSequenceCopyOrDefault | Multi-JSON-Interface/include/mjsoni/rapid_json_config_reader.hpp:311-321 | copies the array only when HasDeque holds, otherwise returns the default |
| ConfigReaders.ConfigReader.GetSetCopyOrDefault | Multi-JSON-Interface/include/mjsoni/rapid_json_config_reader.hpp:841-851 | copies the array only when HasSet holds, otherwise returns the default |
| ConfigReaders.ConfigReader.SetBool | Multi-JSON-Interface/include/mjsoni/rapid_json_config_reader.hpp:269-279 | succeeds exactly when the parent of the last key is an object; then the new document is the shallow set of the old one with the value's node, so every other path keeps its value, and GetBool returns the flag; otherwise the document is unchanged and the shallow set fails with the same error |
| ConfigReaders.ConfigReader.SetDeepBool | Multi-JSON-Interface/include/mjsoni/rapid_json_config_reader.hpp:283-293 | succeeds exactly when nothing above the last key is a non-object; then the new document is the deep set of the old one with the value's node, so every other path keeps its value, and GetBool returns the flag; otherwise the document is unchanged and the deep set fails with a wrong node kind |
| ConfigReaders.ConfigReader.SetNumber | Multi-JSON-Interface/include/mjsoni/rapid_json_config_reader.hpp:465-475 | succeeds exactly when the parent of the last key is an object; then the new document is the shallow set of the old one with the value's node, so every other path keeps its value, and the family's GetX returns the number; otherwise the document is unchanged and the shallow set fails with the same error |
| ConfigReaders.ConfigReader.SetDeepNumber | Multi-JSON-Interface/include/mjsoni/rapid_json_config_reader.hpp:479-489 | succeeds exactly when nothing above the last key is a non-object; then the new document is the deep set of the old one with the value's node, so every other path keeps its value, and the family's GetX returns the number; otherwise the document is unchanged and the deep set fails with a wrong node kind |
| ConfigReaders.ConfigReader.SetString | Multi-JSON-Interface/include/mjsoni/rapid_json_config_reader.hpp:1009-1019 | succeeds exactly when the parent of the last key is an object; then the new document is the shallow set of the old one with the value's node, so every other path keeps its value, and GetString returns the text; otherwise the document is unchanged and the shallow set fails with the same error |
| ConfigReaders.ConfigReader.SetDeepString | Multi-JSON-Interface/include/mjsoni/rapid_json_config_reader.hpp:1037-1047 | succeeds exactly when nothing above the last key is a non-object; then the new document is the deep set of the old one with the value's node, so every other path keeps its value, and GetString returns the text; otherwise the document is unchanged and the deep set fails with a wrong node kind |
| ConfigReaders.ConfigReader.SetPath | Multi-JSON-Interface/include/mjsoni/rapid_json_config_reader.hpp:799-809 | succeeds exactly when the parent of the last key is an object; then the new document is the shallow set of the old one with the value's node, so every other path keeps its value, and GetPath returns the path text; otherwise the document is unchanged and the shallow set fails with the same error |
| ConfigReaders.ConfigReader.SetDeepPath | Multi-JSON-Interface/include/mjsoni/rapid_json_config_reader.hpp:813-823 | succeeds exactly when nothing above the last key is a non-object; then the new document is the deep set of the old one with the value's node, so every other path keeps its value, and GetPath returns the path text; otherwise the document is unchanged and the deep set fails with a wrong node kind |
| ConfigReaders.MissingFileBootstrap | Multi-JSON-Interface/include/mjsoni/rapid_json_config_reader.hpp:1849-1852 | in the {} written to a missing file, no path is present and every lookup reports a missing member |
| Findings.DeepSetAsWritten | Multi-JSON-Interface/include/mjsoni/rapid_json_config_reader.hpp:1802-1842 | as written, the deep set succeeds exactly when the intended one does |
| Findings.DeepSetAsWrittenAgreesOnExistingPath | Multi-JSON-Interface/include/mjsoni/rapid_json_config_reader.hpp:1802-1842 | where every key above the last exists, the code as written and the intended deep set agree |
| Findings.DeepSetAsWrittenLosesValue | Multi-JSON-Interface/include/mjsoni/rapid_json_config_reader.hpp:1802-1842 | on {}, a deep set at ("a", "b") as written leaves {"a": {}}, where the value is missing |
| Findings.HasStringAsWritten | Multi-JSON-Interface/include/mjsoni/rapid_json_config_reader.hpp:991-1005 | as written, HasString fails exactly when the path holds a non-string, and otherwise agrees with the intended test |
| Findings.HasStringAsWrittenOnNumber | Multi-JSON-Interface/include/mjsoni/rapid_json_config_reader.hpp:1004 | on {"k": 5} HasString as written fails where the intended answer is false |
| Findings.GetVectorOrDefaultAsWritten | Multi-JSON-Interface/include/mjsoni/rapid_json_config_reader.hpp:1579-1589 | as written, the result differs from the intended one exactly when the path holds a non-array, and then it fails |
| Findings.GetVectorOrDefaultAsWrittenOnNumber | Multi-JSON-Interface/include/mjsoni/rapid_json_config_reader.hpp:1584 | on {"v": 5} GetVectorOrDefault as written fails where the intended result is the default |
| Findings.GetNumberAsWritten | Multi-JSON-Interface/include/mjsoni/rapid_json_config_reader.hpp:629-639 | as written, GetLong is GetInt and GetUnsignedLong is GetUnsignedInt; every other integer read except GetUnsignedInt64 is the intended one |
| Findings.NarrowReadAsWritten | Multi-JSON-Interface/include/mjsoni/rapid_json_config_reader.hpp:629-639 | GetLong and GetUnsignedLong as written return the intended value exactly when it fits the 32-bit getter, and fail otherwise |
| Findings.UInt64ReadAsWritten | Multi-JSON-Interface/include/mjsoni/rapid_json_config_reader.hpp:1219-1229 | GetUnsignedInt64 as written returns the intended value below 2^63 and fails on [2^63, 2^64), which HasUnsignedInt64 accepts; where the intended read fails it may still succeed, on a negative number wrapped by 2^64 |
| Findings.NumberReadsAsWritten | Multi-JSON-Interface/include/mjsoni/rapid_json_config_reader.hpp:1219-1229 | GetLong as written cannot read 2^31; GetUnsignedInt64 fails on 2^63, which HasUnsignedInt64 accepts, and turns -1 into 2^64 - 1 |
| Findings.UnsignedLongReadsAsWritten | Multi-JSON-Interface/include/mjsoni/rapid_json_config_reader.hpp:1293-1337 | {"k": 2^32}, storable by SetUnsignedLong, fails HasUnsignedLong and GetUnsignedLong as written, while the intended GetUnsignedLong and GetUnsignedLongOrDefault return 2^32 |
| Findings.ReadAsWritten | Multi-JSON-Interface/include/mjsoni/rapid_json_config_reader.hpp:1847-1867 | as written, Read succeeds exactly when the file did not exist and could be opened, and then the document is the `{}` it has just written, in which no path is present |
| Findings.ReadAsWrittenRefusesExistingFile | Multi-JSON-Interface/include/mjsoni/rapid_json_config_reader.hpp:1853-1855 | a readable existing file is refused as written, leaving the document unchanged, where a just-created file is parsed as `{}` |

## Left out

- `Write` and the file side of `Read` (rapid_json_config_reader.hpp:1847-1884): opening, creating and writing the file, `ParseStream` and `PrettyWriter`. These are I/O and foreign library calls. `Read` takes their outcomes as parameters.
- Allocator arguments and the rvalue and move overloads, such as `SetDeque(std::deque<T>&&)`. They behave as the const& overloads.
- The non-const `GetValueRefRecursive` (rapid_json_config_reader.hpp:1713-1730). Its condition is inverted and it calls an overload that does not exist, so it is never instantiated.
- Navigation.ShallowSet: the recursive branch of `SetValueRecursive` (1784-1788) passes the child node where a key is expected, so it does not compile for paths of two or more keys. The model descends into the child, as the comment at 1761-1762 intends.
- Navigation.ContainsKeyRecursive: answers false on a non-object on the way, where rapidjson's `HasMember` asserts.
- ConfigReaders.ConfigReader.SetValue: a failed set leaves the document unchanged. The source asserts instead, through `operator[]` on an absent name or a non-object.
- ConfigReaders.ConfigReader.SetValueRecursive: the recursive setters rebuild each object on the path. The source rewrites the object in place through a reference, so aliasing is not modelled.
- The reference taken by `operator[]` at 1763 and 1802 before the member exists. With assertions on it aborts for every new last key. Without them the shallow set ignores it, and for the deep set it is a finding below.
- Floating-point numbers: no typed accessor of the core reads or writes them.
- TypedAccessors.GetNumber: C++ integer widths are modelled only as ranges, with 64-bit `long` and `unsigned long`. `HasInt64`, `HasLong` and `HasLongLong` are declared (generic_json_config_reader.hpp:257, 287, 317) but never defined, so `GetInt64OrDefault`, `GetLongOrDefault` and `GetLongLongOrDefault` cannot link. The model gives `Long` the intended 64-bit signed test, as it does `Int64` and `LongLong`; `GetLong` itself reads through `GetInt` (638), which is a finding.
- ConfigReaders.ConfigReader.SetNumber: requires the number to be in its family's range. The family's C++ parameter type bounds it.
- Strings are copied with `.data()`, so a key or string containing a NUL character is cut short in the source. The model treats strings as whole character sequences.
- `SetSet` and `SetUnorderedSet` (887-915, 1505-1531): they call `SetArray`, whose loops advance with `it += 1` (121, 129, 136). The iterators of `std::set` and `std::unordered_set`, and move iterators over them, have no `+=`, so these two never compile and are not modelled. `SetDeepSet` and `SetDeepUnorderedSet` go through `SetDeepArray`, which uses `it++` (162-177). The model passes their container's iteration order to it as a sequence and does not fix that order.
- `SetPath` stores `u8string()`. The model stores the path text unchanged, with no encoding.
- `config_file_path()` returns the constant path field, which the model keeps as `configFilePath`.

## Findings

| source | as written | input that shows it | evidently intended | confidence | as-written member | corrected member |
|---|---|---|---|---|---|---|
| Multi-JSON-Interface/include/mjsoni/rapid_json_config_reader.hpp:1802-1842 | the child reference is taken before the missing member is added, so the descent writes into a detached node | empty document, `SetDeepValue(v, "a", "b")` leaves `{"a": {}}` | `{"a": {"b": v}}` | medium, not executed; assumes a build without assertions, since with them `operator[]` aborts first | Findings.DeepSetAsWrittenLosesValue | Navigation.DeepSetThenGet |
| Multi-JSON-Interface/include/mjsoni/rapid_json_config_reader.hpp:1004 | `HasString` returns the `GetString()` pointer as its answer, and `GetString()` asserts on a non-string | `{"k": 5}`, `HasString("k")` | false | medium, not executed; assumes a build with assertions, where `GetString()` aborts on a non-string; without them the pointer it returns for a number most likely reads as false, and the difference would show only on a non-empty array or object | Findings.HasStringAsWrittenOnNumber | TypedAccessors.Has |
| Multi-JSON-Interface/include/mjsoni/rapid_json_config_reader.hpp:1584 | `GetVectorOrDefault` tests `ContainsKey` rather than `HasVector`, unlike the other collections | `{"v": 5}`, `GetVectorOrDefault(d, "v")` reaches `GetArray()` on a number | returns `d` | high, not executed | Findings.GetVectorOrDefaultAsWrittenOnNumber | TypedAccessors.GetSequenceOrDefault |
| Multi-JSON-Interface/include/mjsoni/rapid_json_config_reader.hpp:638 | `GetLong` reads through `GetInt` | where long has 64 bits, `SetLong(2147483648, "k")` then `GetLong("k")` | 2147483648 | medium, not executed; depends on the width of long | Findings.NumberReadsAsWritten | TypedAccessors.SetDeepNumberThenGet |
| Multi-JSON-Interface/include/mjsoni/rapid_json_config_reader.hpp:1228 | `GetUnsignedInt64` reads through `GetInt64` | `{"k": 9223372036854775808}` passes `HasUnsignedInt64`, and then `GetUnsignedInt64("k")` asserts | 9223372036854775808 | medium, not executed; without assertions the bits happen to convert back | Findings.NumberReadsAsWritten | TypedAccessors.GetNumber |
| Multi-JSON-Interface/include/mjsoni/rapid_json_config_reader.hpp:1304 | `GetUnsignedLong` reads through `GetUint`, and `HasUnsignedLong` (1336) tests `IsUint` | where unsigned long has 64 bits, `SetUnsignedLong(4294967296, "k")` then `GetUnsignedLongOrDefault(d, "k")` returns `d`, and `GetUnsignedLong("k")` asserts | 4294967296 | medium, not executed; depends on the width of unsigned long | Findings.UnsignedLongReadsAsWritten | TypedAccessors.SetDeepNumberThenGet |
| Multi-JSON-Interface/include/mjsoni/rapid_json_config_reader.hpp:1853-1855 | `Read` returns false when the file already exists, before parsing it | a file written by `Write`, then `Read()` on a fresh reader returns false and leaves the document null | the file is parsed and `Read()` returns true | high, not executed | Findings.ReadAsWrittenRefusesExistingFile | ConfigReaders.ConfigReader.Read |
