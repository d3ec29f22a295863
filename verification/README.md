# Compound names, verified

This project models the compound-name value type of the `adap-names`
TypeScript repository in Dafny. A name is an ordered list of string
components. It is written as one string, with a one-character delimiter
between the components and an escape character (`\`) so that a component
may contain the delimiter or the escape character. The default delimiter
is `.`.

The repository implements the same type in several stages. Each stage
is one module here:

- `Codec` (codec.dfy): the escape-aware codec that every stage shares.
  `Serialize` escapes each component (every `\` becomes `\\`, then every
  delimiter becomes `\` plus the delimiter) and joins them with the
  delimiter. `Parse` is the left-to-right scan with an escape flag, where
  `""` parses to no components. `ParseComponents` is the scan loop, proved
  equal to `Parse`.
- `Utf16` (utf16.dfy): the JavaScript length of a string, which counts
  UTF-16 code units, so a character above the Basic Multilingual Plane
  counts twice. The delimiter checks and the b04 hash use it.
- `HashCode` (hash.dfy): the `getHashCode` loop. It folds `31 * h + c`
  over the data string and wraps the result to signed 32 bits.
- `JsArray` (js_array.dfy): `Array.prototype.splice`, including the way
  JavaScript clamps an index that is out of range.
- `Contract` (contract.dfy): the precondition and class-invariant checks
  of stages b04 and b06. Each check passes or gives the exception the
  source throws.
- `Representation` (storage.dfy): the two subclasses, `StringName` (one
  escaped string) and `StringArrayName` (the raw component list). They
  appear as the `Storage` tag, and the two storage primitives
  `getComponentList` and `setComponentList` appear as `View` and `Store`.
- `NamesB06` (names_b06.dfy): the final stage. No method of a name
  changes it (only the array a `StringArrayName` shares with its creator
  can, see "Left out"), and the contracts are checked. Each mutator clones the receiver, edits the
  clone, checks the count postcondition and returns the clone.
- `NamesB04` (names_b04.dfy): the b04 abstract base. It adds the
  constructor checks, `asString` built by index, a hash that is the
  JavaScript length of the data string, and an in-place `concat` with a count
  postcondition.
- `NamesB03` (names_b03.dfy): a base class over the same two primitives
  that edits the receiver in place.
- `NamesB02` (names_b02.dfy): two independent classes.
  `StringName` caches its component count, and `StringArrayName` edits its
  array in place. `NameRef` is the `Name` interface through which
  `concat` reads the other name.
- `Files` (files_b04.dfy): the b04 `File` state machine (open, read,
  close) and the `Directory` set of child nodes.

Main results:

- Round trip. If the delimiter is not the escape character, parsing what
  `Serialize(cs)` produces gives back `cs` exactly when `cs != [""]`. The
  lists `[]` and `[""]` both serialize to `""`, and no other two lists
  serialize to the same string.
- Equality. Two names are `isEqual` exactly when their component lists
  are equal, or when one list is `[]` and the other is `[""]`. Names that
  are equal have equal hash codes.
- If the delimiter is not the escape character, a string is what `Parse`
  reads back unchanged exactly when some list serializes to it. A lone escape at the end of the string is dropped.
- b06 string-backed names. Any mutator whose result would be `[""]`
  fails its count postcondition with MethodFailed. `concat` has no count
  postcondition, so it returns the empty name instead.
- b02 `StringName`. After a mutation that produces `[""]`, the cached
  count is 1 while the stored string parses to nothing.

Three behaviours of the source are easy to miss:

- A string-backed name cannot hold the single empty component: `[""]`
  serializes to `""`, which parses back to `[]` (`RoundTrip`).
- A delimiter equal to the escape character passes the one-character
  check, but the round trip then breaks (`EscapeAsDelimiterBreaksRoundTrip`).
- A lone escape at the end of a string is accepted without an error. It is
  dropped (`TrailingEscape`).

## Model

| member | source | states |
|---|---|---|
| Codec.ReplaceChar | src/adap-b06/names/AbstractName.ts:52-53 | one global replace leaves a string without the character unchanged and never shortens it |
| Codec.Escape | src/adap-b06/names/AbstractName.ts:52-53 | escaping never shortens a component and leaves one without `\` and the delimiter unchanged; its per-character meaning is `EscapeIsCharwise` |
| Codec.EscapeAll | src/adap-b06/names/AbstractName.ts:51-55 | the map escapes every component and keeps their number and order |
| Codec.EscapeIsCharwise | src/adap-b06/names/AbstractName.ts:51-55 | the two passes (escape character first, then delimiter) act on each character on its own, so the first pass never corrupts the second |
| Codec.Join | src/adap-b06/names/AbstractName.ts:57 | the join starts with the first part and adds at least one character (the delimiter) for each part after the first |
| Codec.Serialize | src/adap-b06/names/AbstractName.ts:51-57 | the escaped join is at least as long as its first component and adds at least one character for each component after the first; its inverse is `RoundTrip` and its injectivity `SerializeInjective` |
| Codec.SerializeCons | src/adap-b06/names/AbstractName.ts:51-57 | the escaped join is the first escaped component, the delimiter, then the join of the rest |
| Codec.SerializeEmpty | src/adap-b06/names/StringName.ts:48-58 | the serialization is empty exactly for `[]` and `[""]` |
| Codec.PlainSerialize | src/adap-b06/names/AbstractName.ts:51-57 | components free of the escape character and the delimiter are joined unchanged |
| Codec.Scan | src/adap-b06/names/StringName.ts:29-45 | the scan always pushes its final buffer, so it yields at least one component |
| Codec.Parse | src/adap-b06/names/StringName.ts:20-46 | the parse is empty exactly for the empty string |
| Codec.ParseComponents | src/adap-b06/names/StringName.ts:20-46 | the scan loop with its escape flag and buffer computes `Parse` |
| Codec.EscapedCharIsLiteral | src/adap-b06/names/StringName.ts:32-34 | the character after an unescaped escape is appended literally, whatever it is |
| Codec.ScanEscaped | src/adap-b06/names/StringName.ts:29-45 | the scan reads an escaped component back as the original text |
| Codec.ScanSerialized | src/adap-b06/names/StringName.ts:29-45 | the scan of a serialized list gives back the list |
| Codec.RoundTrip | src/adap-b06/names/StringName.ts:20-58 | with the delimiter not the escape character, parse after serialize is the identity exactly when the list is not `[""]`; `[""]` comes back as `[]` |
| Codec.SerializeInjective | src/adap-b06/names/AbstractName.ts:68-71 | two lists serialize alike exactly when they are equal or are `[]` and `[""]` |
| Codec.CanonicalIff | src/adap-b06/names/StringName.ts:13-16 | re-serializing the parse of a stored string gives it back exactly when some list serializes to it |
| Codec.NonCanonicalExample | src/adap-b06/names/StringName.ts:29-45 | `a\x` parses to `["ax"]`, which serializes to `ax`, so a source string need not be canonical |
| Codec.ScanLength | src/adap-b06/names/StringName.ts:29-45 | the scan yields one more component than there are unescaped delimiters |
| Codec.ParseCount | src/adap-b06/names/StringName.ts:20-46 | a non-empty string with k unescaped delimiters parses to k+1 components |
| Codec.TrailingEscape | src/adap-b06/names/StringName.ts:35-44 | a trailing escape is dropped when it is unescaped and kept as a literal when it is escaped |
| Codec.DelimiterInComponentExample | src/adap-b06/names/AbstractName.ts:51-57 | `["a.b","c"]` serializes to `a\.b.c`, and that string parses back to the list |
| Codec.EscapeAsDelimiterBreaksRoundTrip | src/adap-b06/names/AbstractName.ts:29-31 | with the escape character as the delimiter, `["a","b"]` serializes to `a\b`, which parses to `["ab"]` |
| Utf16.Units | src/adap-b06/names/AbstractName.ts:30 | a character counts one code unit exactly when it lies in the Basic Multilingual Plane, otherwise two |
| Utf16.Length | src/adap-b06/names/AbstractName.ts:30 | the JavaScript length is never less than the number of characters |
| Utf16.LengthOne | src/adap-b06/names/AbstractName.ts:30 | a string has JavaScript length 1 exactly when it is one character of the Basic Multilingual Plane |
| Utf16.LengthIsSize | src/adap-b04/names/AbstractName.ts:90-92 | the JavaScript length equals the number of characters exactly when every character lies in the Basic Multilingual Plane |
| Utf16.SupplementaryLength | src/adap-b06/names/AbstractName.ts:30 | the one-character string U+1F600 has JavaScript length 2 |
| HashCode.Hash | src/adap-b06/names/AbstractName.ts:73-82 | the hash is in the signed 32-bit range; the loop is `StringHash` and the unwrapped reference `HashIsPolynomial` |
| HashCode.ToInt32 | src/adap-b06/names/AbstractName.ts:79 | the bitwise or with 0 gives the signed 32-bit value congruent to its input modulo 2^32 |
| HashCode.StringHash | src/adap-b06/names/AbstractName.ts:73-82 | the hash loop computes the fold `Hash` and stays in the signed 32-bit range |
| HashCode.HashIsPolynomial | src/adap-b06/names/AbstractName.ts:73-82 | the wrapped fold is congruent modulo 2^32 to the polynomial in 31 over the characters |
| JsArray.Splice | src/adap-b06/names/AbstractName.ts:131 | the result keeps every inserted item and at most all of the array, grows by exactly the items when nothing is deleted, and is just the items when everything from the start is deleted; its positions are `SpliceStart`, `SpliceInsert` and `SpliceRemove` |
| JsArray.SpliceStart | src/adap-b06/names/AbstractName.ts:131 | the start index of `splice` is clamped into the array and is the index itself when in range |
| JsArray.SpliceInsert | src/adap-b06/names/AbstractName.ts:131 | `splice(i, 0, c)` with `i` in range puts `c` at position `i` and makes the list one longer |
| JsArray.SpliceRemove | src/adap-b06/names/AbstractName.ts:151 | `splice(i, 1)` with `i` in range drops exactly position `i` |
| JsArray.SpliceOutOfRange | src/adap-b03/names/AbstractName.ts:100-118 | without a bounds check, an insertion past either end lands at that end and a removal past the end changes nothing |
| JsArray.Assign | src/adap-b02/names/StringArrayName.ts:54-56 | `a[i] = x` for `0 <= i <= length`: position `i` holds `x`, every other element stays, and the array grows by one exactly when `i` is the length |
| JsArray.AssignPastEnd | src/adap-b03/names/AbstractName.ts:93-97 | assigning at the length is the same as `push`, and as `splice` at the end |
| Contract.AssertValidIndex | src/adap-b06/names/AbstractName.ts:17-19 | passes exactly for `0 <= i < max`, else IllegalArgument |
| Contract.AssertValidInsertionIndex | src/adap-b06/names/AbstractName.ts:21-23 | passes exactly for `0 <= i <= max`, else IllegalArgument |
| Contract.AssertValidComponent | src/adap-b06/names/AbstractName.ts:25-27 | passes exactly for a non-null component, else IllegalArgument |
| Contract.CheckClassInvariant | src/adap-b06/names/AbstractName.ts:29-31 | passes exactly when the delimiter's JavaScript length is 1, that is, one character of the Basic Multilingual Plane; else InvalidState |
| Contract.CheckedDelimiter | src/adap-b06/names/AbstractName.ts:39-43 | an omitted delimiter gives `.`; null gives IllegalArgument; any JavaScript length other than 1 gives InvalidState; an accepted delimiter is one code unit |
| Contract.SupplementaryDelimiterRefused | src/adap-b06/names/AbstractName.ts:29-31 | the one-symbol delimiter U+1F600 has JavaScript length 2 and is refused with InvalidState |
| Representation.View | src/adap-b06/names/StringName.ts:20-46 | an array name reads as its array, and a string name reads as no components exactly when its string is empty; what `Store` writes reads back by `StoreThenView` |
| Representation.Store | src/adap-b06/names/StringName.ts:48-58 | storing a list never changes the kind of storage |
| Representation.StoreThenView | src/adap-b06/names/StringName.ts:20-58 | reading back a stored list gives the list, except that string storage turns `[""]` into `[]` |
| Representation.RepresentationsAgree | test/adap-b06/names/Names.test.ts:42-49 | string storage of `Serialize(cs)` and array storage of `cs` have the same data string |
| NamesB06.Name.NewStringName | src/adap-b06/names/StringName.ts:13-16 | the constructor checks give the exceptions of `CheckedDelimiter`; otherwise a fresh name holds the source string verbatim |
| NamesB06.Name.NewStringArrayName | src/adap-b06/names/StringArrayName.ts:8-12 | the same delimiter checks; otherwise a fresh name whose components are the source list |
| NamesB06.Name.GetComponentList | src/adap-b06/names/StringName.ts:20-46 | returns the parse of the stored string, or the stored list |
| NamesB06.Name.SetComponentList | src/adap-b06/names/StringName.ts:48-58 | stores the list (serialized for a string); it reads back as the list except `[""]` in a string |
| NamesB06.Name.Clone | src/adap-b06/names/StringName.ts:61-63 | a fresh name with the same storage and delimiter, so the same components and data string |
| NamesB06.Name.AsString | src/adap-b06/names/AbstractName.ts:45-58 | null gives IllegalArgument; otherwise the serialization under the given delimiter or the name's own, which parses back to the components unless they are `[""]` |
| NamesB06.Name.AsDataString | src/adap-b06/names/AbstractName.ts:64-66 | the serialization under the default delimiter |
| NamesB06.Name.GetDelimiterCharacter | src/adap-b06/names/AbstractName.ts:88-90 | one character, the delimiter |
| NamesB06.Name.IsEqual | src/adap-b06/names/AbstractName.ts:68-71 | null gives IllegalArgument; otherwise true exactly when the data strings are equal, that is when the components are equal or are `[]` and `[""]` |
| NamesB06.Name.GetHashCode | src/adap-b06/names/AbstractName.ts:73-82 | the 32-bit fold over the data string alone |
| NamesB06.Name.IsEmpty | src/adap-b06/names/AbstractName.ts:84-86 | true exactly when there are no components |
| NamesB06.Name.GetNoComponents | src/adap-b06/names/AbstractName.ts:92-94 | the number of components |
| NamesB06.Name.GetComponent | src/adap-b06/names/AbstractName.ts:96-99 | component `i` for `0 <= i < count`, else IllegalArgument |
| NamesB06.Name.SetComponent | src/adap-b06/names/AbstractName.ts:104-119 | IllegalArgument for a bad index or null component; otherwise a fresh name with position `i` replaced, or MethodFailed exactly when the count changes (a string that would hold `[""]`); receiver unchanged |
| NamesB06.Name.Insert | src/adap-b06/names/AbstractName.ts:121-136 | IllegalArgument for a bad index or null component; otherwise a fresh name with the components `cs[..i] + [c] + cs[i..]`, or MethodFailed exactly when the count is not one more; receiver unchanged |
| NamesB06.Name.Append | src/adap-b06/names/AbstractName.ts:138-140 | `insert(count, c)`: a fresh name with the components `cs + [c]`, with the same failure cases |
| NamesB06.Name.Remove | src/adap-b06/names/AbstractName.ts:142-156 | IllegalArgument for a bad index; otherwise a fresh name without position `i`, or MethodFailed exactly when the count is not one less; receiver unchanged |
| NamesB06.Name.Concat | src/adap-b06/names/AbstractName.ts:158-172 | IllegalArgument for null; otherwise a fresh name with the receiver's delimiter, holding the receiver's components then the other's; no count check, so `[""]` in a string becomes `[]`; both operands unchanged |
| NamesB06.EqualNamesHashEqually | test/adap-b06/names/Names.test.ts:42-49 | a string name holding `Serialize(cs)` and an array name holding `cs` have equal data strings and equal hashes |
| NamesB06.EmptyComponentScenario | src/adap-b06/names/AbstractName.ts:121-136 | inserting `""` into the empty string name fails with MethodFailed; the array name `[""]` has count 1, the empty string name count 0, and they are equal |
| NamesB06.SampleOssCsFau | test/adap-b06/names/Names.test.ts:11-15 | `["oss","cs","fau"]` serializes to `oss.cs.fau` |
| NamesB06.SampleOssFauDe | test/adap-b06/names/Names.test.ts:25-28 | `["oss","fau","de"]` serializes to `oss.fau.de` |
| NamesB06.SampleCsFauDe | test/adap-b06/names/Names.test.ts:38 | `["cs","fau","de"]` serializes to `cs.fau.de` |
| NamesB06.SampleOssCsFauDe | test/adap-b06/names/Names.test.ts:18 | `["oss","cs","fau","de"]` serializes to `oss.cs.fau.de` |
| NamesB06.AppendScenario | test/adap-b06/names/Names.test.ts:10-22 | appending `de` to `oss.cs.fau` gives a distinct `oss.cs.fau.de` and leaves the receiver as it was |
| NamesB06.InsertScenario | test/adap-b06/names/Names.test.ts:24-31 | inserting `cs` at 1 into `[oss,fau,de]` gives `oss.cs.fau.de` and leaves the receiver as it was |
| NamesB06.RemoveScenario | test/adap-b06/names/Names.test.ts:33-40 | removing position 0 of `oss.cs.fau.de` gives `cs.fau.de` and leaves the receiver as it was |
| NamesB06.EqualityScenario | test/adap-b06/names/Names.test.ts:42-49 | the string and array forms of `oss.cs.fau.de` are equal and hash equally |
| NamesB06.EmptyNameScenario | src/adap-b06/names/AbstractName.ts:121-156 | on the empty name `remove(0)` is IllegalArgument and `insert(0, "x")` gives `["x"]` |
| NamesB04.Name.New | src/adap-b04/names/AbstractName.ts:42-48 | null delimiter gives IllegalArgument, any JavaScript length other than 1 (including one character above the Basic Multilingual Plane) gives InvalidState; otherwise a fresh name |
| NamesB04.Name.GetNoComponents | src/adap-b04/names/AbstractName.ts:104 | the number of components |
| NamesB04.Name.GetComponent | test/adap-b04/name/Name.test.ts:29-35 | component `i` for `0 <= i < count`, else IllegalArgument |
| NamesB04.Name.Append | src/adap-b04/names/AbstractName.ts:112 | `c` is added at the end |
| NamesB04.Name.AsString | src/adap-b04/names/AbstractName.ts:57-75 | null gives IllegalArgument; otherwise the components, collected by index, are serialized under the given delimiter or the name's own |
| NamesB04.Name.AsDataString | src/adap-b04/names/AbstractName.ts:81-83 | the serialization under the default delimiter |
| NamesB04.Name.IsEqual | src/adap-b04/names/AbstractName.ts:85-88 | null gives IllegalArgument; otherwise equality of the data strings, true for equal components |
| NamesB04.Name.GetHashCode | src/adap-b04/names/AbstractName.ts:90-92 | the JavaScript length of the data string: at least its number of characters, and equal to it exactly when no character lies above the Basic Multilingual Plane |
| NamesB04.Name.IsEmpty | src/adap-b04/names/AbstractName.ts:94-96 | true exactly when there are no components |
| NamesB04.Name.GetDelimiterCharacter | src/adap-b04/names/AbstractName.ts:98-100 | one character, the delimiter |
| NamesB04.Name.Concat | src/adap-b04/names/AbstractName.ts:118-130 | null gives IllegalArgument with nothing changed; otherwise the other's components are appended in order and the count check and class invariant pass; an empty name may be concatenated with itself |
| NamesB03.Name.StringName | src/adap-b03/names/StringName.ts:14-17 | stores the source string; an omitted delimiter defaults to `.`, and a given one is one UTF-16 code unit |
| NamesB03.Name.StringArrayName | src/adap-b03/names/StringArrayName.ts:8-11 | stores the source list; an omitted delimiter defaults to `.`, and a given one is one UTF-16 code unit |
| NamesB03.Name.GetComponentList | src/adap-b03/names/StringName.ts:22-50 | returns the parse of the stored string, or the list |
| NamesB03.Name.SetComponentList | src/adap-b03/names/StringName.ts:53-63 | stores the list (serialized for a string); it reads back as the list except `[""]` in a string |
| NamesB03.Name.Clone | src/adap-b03/names/StringName.ts:67-69 | a fresh name with the same storage and delimiter |
| NamesB03.Name.AsString | src/adap-b03/names/AbstractName.ts:30-43 | the serialization under the given delimiter or the name's own, which parses back to the components unless they are `[""]` |
| NamesB03.Name.AsDataString | src/adap-b03/names/AbstractName.ts:51-53 | the serialization under the default delimiter |
| NamesB03.Name.IsEqual | src/adap-b03/names/AbstractName.ts:56-58 | true exactly when the data strings are equal, that is when the components are equal or are `[]` and `[""]` |
| NamesB03.Name.GetHashCode | src/adap-b03/names/AbstractName.ts:61-70 | the 32-bit fold over the data string |
| NamesB03.Name.IsEmpty | src/adap-b03/names/AbstractName.ts:73-75 | true exactly when there are no components |
| NamesB03.Name.GetDelimiterCharacter | src/adap-b03/names/AbstractName.ts:78-80 | the delimiter |
| NamesB03.Name.GetNoComponents | src/adap-b03/names/AbstractName.ts:83-85 | the number of components |
| NamesB03.Name.GetComponent | src/adap-b03/names/AbstractName.ts:88-90 | component `i` inside the list, `undefined` outside |
| NamesB03.Name.SetComponent | src/adap-b03/names/AbstractName.ts:93-97 | the receiver stores the list with position `i` replaced, or with `c` appended when `i` is the length; it reads back so unless it is `[""]` in a string |
| NamesB03.Name.Insert | src/adap-b03/names/AbstractName.ts:100-104 | the receiver stores `splice(i, 0, c)` of its list, which is `cs[..i] + [c] + cs[i..]` for `i` in range |
| NamesB03.Name.Append | src/adap-b03/names/AbstractName.ts:107-111 | the receiver stores `cs + [c]` |
| NamesB03.Name.Remove | src/adap-b03/names/AbstractName.ts:114-118 | the receiver stores `splice(i, 1)` of its list, which is `cs[..i] + cs[i+1..]` for `i` in range |
| NamesB03.Name.Concat | src/adap-b03/names/AbstractName.ts:121-127 | the receiver stores its components followed by the other's (its own again for a string name concatenated with itself; an empty array name with itself stays empty) |
| NamesB03.EmptyComponentScenario | src/adap-b03/names/StringName.ts:53-63 | `setComponent(0, "")` on the string name `a` leaves an empty name |
| NamesB03.CloneScenario | src/adap-b03/names/StringArrayName.ts:26-28 | appending to a clone of `[a,b]` leaves the original `[a,b]` |
| NamesB03.SelfConcatScenario | src/adap-b03/names/AbstractName.ts:121-127 | a string name `a.b` concatenated with itself becomes `[a,b,a,b]` |
| NamesB02.StringName.constructor | src/adap-b02/names/StringName.ts:57-63 | an omitted or empty delimiter keeps `.`, and a given one has JavaScript length 1; the source is stored verbatim and the cache holds its parsed count |
| NamesB02.StringName.GetComponents | src/adap-b02/names/StringName.ts:15-41 | the parse of the stored string |
| NamesB02.StringName.SetComponents | src/adap-b02/names/StringName.ts:44-55 | stores the serialization and caches the length of `cs`; afterwards the string is canonical, and the cache agrees with the parse exactly when `cs != [""]` |
| NamesB02.StringName.AsString | src/adap-b02/names/StringName.ts:66-80 | the stored string verbatim under the own delimiter, else the re-serialized parse; both agree on a canonical string |
| NamesB02.StringName.AsDataString | src/adap-b02/names/StringName.ts:83-85 | the stored string verbatim when the delimiter is `.`, otherwise the parse re-serialized under `.`; for a canonical string, the default serialization of its components |
| NamesB02.StringName.GetDelimiterCharacter | src/adap-b02/names/StringName.ts:88-90 | the delimiter |
| NamesB02.StringName.IsEmpty | src/adap-b02/names/StringName.ts:93-95 | the cache is 0; with a consistent cache, exactly when there are no components |
| NamesB02.StringName.GetNoComponents | src/adap-b02/names/StringName.ts:98-100 | the cache; with a consistent cache, the number of components |
| NamesB02.StringName.GetComponent | src/adap-b02/names/StringName.ts:103-105 | component `i` of the parse, `undefined` outside |
| NamesB02.StringName.SetComponent | src/adap-b02/names/StringName.ts:108-112 | stores the parse with position `i` replaced (or `c` appended when `i` is the parse's length) and caches that list's length |
| NamesB02.StringName.Insert | src/adap-b02/names/StringName.ts:115-119 | stores `splice(i, 0, c)` of the parse, with a cached count one more |
| NamesB02.StringName.Append | src/adap-b02/names/StringName.ts:122-126 | stores the parse followed by `c`, with a cached count one more |
| NamesB02.StringName.Remove | src/adap-b02/names/StringName.ts:129-133 | stores `splice(i, 1)` of the parse |
| NamesB02.StringName.Concat | src/adap-b02/names/StringName.ts:136-142 | stores a snapshot of the receiver's parse followed by the other's components, so a self-concat doubles |
| NamesB02.StringArrayName.constructor | src/adap-b02/names/StringArrayName.ts:13-18 | stores the source list; an omitted delimiter keeps `.` |
| NamesB02.StringArrayName.AsString | src/adap-b02/names/StringArrayName.ts:20-32 | the serialization under the given delimiter or the own one; for a one-unit delimiter other than `\` it parses back to the list exactly when the list is not `[""]` |
| NamesB02.StringArrayName.AsDataString | src/adap-b02/names/StringArrayName.ts:34-36 | the serialization under `.` |
| NamesB02.StringArrayName.GetDelimiterCharacter | src/adap-b02/names/StringArrayName.ts:38-40 | the delimiter |
| NamesB02.StringArrayName.IsEmpty | src/adap-b02/names/StringArrayName.ts:42-44 | true exactly when the list is empty |
| NamesB02.StringArrayName.GetNoComponents | src/adap-b02/names/StringArrayName.ts:46-48 | the length of the list |
| NamesB02.StringArrayName.GetComponent | src/adap-b02/names/StringArrayName.ts:50-52 | element `i`, `undefined` outside the list |
| NamesB02.StringArrayName.SetComponent | src/adap-b02/names/StringArrayName.ts:54-56 | position `i` replaced, or `c` pushed when `i` is the length |
| NamesB02.StringArrayName.Insert | src/adap-b02/names/StringArrayName.ts:58-60 | `splice(i, 0, c)`, which is `cs[..i] + [c] + cs[i..]` for `i` in range |
| NamesB02.StringArrayName.Append | src/adap-b02/names/StringArrayName.ts:62-64 | `c` pushed at the end |
| NamesB02.StringArrayName.Remove | src/adap-b02/names/StringArrayName.ts:66-68 | `splice(i, 1)`, which is `cs[..i] + cs[i+1..]` for `i` in range |
| NamesB02.StringArrayName.Concat | src/adap-b02/names/StringArrayName.ts:70-74 | the other's components appended in order; an empty name may be concatenated with itself |
| NamesB02.NoComponentsOf | src/adap-b02/names/StringName.ts:138 | the other name's reported count: the cache of a string name, the length of a list |
| NamesB02.ComponentOf | src/adap-b02/names/StringName.ts:139 | the other name's component `i`, `undefined` outside |
| NamesB02.CacheDriftScenario | src/adap-b02/names/StringName.ts:44-55 | after `setComponent(0, "")` on `a` the name reports 1 component and is not empty, yet has no component 0 |
| NamesB02.VerbatimScenario | src/adap-b02/names/StringName.ts:66-80 | the string `a\x` prints verbatim under its own delimiter but as `ax` under another |
| NamesB02.SelfConcatScenario | src/adap-b02/names/StringName.ts:136-142 | `a.b` concatenated with itself becomes `[a,b,a,b]` |
| NamesB02.AgreementScenario | src/adap-b02/names/StringArrayName.ts:20-32 | a string name set from a list prints what the array name prints, and reads the list back exactly when it is not `[""]` |
| Files.Next | src/adap-b04/files/File.ts:20-42 | an operation succeeds exactly in its required state (CLOSED for open, OPEN for read and close), else InvalidState |
| Files.NeverDeleted | src/adap-b04/files/File.ts:6-42 | from OPEN or CLOSED no sequence of operations reaches DELETED |
| Files.DeletedIsFinal | src/adap-b04/files/File.ts:20-42 | a DELETED file rejects every operation and stays DELETED |
| Files.OpenReadsClose | src/adap-b04/files/File.ts:20-42 | open, any number of reads, then close returns a CLOSED file to CLOSED |
| Files.ReadsKeepOpen | src/adap-b04/files/File.ts:28-34 | reads leave an OPEN file as it was |
| Files.File.constructor | src/adap-b04/files/File.ts:14-18 | a new file is CLOSED |
| Files.File.OpenFile | src/adap-b04/files/File.ts:20-26 | passes exactly from CLOSED and moves to OPEN; otherwise InvalidState with the state unchanged |
| Files.File.Read | src/adap-b04/files/File.ts:28-34 | no bytes, exactly when OPEN; otherwise InvalidState; the state never changes |
| Files.File.CloseFile | src/adap-b04/files/File.ts:36-42 | passes exactly from OPEN and moves to CLOSED; otherwise InvalidState with the state unchanged |
| Files.File.GetFileState | src/adap-b04/files/File.ts:44-46 | the current state |
| Files.SessionScenario | src/adap-b04/files/File.ts:20-42 | open, read, close yields no bytes and CLOSED; a second close is InvalidState |
| Files.Directory.constructor | src/adap-b04/files/Directory.ts:6-10 | a new directory has no children |
| Files.Directory.HasChildNode | src/adap-b04/files/Directory.ts:12-14 | membership in the child set; null is never a child |
| Files.Directory.AddChildNode | src/adap-b04/files/Directory.ts:16-20 | null gives IllegalArgument with nothing changed; otherwise the node is added and all earlier children stay |
| Files.Directory.RemoveChildNode | src/adap-b04/files/Directory.ts:22-28 | IllegalArgument with nothing changed for null or a non-child; otherwise exactly that node leaves |
| Files.ChildScenario | src/adap-b04/files/Directory.ts:16-28 | adding a node twice gives one child; removing it empties the directory; removing it again is IllegalArgument |

## Left out

- `escapeRegex` and the `RegExp` objects only make the delimiter literal inside a JavaScript regular expression. Escaping is modelled directly as character replacement.
- Delimiters are single characters of the Basic Multilingual Plane (`Utf16.PlaneChar`), that is, strings of JavaScript length 1. The b02 and b03 constructors accept a delimiter string of any length, and `asString` accepts an override of any length. A name's own delimiter of JavaScript length 2 or more is not modelled, and that includes one character above the plane such as U+1F600: the source's parse compares single code units with the delimiter, so it never splits at such a delimiter. An `asString` override may be one character above the plane, and it is serialized as the source does (the regular-expression replace and `join` act on the whole character); only parsing at such a delimiter is not modelled, so the parse-back clause of `NamesB02.StringArrayName.AsString` is limited to one-unit delimiters. Overrides of more than one character are not modelled. The empty delimiter of b03 and of b02 `StringArrayName` is not modelled either. b02 `StringName` treats an empty delimiter as absent, and that case is modelled. b04 and b06 refuse every delimiter of length other than 1, and that is modelled.
- NamesB02.StringName.constructor: requires a delimiter of JavaScript length at most 1, because longer delimiters (including one character above the Basic Multilingual Plane) are not modelled.
- NamesB02.StringName.SetComponent, NamesB02.StringArrayName.SetComponent, NamesB03.Name.SetComponent: require an index from 0 to the length of the list. At the length, `components[i] = c` is a plain append, and that is modelled (`JsArray.Assign`). Beyond the length JavaScript makes a sparse array, and at a negative index it sets a property that is not an element; neither is modelled.
- NamesB02.StringName.Concat, NamesB02.StringArrayName.Concat: require a string-backed other name to have a cache that matches its parse. When the cache is larger, `getComponent` yields `undefined` for the missing positions. `StringName.concat` then fails with a TypeError, because `setComponents` calls `replace` on `undefined`. `StringArrayName.concat` pushes `undefined` into its array without any error. Components are strings in the model, so neither outcome is modelled.
- NamesB02.StringArrayName.Concat, NamesB03.Name.Concat, NamesB04.Name.Concat: cover concatenating an array-backed name (or, in b04, any name) with itself only when it is empty. A non-empty name grows with every append while the loop bound is re-read, so the source never terminates.
- Array aliasing: the b02, b03 and b06 `StringArrayName` constructors store the caller's array itself, and b03 `getComponentList` returns that array. In b06 a caller that keeps the array and changes it therefore changes the name, which no method of the name does. The model keeps lists as values, so outside changes to a shared array are not captured. The copy that `clone` makes is modelled.
- b04 `getNoComponents`, `getComponent` and `append` are abstract in the source. They are modelled as acting on a component list, and the b04 model covers only the base-class behaviour built on them. `setComponent`, `insert` and `remove` are abstract with no base-class behaviour, so they are not modelled.
- The b04 `StringName` is not part of this model. The b04 `StringArrayName` leaves the base's abstract operations unimplemented, so it is not modelled either. The b04 base `clone` only throws a generic error.
- `Directory.findNodes` of b05 wraps code that is not part of this model.
- Indices are JavaScript numbers in the source and integers in the model. A fractional index such as `0.5` passes `assertValidIndex` in b04 and b06 and then reads `undefined`, and `splice` truncates it (so `remove(0.5)` removes position 0). Neither case is modelled.
- HashCode.Hash: works on Dafny characters (Unicode scalar values). JavaScript's `charCodeAt` works on UTF-16 code units, so the two differ for characters outside the Basic Multilingual Plane. `(h << 5) - h + c` followed by `|= 0` is modelled as `ToInt32(31 * h + c)`.
- `Node` is reduced to object identity. Its base name, its parent and the parent links that `File` and `Directory` constructors set are not part of this model.
- Files.File.Read: returns an empty byte list as the source does. No actual file I/O exists, and the requested byte count is ignored.
- The exception classes, their messages, `toString` and the test framework are not modelled. An exception is a `Common.Exception` value returned in a `Result` or `Outcome`.
