# Marshal decoding and Coordinator bookkeeping, in Dafny

This project models two pieces of the Coordinator example application.

The first is the **Marshal** JSON decoding library the app vendors. It covers:

- key-path lookup over a decoded JSON object (`any(for:)`);
- the `ValueType` coercion rules for scalars, arrays, dictionaries, sets, URLs and the narrow integer types;
- every `value(for:)` overload of `MarshaledObject`, including the optional variants that turn a missing or null key into nil;
- `Unmarshaling` objects and their context-threaded variant;
- the `MarshalError` descriptions.

The second is the **Coordinator** library and some demo-app logic:

- a coordinator's lifecycle flags, its children map and its queue of deferred messages;
- which coordinator holds a root view controller's single `parentCoordinator` slot, when several coordinators share that root;
- the bookkeeping of a `NavigationCoordinator`, whose list of view controllers should track the navigation stack;
- the cart manager, colors, themes, string searching and HTTP methods of the example app.

Decoded JSON is the datatype `Json.Raw`. Every operation that can fail returns `Result<T, MarshalError>`, just as the Swift functions throw. A Swift runtime trap, such as converting an out-of-range number to `Int8`, becomes a precondition. Things the model cannot see are parameters:

- the element decoder;
- the iteration order of a Swift dictionary;
- the URL parser;
- what each queued message enqueues when it runs.

Modules follow the source files:

| module | models |
|---|---|
| `Results` | the option and result wrappers |
| `Json` | decoded values and Foundation's integer readings |
| `MarshalErrors` | `Error.swift` |
| `KeyPath` | `MarshalDictionary.swift` and `any(for:)` |
| `ValueTypes` | `ValueType.swift` |
| `MarshaledObject` | the `value(for:)` overloads |
| `Unmarshaling` | `Unmarshaling.swift` and `UnmarshalingWithContext.swift` |
| `MarshalExamples` | the library's missing-data test with concrete documents |
| `Coordinators` | `Coordinator.swift` and the `parentCoordinator` slot of `UIKit-CoordinatingExtensions.swift` |
| `Navigation` | `NavigationCoordinator.swift` |
| `Colors`, `Cart`, `Themes`, `StringSearch`, `HttpMethods` | the demo-app files of the same names |

## Model

| member | source | states |
|---|---|---|
| Json.TypeName | CoordinatorExample/Pods/Marshal/Sources/ValueType.swift:28-54 | the name a mismatch reports for the actual value is never empty, and is "NSNumber" exactly for numbers and "String" exactly for strings, so a mismatch never names the expected type as the actual one |
| Json.Int64Value | CoordinatorExample/Pods/Marshal/Sources/ValueType.swift:44-49 | `int64Value` of a number is a signed 64-bit value congruent to it modulo 2^64; this is Foundation's reading within [INT64_MIN, UINT64_MAX] and the model's stand-in beyond |
| Json.UInt64Value | CoordinatorExample/Pods/Marshal/Sources/ValueType.swift:175-182 | `uint64Value` of a number is an unsigned 64-bit value congruent to it modulo 2^64; this is Foundation's reading within [INT64_MIN, UINT64_MAX] and the model's stand-in beyond |
| Json.Int64ValueKeepsInRange | CoordinatorExample/Pods/Marshal/Sources/ValueType.swift:44-49 | a number that already fits in Int64 is read back unchanged |
| Json.UInt64ValueKeepsInRange | CoordinatorExample/Pods/Marshal/Sources/ValueType.swift:175-182 | a number that already fits in UInt64 is read back unchanged |
| MarshalErrors.Description | Carthage/Checkouts/Marshal/Sources/Error.swift:24-34 | a key-not-found or null-value message ends with its key; a type-mismatch message, keyed or not, ends with the actual type in quotes |
| MarshalErrors.AfterPrefix | Carthage/Checkouts/Marshal/Sources/Error.swift:26-29 | reading a key back from a message succeeds exactly when the message starts with the prefix, and the message is prefix plus key |
| MarshalErrors.KeyNotFoundDescriptionRoundTrip | Carthage/Checkouts/Marshal/Sources/Error.swift:26-27 | the key-not-found message gives back exactly its key and is not mistaken for a null-value message |
| MarshalErrors.NullValueDescriptionRoundTrip | Carthage/Checkouts/Marshal/Sources/Error.swift:28-29 | the null-value message gives back exactly its key and is not mistaken for a key-not-found message |
| MarshalErrors.MismatchDescriptionsAreNotKeyErrors | Carthage/Checkouts/Marshal/Sources/Error.swift:30-33 | neither type-mismatch message reads as a key-not-found or null-value message |
| MarshalErrors.KeyedDescriptionOrder | Carthage/Checkouts/Marshal/Sources/Error.swift:32-33 | the keyed mismatch message contains the expected type, then the key, then the actual value, in that order and without overlap |
| KeyPath.FirstDot | CoordinatorExample/Pods/Marshal/Sources/MarshaledObject.swift:23-40 | finds the first dot of a key, or reports that there is none |
| KeyPath.Split | CoordinatorExample/Pods/Marshal/Sources/MarshaledObject.swift:23-40 | splitting a key on dots yields only non-empty, dot-free segments |
| KeyPath.SplitSegment | CoordinatorExample/Pods/Marshal/Sources/MarshaledObject.swift:23-40 | a key without dots is a single segment |
| KeyPath.SplitCons | CoordinatorExample/Pods/Marshal/Sources/MarshaledObject.swift:23-40 | `a.rest` splits into `a` followed by the segments of `rest` |
| KeyPath.SplitJoin | CoordinatorExample/Pods/Marshal/Sources/MarshaledObject.swift:23-40 | joining valid segments with dots and splitting again gives back the segments |
| KeyPath.SplitOnlyDots | CoordinatorExample/Pods/Marshal/Sources/MarshaledObject.swift:23-40 | a key made only of dots, or empty, has no segments |
| KeyPath.OptionalAny | Example-CocoaPods/Pods/Marshal/Sources/MarshalDictionary.swift:25-28 | a key that does not cast to the dictionary's key type, or is absent, gives nil; otherwise the stored value, null included |
| KeyPath.StoredNullIsFound | Example-CocoaPods/Pods/Marshal/Sources/MarshalDictionary.swift:25-28 | a stored null is a found value at this level, not a missing key |
| KeyPath.NSDictionaryOptionalAny | Example-CocoaPods/Pods/Marshal/Sources/MarshalDictionary.swift:44-46 | the NSDictionary subscript finds exactly the keys present |
| KeyPath.Walk | CoordinatorExample/Pods/Marshal/Sources/MarshaledObject.swift:27-33 | an empty path gives the starting value; a successful step needs an object holding the first segment and continues from that segment's value |
| KeyPath.WalkAppend | CoordinatorExample/Pods/Marshal/Sources/MarshaledObject.swift:27-33 | following a path in two parts is the same as following it in one |
| KeyPath.WalkStopsAtLeaf | CoordinatorExample/Pods/Marshal/Sources/MarshaledObject.swift:27-33 | a path cannot continue through a value that is not an object |
| KeyPath.Any | CoordinatorExample/Pods/Marshal/Sources/MarshaledObject.swift:23-40 | the only failures are key-not-found (the path breaks off) and null-value (the path ends at null); a success is a non-null value found along the path; an empty path gives the container itself |
| KeyPath.AnySingleSegment | CoordinatorExample/Pods/Marshal/Sources/MarshaledObject.swift:23-40 | for a plain key: absent means key-not-found, null means null-value, and anything else is returned |
| KeyPath.AnyNested | CoordinatorExample/Pods/Marshal/Sources/MarshaledObject.swift:23-40 | `a.rest` resolves `rest` inside the object at `a`; errors name the full path, and a missing or non-object head is key-not-found |
| KeyPath.AnyThreeSegments | CoordinatorExample/Pods/Marshal/Sources/MarshaledObject.swift:23-40 | three-segment lookup descends two objects and then resolves the last key |
| KeyPath.NestedPathFound | CoordinatorExample/Pods/Marshal/Sources/MarshaledObject.swift:23-40 | `payload.team.id` resolves in a nested document |
| KeyPath.NestedPathMissing | CoordinatorExample/Pods/Marshal/Sources/MarshaledObject.swift:23-40 | a path whose middle segment is absent is key-not-found, naming the whole path |
| KeyPath.NSDictionaryAny | Example-CocoaPods/Pods/Marshal/Sources/MarshalDictionary.swift:34-42 | an absent key path is key-not-found, a key path ending at null is null-value, and any other value is returned |
| KeyPath.NSDictionaryAgreesWithDictionary | Example-CocoaPods/Pods/Marshal/Sources/MarshalDictionary.swift:34-42 | the NSDictionary resolver and the Swift dictionary resolver give the same result on every key |
| ValueTypes.DefaultRule | CoordinatorExample/Pods/Marshal/Sources/ValueType.swift:25-32 | a value decodes exactly when the cast succeeds; otherwise the error is a mismatch naming the expected type and the actual value's type |
| ValueTypes.DecodeString | CoordinatorExample/Pods/Marshal/Sources/ValueType.swift:37 | exactly the JSON strings decode, each to itself |
| ValueTypes.DecodeInt | CoordinatorExample/Pods/Marshal/Sources/ValueType.swift:38 | exactly the numbers within Int64 decode, each to itself |
| ValueTypes.DecodeUInt | CoordinatorExample/Pods/Marshal/Sources/ValueType.swift:39 | exactly the numbers within UInt64 decode, each to itself |
| ValueTypes.DecodeBool | CoordinatorExample/Pods/Marshal/Sources/ValueType.swift:42 | exactly the JSON booleans decode, each to itself |
| ValueTypes.DecodeInt64 | CoordinatorExample/Pods/Marshal/Sources/ValueType.swift:44-49 | any number decodes to a signed 64-bit value congruent to it modulo 2^64, unchanged when it fits (the wrap is Foundation's reading only within [INT64_MIN, UINT64_MAX]); anything else is a mismatch against NSNumber |
| ValueTypes.DecodeUInt64 | CoordinatorExample/Pods/Marshal/Sources/ValueType.swift:175-182 | any number decodes to an unsigned 64-bit value congruent to it modulo 2^64, unchanged when it fits (the wrap is Foundation's reading only within [INT64_MIN, UINT64_MAX]); anything else is a mismatch against NSNumber |
| ValueTypes.DecodeNarrow | CoordinatorExample/Pods/Marshal/Sources/ValueType.swift:126-174 | Int8 through UInt32 accept the Int box (signed) or the UInt box (unsigned); the result lies in the target's range; a value outside it is excluded because the conversion traps |
| ValueTypes.IntegerWidthExamples | CoordinatorExample/Pods/Marshal/Sources/ValueType.swift:126-182 | small numbers decode at every width; a large number decodes as Int64 but would trap as Int32 |
| ValueTypes.DecodeCharacter | CoordinatorExample/Pods/Marshal/Sources/ValueType.swift:184-191 | a one-character string decodes to its character; a non-string is a mismatch |
| ValueTypes.DecodeURL | CoordinatorExample/Pods/Marshal/Sources/ValueType.swift:114-124 | a string the parser accepts decodes to the parsed URL; a non-string is a String mismatch; a rejected string is a "valid URL" mismatch naming the string |
| ValueTypes.DecodeEach | CoordinatorExample/Pods/Marshal/Sources/ValueType.swift:66-74 | fail-fast: succeeds exactly when every element decodes, keeping order and length; otherwise the error is that of the first failing element |
| ValueTypes.DecodeOptionals | CoordinatorExample/Pods/Marshal/Sources/ValueType.swift:77-88 | one entry per element, nil exactly where the element fails to decode |
| ValueTypes.SomesLength | CoordinatorExample/Pods/Marshal/Sources/ValueType.swift:57-64 | dropping the nils keeps exactly as many values as were present |
| ValueTypes.SomesAllPresent | CoordinatorExample/Pods/Marshal/Sources/ValueType.swift:57-64 | with no nils, dropping the nils unwraps every entry in place |
| ValueTypes.DecodeKeeping | CoordinatorExample/Pods/Marshal/Sources/ValueType.swift:57-64 | the discarding loop yields the decoded values of the successful elements, in order |
| ValueTypes.DecodeArray | CoordinatorExample/Pods/Marshal/Sources/ValueType.swift:51-75 | a non-array is a mismatch against `Array<element>`; discarding mode keeps the successful elements, and the default mode is fail-fast |
| ValueTypes.DecodeOptionalArray | CoordinatorExample/Pods/Marshal/Sources/ValueType.swift:77-88 | an array always decodes, to one optional per element that is nil exactly on failure; a non-array is a mismatch |
| ValueTypes.DiscardingAgreesWhenAllDecode | CoordinatorExample/Pods/Marshal/Sources/ValueType.swift:51-75 | when every element decodes, discarding mode and fail-fast mode agree |
| ValueTypes.DiscardingCount | CoordinatorExample/Pods/Marshal/Sources/ValueType.swift:57-64 | discarding mode never fails on an array and keeps as many values as there are successful elements |
| ValueTypes.DecodeValues | CoordinatorExample/Pods/Marshal/Sources/ValueType.swift:96-102 | the dictionary loop succeeds exactly when every visited value decodes; its keys are the visited keys; otherwise the error is that of a failing value |
| ValueTypes.DecodeDictionary | CoordinatorExample/Pods/Marshal/Sources/ValueType.swift:91-105 | a non-object is a mismatch; an object decodes exactly when every value does, to a map with the same keys and the decoded values; a failure comes from one of its values |
| ValueTypes.DecodeSet | CoordinatorExample/Pods/Marshal/Sources/ValueType.swift:107-112 | a set decodes exactly when the fail-fast array does; it holds the same elements and fails with the same error |
| ValueTypes.EncodeArray | CoordinatorExample/Pods/Marshal/Sources/ValueType.swift:51-75 | the reference encoder puts one encoded element per position |
| ValueTypes.EncodeDictionary | CoordinatorExample/Pods/Marshal/Sources/ValueType.swift:91-105 | the reference encoder keeps the keys and encodes each value |
| ValueTypes.ArrayRoundTrip | CoordinatorExample/Pods/Marshal/Sources/ValueType.swift:66-74 | decoding an encoded array returns the original elements when each element round-trips |
| ValueTypes.DictionaryRoundTrip | CoordinatorExample/Pods/Marshal/Sources/ValueType.swift:91-105 | decoding an encoded dictionary returns the original map, whatever the iteration order |
| ValueTypes.SetRoundTrip | CoordinatorExample/Pods/Marshal/Sources/ValueType.swift:107-112 | decoding an encoded listing of a set returns that set |
| MarshaledObject.WithKey | CoordinatorExample/Pods/Marshal/Sources/MarshaledObject.swift:48-52 | a plain type mismatch becomes the keyed mismatch; other errors are untouched; the result is never a plain mismatch |
| MarshaledObject.Retag | CoordinatorExample/Pods/Marshal/Sources/MarshaledObject.swift:44-52 | re-tagging keeps success and its value, and only re-keys the error |
| MarshaledObject.OrNil | CoordinatorExample/Pods/Marshal/Sources/MarshaledObject.swift:55-65 | key-not-found and null-value become nil, a value becomes `Some`, and every other error propagates |
| MarshaledObject.Value | CoordinatorExample/Pods/Marshal/Sources/MarshaledObject.swift:42-53 | key-path errors pass through; otherwise it succeeds exactly when the element decodes, with that value; decode failures carry the key; no plain type mismatch escapes |
| MarshaledObject.OptionalValue | CoordinatorExample/Pods/Marshal/Sources/MarshaledObject.swift:55-65 | nil exactly when the required form fails with a missing or null key; `Some` exactly when it succeeds; otherwise its error |
| MarshaledObject.OptionalMissingOrNullIsNil | CoordinatorExample/Pods/Marshal/Sources/MarshaledObject.swift:55-65 | an absent or null key reads as nil |
| MarshaledObject.OptionalityKeepsTypeErrors | CoordinatorExample/Pods/Marshal/Sources/MarshaledObject.swift:42-65 | a present value of the wrong type is a keyed mismatch in both the required and the optional form |
| MarshaledObject.OptionalSwallowsNestedMissing | CoordinatorExample/Pods/Marshal/Sources/MarshaledObject.swift:55-65 | a key-not-found raised inside a nested decode also reads as nil in the optional form |
| MarshaledObject.ArrayValue | CoordinatorExample/Pods/Marshal/Sources/MarshaledObject.swift:67-75 | resolves the key, then decodes as an array with mismatches re-keyed; discarding mode never fails on an array; fail-fast keeps the length |
| MarshaledObject.OptionalArrayValue | CoordinatorExample/Pods/Marshal/Sources/MarshaledObject.swift:87-97 | the array form with missing or null turned into nil, including a missing key inside an element |
| MarshaledObject.OptionalElementsValue | CoordinatorExample/Pods/Marshal/Sources/MarshaledObject.swift:77-85 | succeeds exactly when the key holds an array, with one entry per element that is nil exactly where the element fails and otherwise holds that element's decoded value |
| MarshaledObject.OptionalOptionalElementsValue | CoordinatorExample/Pods/Marshal/Sources/MarshaledObject.swift:99-109 | delegates to the fail-fast array: when every element decodes, the fail-fast values each wrapped in `Some`; when one fails with a missing key or null value, anywhere, nil for the whole array; any other error propagates unchanged |
| MarshaledObject.DictionaryValue | CoordinatorExample/Pods/Marshal/Sources/MarshaledObject.swift:111-119 | resolves the key; a non-object is a keyed mismatch; a success has the object's keys and their decoded values, and happens exactly when all values decode |
| MarshaledObject.OptionalDictionaryValue | CoordinatorExample/Pods/Marshal/Sources/MarshaledObject.swift:121-132 | the dictionary decode with missing or null turned into nil |
| MarshaledObject.MarshalDictionaryValue | CoordinatorExample/Pods/Marshal/Sources/MarshaledObject.swift:154-160 | succeeds exactly when the key holds an object, returned as is; otherwise a keyed mismatch against `Dictionary<String, Any>` |
| MarshaledObject.OptionalMarshalDictionaryValue | CoordinatorExample/Pods/Marshal/Sources/MarshaledObject.swift:162-172 | the object lookup with missing or null turned into nil |
| MarshaledObject.MarshalDictionaryArrayValue | CoordinatorExample/Pods/Marshal/Sources/MarshaledObject.swift:134-140 | succeeds exactly when the key holds an array of objects, returned element by element |
| MarshaledObject.OptionalMarshalDictionaryArrayValue | CoordinatorExample/Pods/Marshal/Sources/MarshaledObject.swift:142-152 | the array-of-objects lookup with missing or null turned into nil |
| MarshaledObject.SetValue | CoordinatorExample/Pods/Marshal/Sources/MarshaledObject.swift:174-182 | the set succeeds exactly when the fail-fast array does, and holds its elements |
| MarshaledObject.OptionalSetValue | CoordinatorExample/Pods/Marshal/Sources/MarshaledObject.swift:184-194 | the set decode with missing or null turned into nil |
| MarshaledObject.RawEnumValue | CoordinatorExample/Pods/Marshal/Sources/MarshaledObject.swift:196-202 | a raw value that names a case gives that case; one that does not is a keyed mismatch naming the enum and the raw value; raw decode errors propagate |
| MarshaledObject.OptionalRawEnumValue | CoordinatorExample/Pods/Marshal/Sources/MarshaledObject.swift:204-214 | the enum decode with missing or null turned into nil |
| MarshaledObject.LookupEach | CoordinatorExample/Pods/Marshal/Sources/MarshaledObject.swift:216-224 | every raw value maps to its case in order, or the first raw value without a case gives the keyed mismatch |
| MarshaledObject.RawEnumArrayValue | CoordinatorExample/Pods/Marshal/Sources/MarshaledObject.swift:216-224 | a fail-fast array of raw values, each then mapped to its case |
| MarshaledObject.OptionalRawEnumArrayValue | CoordinatorExample/Pods/Marshal/Sources/MarshaledObject.swift:226-236 | the enum array decode with missing or null turned into nil |
| MarshaledObject.RawEnumSetValue | CoordinatorExample/Pods/Marshal/Sources/MarshaledObject.swift:238-247 | the enum set succeeds exactly when the enum array does, and holds its cases |
| MarshaledObject.OptionalRawEnumSetValue | CoordinatorExample/Pods/Marshal/Sources/MarshaledObject.swift:249-259 | the enum set decode with missing or null turned into nil |
| Unmarshaling.DecodeObject | Example-CocoaPods/Pods/Marshal/Sources/Unmarshaling.swift:25-33 | a non-object is a mismatch against `MarshaledObject`; an object is handed to the type's initialiser |
| Unmarshaling.ObjectDecoder | Example-CocoaPods/Pods/Marshal/Sources/Unmarshaling.swift:17-33 | an `Unmarshaling` type is a value type whose element rule is its object decode |
| Unmarshaling.ObjectArrayUsesValueTypeRules | Example-CocoaPods/Pods/Marshal/Sources/Unmarshaling.swift:25-33 | an array of such objects decodes exactly when every element is an object the initialiser accepts, each to the initialiser's result |
| Unmarshaling.ValueInContext | Example/Pods/Marshal/Sources/UnmarshalingWithContext.swift:29-38 | key-path errors pass through; a non-object is a mismatch; an object is initialised with the context |
| Unmarshaling.OptionalValueInContext | Example/Pods/Marshal/Sources/UnmarshalingWithContext.swift:40-51 | nil exactly when the required form fails with a missing or null key; otherwise its value or error |
| Unmarshaling.EachInContext | Example/Pods/Marshal/Sources/UnmarshalingWithContext.swift:53-67 | every element is an object initialised with the same context, or the first failing element gives the error |
| Unmarshaling.ArrayInContext | Example/Pods/Marshal/Sources/UnmarshalingWithContext.swift:53-67 | key-path errors pass through; a non-array is a mismatch against `Array<MarshaledObject>`; an array is decoded element by element |
| Unmarshaling.OptionalArrayInContext | Example/Pods/Marshal/Sources/UnmarshalingWithContext.swift:69-79 | nil exactly when the array form fails with a missing or null key |
| Unmarshaling.ContextFreeEachAgrees | Example/Pods/Marshal/Sources/UnmarshalingWithContext.swift:53-67 | with an initialiser that ignores the context, the context array decode equals the plain fail-fast decode |
| MarshalExamples.CarInit | Carthage/Checkouts/Marshal/MarshalTests/MarshalTests.swift:568-576 | a car decodes exactly when both `make` and `model` are strings; a bad `make` is reported first |
| MarshalExamples.EntryDecodes | Carthage/Checkouts/Marshal/MarshalTests/MarshalTests.swift:568-576 | a complete entry decodes to its car; an entry without a model fails with key-not-found `model` |
| MarshalExamples.FixtureOptionals | CoordinatorExample/Pods/Marshal/Sources/ValueType.swift:77-88 | per-element decoding of any fixture gives exactly the expected optionals |
| MarshalExamples.ExpectedSomes | CoordinatorExample/Pods/Marshal/Sources/ValueType.swift:57-64 | the present expected values are the complete cars, in order |
| MarshalExamples.FixtureFailFast | Carthage/Checkouts/Marshal/MarshalTests/MarshalTests.swift:469-471 | fail-fast decoding fails exactly when some entry is incomplete, and then with key-not-found `model` |
| MarshalExamples.FixtureDiscarding | Carthage/Checkouts/Marshal/MarshalTests/MarshalTests.swift:500-502 | discarding mode keeps exactly the complete cars, in order |
| MarshalExamples.CarEntriesComplete | Carthage/Checkouts/Marshal/MarshalTests/MarshalTests.swift:500-502 | the eight entries hold five complete cars |
| MarshalExamples.CarsDiscarding | Carthage/Checkouts/Marshal/MarshalTests/MarshalTests.swift:500-502 | discarding mode over the eight cars gives the five good ones and no Lexus |
| MarshalExamples.CarsFailFast | Carthage/Checkouts/Marshal/MarshalTests/MarshalTests.swift:469-471 | the fail-fast `[Car]` decode of the eight cars fails with key-not-found `model` |
| MarshalExamples.FixtureBrokenFails | Carthage/Checkouts/Marshal/MarshalTests/MarshalTests.swift:469-471 | any document whose cars include an incomplete one fails in fail-fast mode with key-not-found `model` |
| MarshalExamples.FailureIsBrokenEntry | CoordinatorExample/Pods/Marshal/Sources/ValueType.swift:66-75 | a fail-fast failure over a fixture points at an incomplete entry and carries key-not-found `model` |
| MarshalExamples.BrokenEntryFails | CoordinatorExample/Pods/Marshal/Sources/ValueType.swift:66-75 | one incomplete entry is enough to make the fail-fast decode fail |
| MarshalExamples.ExpectedNones | Carthage/Checkouts/Marshal/MarshalTests/MarshalTests.swift:479-490 | the expected optionals are nil exactly at the incomplete entries |
| MarshalExamples.FixtureOptionalElements | Carthage/Checkouts/Marshal/MarshalTests/MarshalTests.swift:479-490 | the `[Car?]` decode keeps every position, nil exactly at the incomplete entries |
| MarshalExamples.CarsOptionalElements | Carthage/Checkouts/Marshal/MarshalTests/MarshalTests.swift:479-490 | the `[Car?]` decode of the eight cars has eight entries with nil at position 1 (the Lexus) and at the other broken cars |
| MarshalExamples.FixtureOptionalOptionalIsNil | CoordinatorExample/Pods/Marshal/Sources/MarshaledObject.swift:99-109 | for any document with an incomplete car, the `[Car?]?` overload yields nil while the `[Car?]` overload succeeds: it delegates to the fail-fast decode, whose missing key it swallows |
| MarshalExamples.OptionalOptionalCarsIsNil | CoordinatorExample/Pods/Marshal/Sources/MarshaledObject.swift:99-109 | the `[Car?]?` overload yields nil for the eight cars |
| MarshalExamples.StatusFromRaw | CoordinatorExample/Pods/Marshal/Sources/MarshaledObject.swift:196-202 | an example enum's raw-value initialiser: each raw string names exactly its case |
| MarshalExamples.RawEnumExample | Carthage/Checkouts/Marshal/MarshalTests/MarshalTests.swift:315-340 | a known raw value decodes to its case; an unknown one is a keyed mismatch naming the enum and the value |
| Coordinators.NewCoord | Coordinator/Coordinator.swift:80 | a new coordinator on a given root view controller is not started, does not own that root, has no parent and no children, and has nothing queued |
| Coordinators.Start | Coordinator/Coordinator.swift:94-98 | in the coordinator's own record, start takes the root and marks the coordinator started, touching nothing else |
| Coordinators.Stop | Coordinator/Coordinator.swift:108-111 | in the coordinator's own record, stop gives up the root and leaves `isStarted` and everything else unchanged |
| Coordinators.Activate | Coordinator/Coordinator.swift:132-134 | in the coordinator's own record, activate takes the root back, touching nothing else |
| Coordinators.SetSlot | Coordinator/UIKit-CoordinatingExtensions.swift:21 | the root view controller has one `parentCoordinator` slot: after writing it, a coordinator on that root owns it exactly when it is the one written, and coordinators on other roots are untouched |
| Coordinators.SetSlotOneOwner | Coordinator/UIKit-CoordinatingExtensions.swift:21 | writing the slot never leaves two owners of one root |
| Coordinators.StartIn | Coordinator/Coordinator.swift:94-98 | starting a coordinator in a system gives it its root and takes that root from every other coordinator sharing it; coordinators on other roots are unchanged |
| Coordinators.StopIn | Coordinator/Coordinator.swift:108-111 | stopping a coordinator clears its root's slot, so no coordinator on that root owns it; coordinators on other roots are unchanged |
| Coordinators.ActivateIn | Coordinator/Coordinator.swift:122-134 | activating a coordinator takes its root back from whichever coordinator on that root took it over |
| Coordinators.LifecycleKeepsOneOwner | Coordinator/Coordinator.swift:94-134 | start, stop and activate keep every root with at most one owner |
| Coordinators.StopInThenActivateIn | Coordinator/Coordinator.swift:108-134 | when a coordinator owns its root, stopping and re-activating it restores the whole system |
| Coordinators.StopThenActivate | Coordinator/Coordinator.swift:108-134 | stopping and then re-activating a coordinator that owned the root restores it exactly |
| Coordinators.StartedOnlyByStart | Coordinator/Coordinator.swift:80-111 | only `start` sets `isStarted`; stop and activate do not |
| Coordinators.StartChild | Coordinator/Coordinator.swift:153-157 | the child is registered under its identifier, gets this parent and is started, taking its root from every coordinator sharing it (the parent included); nothing else changes for any other coordinator |
| Coordinators.Adopt | Coordinator/Coordinator.swift:154-155 | the parent records the child under its identifier and the child records the parent; roots, ownership and started flags are untouched |
| Coordinators.StopChild | Coordinator/Coordinator.swift:166-174 | the child loses its parent, and its root's slot is cleared for every coordinator on that root; its identifier alone leaves the parent's map; nothing else changes for any other coordinator |
| Coordinators.Orphan | Coordinator/Coordinator.swift:167 | the child's parent becomes nil and nothing else changes |
| Coordinators.Forget | Coordinator/Coordinator.swift:171 | the parent's map loses that one identifier and nothing else changes |
| Coordinators.ChildrenKeepOneOwner | Coordinator/Coordinator.swift:153-174 | starting and stopping children keep every root with at most one owner |
| Coordinators.CoordinatorDidFinish | Coordinator/Coordinator.swift:118-120 | by default a finishing child is stopped exactly as by `stopChild` |
| Coordinators.StartStopChild | Coordinator/Coordinator.swift:153-174 | starting a child under a free identifier and then stopping it restores the parent's children and detaches the child; the parent keeps its root exactly when the child's root is another one, and re-activating the parent restores it completely |
| Coordinators.AddThenRemove | Coordinator/Coordinator.swift:154-171 | registering a fresh identifier and removing it again leaves the children map as it was |
| Coordinators.ChildOnSharedRoot | Coordinator/Coordinator.swift:122-128 | a child started on its parent's root takes that root from the parent, and stopping the child leaves the root with no owner |
| Coordinators.SameIdentifierReplaces | Coordinator/Coordinator.swift:145-157 | a second child with the same identifier replaces the first in the map, while the first still records the parent |
| Coordinators.Enqueue | Coordinator/Coordinator.swift:183-185 | a message is added at the back of the queue, and nothing else changes |
| Coordinators.RequeuedAppend | Coordinator/Coordinator.swift:189-196 | the messages left by running two batches are those of the first followed by those of the second |
| Coordinators.ProcessQueuedMessages | Coordinator/Coordinator.swift:189-196 | every queued message runs once, first in first out; the messages enqueued while running stay queued for the next pass; nothing else changes |
| Coordinators.QuietPassEmpties | Coordinator/Coordinator.swift:189-196 | when no message enqueues anything, one pass empties the queue |
| Coordinators.EnqueuedRunsLast | Coordinator/Coordinator.swift:183-196 | a message enqueued before a pass runs after all earlier ones |
| Navigation.IndexOf | Coordinator/NavigationCoordinator.swift:60-69 | the first position of an element |
| Navigation.IndexOfDistinct | Coordinator/NavigationCoordinator.swift:60-69 | in a list without duplicates, the first position of an element is its position |
| Navigation.Show | Coordinator/NavigationCoordinator.swift:35-38 | show pushes one controller onto both the list and the stack |
| Navigation.Root | Coordinator/NavigationCoordinator.swift:42-45 | root replaces both the list and the stack by the single controller |
| Navigation.Top | Coordinator/NavigationCoordinator.swift:49-57 | with an empty list, top acts as root; otherwise it replaces the last controller of both the list and the stack |
| Navigation.StackPopTo | Coordinator/NavigationCoordinator.swift:60-69 | popping the stack to a controller keeps the prefix that ends at its first occurrence; an absent controller leaves the stack unchanged |
| Navigation.PopTo | Coordinator/NavigationCoordinator.swift:60-69 | a controller not in the list changes nothing; otherwise the list is cut just after it, and the stack is popped to it |
| Navigation.DropAfter | Coordinator/NavigationCoordinator.swift:63-66 | dropping `count - 1 - index` elements from the end, when the list has more than one, leaves exactly the prefix through the first occurrence |
| Navigation.NavStart | Coordinator/NavigationCoordinator.swift:78-83 | starting becomes the navigation delegate and starts the coordinator, keeping the list and the stack |
| Navigation.RemoveFirst | Coordinator/NavigationCoordinator.swift:85-98 | removes the first occurrence of a controller, if any |
| Navigation.Without | Coordinator/NavigationCoordinator.swift:85-98 | the reference for removal: keeps exactly the elements not dropped, in order |
| Navigation.Elems | Coordinator/NavigationCoordinator.swift:85-98 | the set of a list's elements |
| Navigation.NavStop | Coordinator/NavigationCoordinator.swift:85-98 | stopping gives up the delegate role, empties the list, stops the coordinator, never grows the stack, removes nothing the coordinator does not own and adds nothing |
| Navigation.RemoveEach | Coordinator/NavigationCoordinator.swift:89-93 | the stop loop never lengthens the stack, keeps only controllers the stack held, and keeps every controller not in the coordinator's list |
| Navigation.WithoutAppend | Coordinator/NavigationCoordinator.swift:85-98 | removal distributes over concatenation |
| Navigation.WithoutNothing | Coordinator/NavigationCoordinator.swift:85-98 | removing controllers not present leaves the list unchanged |
| Navigation.WithoutTwice | Coordinator/NavigationCoordinator.swift:85-98 | removing one set and then another equals removing their union |
| Navigation.RemoveFirstIsWithout | Coordinator/NavigationCoordinator.swift:85-98 | without duplicates, removing the first occurrence removes every occurrence |
| Navigation.DistinctWithout | Coordinator/NavigationCoordinator.swift:85-98 | removal keeps a list free of duplicates |
| Navigation.RemoveEachIsWithout | Coordinator/NavigationCoordinator.swift:85-98 | the stop loop's one-by-one removal equals removing the set of the coordinator's controllers |
| Navigation.NavStopLeavesBelow | Coordinator/NavigationCoordinator.swift:85-98 | when the list is the top of a duplicate-free stack, stopping leaves exactly the controllers below it |
| Navigation.OwnAllDropped | Coordinator/NavigationCoordinator.swift:85-98 | a stack made only of the coordinator's controllers is emptied by stop |
| Navigation.NavActivate | Coordinator/NavigationCoordinator.swift:100-107 | activate becomes the delegate again and makes the stack exactly the list |
| Navigation.DidShowController | Coordinator/NavigationCoordinator.swift:111-132 | as written: an unknown or nil `from` is ignored; a pop from the list's last controller removes that one controller; finishing is reported exactly when that pop empties the list and the coordinator has a parent to tell |
| Navigation.KeepThrough | Coordinator/NavigationCoordinator.swift:111-132 | the list cut just after the shown controller, or empty when it is not in the list |
| Navigation.DidShowControllerFixed | Coordinator/NavigationCoordinator.swift:111-132 | corrected: on a pop the list is cut back to the shown controller, and a parent, when there is one, is told exactly when the shown controller is not in the list |
| Navigation.FixedKeepsMirror | ExampleTests/NavigationCoordinatorTests.swift:77-98 | after any back pop, multi-level included, the corrected list is again the top of the stack |
| Navigation.FixedMirrorSeq | Coordinator/NavigationCoordinator.swift:111-132 | the list cut through the shown controller is the top of the stack popped to it |
| Navigation.BelowKeepsNothing | Coordinator/NavigationCoordinator.swift:111-132 | a pop to a controller below the coordinator's own leaves its list empty |
| Navigation.TopKeepsPrefix | Coordinator/NavigationCoordinator.swift:111-132 | a pop to one of the coordinator's controllers cuts list and stack at the same place |
| Navigation.PopToRootAsWritten | ExampleTests/NavigationCoordinatorTests.swift:88-98 | pop to root from three controllers leaves the list at two while the stack holds one |
| Navigation.PopToRootFixed | ExampleTests/NavigationCoordinatorTests.swift:88-98 | with the correction the same pop leaves list and stack both holding only the root |
| Navigation.SinglePopAgrees | ExampleTests/NavigationCoordinatorTests.swift:77-86 | for a single back pop the code as written and the corrected code agree |
| Navigation.PopToThenShowIsQuiet | Coordinator/NavigationCoordinator.swift:60-69 | after the coordinator's own `pop(to:)`, the delegate callback changes nothing further |
| Navigation.ShowKeepsMirror | ExampleTests/NavigationCoordinatorTests.swift:61-75 | showing keeps the list equal to the top of the stack |
| Navigation.TopKeepsMirror | Coordinator/NavigationCoordinator.swift:49-57 | replacing the top keeps the list equal to the top of the stack |
| Navigation.PopToKeepsMirror | Coordinator/NavigationCoordinator.swift:60-69 | `pop(to:)` keeps the list equal to the top of a duplicate-free stack |
| Navigation.PopToMirrorSeq | Coordinator/NavigationCoordinator.swift:60-69 | the list cut just after a controller is the top of the stack popped to that controller |
| Colors.FromCode | CoordinatorExample/CoordinatorExample/DataModel/Color.swift:17-64 | exactly the ten catalogue codes give a color, carrying that code and its name; any other code is `unknownColorCode` |
| Colors.Same | CoordinatorExample/CoordinatorExample/DataModel/Color.swift:67-71 | two colors are equal exactly when they differ at most in name |
| Colors.SameIsEquivalence | CoordinatorExample/CoordinatorExample/DataModel/Color.swift:67-71 | color equality is reflexive, symmetric and transitive, and ignores the name |
| Colors.FromCodeRoundTrip | CoordinatorExample/CoordinatorExample/DataModel/Color.swift:17-71 | a catalogue color's code gives back an equal color, identical when the name is the catalogue's |
| Colors.NamesAreDistinct | CoordinatorExample/CoordinatorExample/DataModel/Color.swift:35-64 | different catalogue codes have different names |
| Colors.Boxed | CoordinatorExample/CoordinatorExample/DataModel/Color.swift:78-87 | unboxing a boxed color gives it back |
| Cart.EmptyCart | CoordinatorExample/CoordinatorExample/Cart/CartManager.swift:21 | the cart starts empty |
| Cart.Add | CoordinatorExample/CoordinatorExample/Cart/CartManager.swift:23-26 | adding appends one item of size M and keeps the earlier items |
| Cart.FirstMatch | CoordinatorExample/CoordinatorExample/Cart/CartManager.swift:29 | the first item with the product and an equal color, or the end |
| Cart.Remove | CoordinatorExample/CoordinatorExample/Cart/CartManager.swift:28-31 | with no matching item the cart is unchanged; otherwise exactly the first match is removed |
| Cart.Clear | CoordinatorExample/CoordinatorExample/Cart/CartManager.swift:33-35 | clearing empties the cart |
| Cart.RemoveUndoesAdd | CoordinatorExample/CoordinatorExample/Cart/CartManager.swift:23-31 | removing what was just added to a cart without such an item restores the cart |
| Cart.RemoveCountsOne | CoordinatorExample/CoordinatorExample/Cart/CartManager.swift:28-31 | a remove that matches leaves exactly one matching item fewer |
| Cart.RemoveKeepsOthers | CoordinatorExample/CoordinatorExample/Cart/CartManager.swift:28-31 | a remove that matches leaves every non-matching item as often as before |
| Cart.CountAppend | CoordinatorExample/CoordinatorExample/Cart/CartManager.swift:23-31 | the count of matching items adds up over concatenation |
| Cart.RemoveIgnoresColorName | CoordinatorExample/CoordinatorExample/Cart/CartManager.swift:28-31 | removal matches colors by code, whatever their name |
| Cart.FirstMatchIgnoresName | CoordinatorExample/CoordinatorExample/Cart/CartManager.swift:29 | the first match does not depend on the color's name |
| Themes.Prefix | Example/App/DataModel/Theme.swift:27 | `prefix(n)` is the leading part of the string, of length n or the whole string if shorter |
| Themes.ThemeInit | Example/App/DataModel/Theme.swift:24-31 | a theme-name error propagates; any failure to read the style is key-not-found `id|styleCode`; otherwise the id is the first three characters of the style and there are no products |
| Themes.ThemeFromDocument | Example/App/DataModel/Theme.swift:24-34 | a document with a name and a string style decodes; a non-string or missing style gives key-not-found `id|styleCode` |
| Themes.SeasonCode | Example/App/DataModel/Theme.swift:37-40 | the season code is the first two characters of the id |
| Themes.SeasonCodeFromStyle | Example/App/DataModel/Theme.swift:27-40 | the season code of a decoded theme is the first two characters of its style |
| Themes.StrLeq | Example/App/DataModel/Theme.swift:42-44 | the string order used for sorting puts a prefix first, and otherwise never puts a string before one with a smaller first character |
| Themes.StrLeqTotal | Example/App/DataModel/Theme.swift:42-44 | the string order used for sorting is total |
| Themes.StrLeqTrans | Example/App/DataModel/Theme.swift:42-44 | the string order used for sorting is transitive |
| Themes.MinExists | Example/App/DataModel/Theme.swift:42-44 | every non-empty product set has a product with the least style code |
| Themes.OrderedProducts | Example/App/DataModel/Theme.swift:42-44 | the ordered products list every product once and are sorted by style code |
| StringSearch.FindFrom | Example/Vendor/Essentials/Foundation/String-Extensions.swift:27 | a found position lies at or after the start with the whole needle inside the string; an empty needle is never found |
| StringSearch.FindFromFirst | Example/Vendor/Essentials/Foundation/String-Extensions.swift:27 | the search finds an occurrence with none between the start and it, and finds nothing only when nothing occurs from the start on |
| StringSearch.IndexOf | Example/Vendor/Essentials/Foundation/String-Extensions.swift:16-18 | the start of the first occurrence; nil exactly when the needle is empty or does not occur |
| StringSearch.EndIndexOf | Example/Vendor/Essentials/Foundation/String-Extensions.swift:20-22 | the end of that same first occurrence |
| StringSearch.MatchesAreOccurrences | Example/Vendor/Essentials/Foundation/String-Extensions.swift:24-32 | every listed index starts an occurrence, and each begins at or after the end of the previous one |
| StringSearch.MatchesCoverOccurrences | Example/Vendor/Essentials/Foundation/String-Extensions.swift:24-32 | no occurrence is skipped: each is listed or starts inside a listed one |
| StringSearch.Indexes | Example/Vendor/Essentials/Foundation/String-Extensions.swift:24-32 | the loop returns exactly the left-to-right, non-overlapping matches |
| StringSearch.FirstIndexIsIndexOf | Example/Vendor/Essentials/Foundation/String-Extensions.swift:16-32 | the first of the indexes is `index(of:)`, and there are none exactly when `index(of:)` is nil |
| StringSearch.Ranges | Example/Vendor/Essentials/Foundation/String-Extensions.swift:34-42 | one range per match, from its start to its start plus the needle length |
| StringSearch.RangesSpanOccurrences | Example/Vendor/Essentials/Foundation/String-Extensions.swift:34-42 | each range spans an occurrence of the needle |
| StringSearch.NonOverlappingExample | Example/Vendor/Essentials/Foundation/String-Extensions.swift:24-32 | in "ababab", "abab" is found only at 0, since the search resumes after a match |
| HttpMethods.RawValue | Example/Vendor/Avenue/NetworkHTTPMethod.swift:14-17 | each method's raw value is its name |
| HttpMethods.FromRawValue | Example/Vendor/Avenue/NetworkHTTPMethod.swift:14-17 | a raw string gives a method only when that method's name is the string |
| HttpMethods.Position | Example/Vendor/Avenue/NetworkHTTPMethod.swift:14-17 | every method has its place in the list of all methods |
| HttpMethods.RawValueRoundTrip | Example/Vendor/Avenue/NetworkHTTPMethod.swift:14-17 | raw values round-trip, and a string is accepted exactly when it is some method's name |
| HttpMethods.EightMethods | Example/Vendor/Avenue/NetworkHTTPMethod.swift:14-17 | there are exactly eight distinct methods |
| HttpMethods.AllowsEmptyResponseData | Example/Vendor/Avenue/NetworkHTTPMethod.swift:19-26 | empty response data is refused exactly for GET and POST |
| HttpMethods.EmptyResponseRule | Example/Vendor/Avenue/NetworkHTTPMethod.swift:19-26 | empty response data is refused exactly for GET and POST, and allowed for the other six methods |

## Left out

- Floating point: `Float`, `Double`, `Date` and `Decimal` decoding. JSON numbers are integers here.
- The bridging of `Bool` and `NSNumber`. In the model a JSON boolean is never a number and a number is never a boolean.
- `JSONParser`, the `Operators` and `Migration` files, and everything in UIKit. Decoding starts from an already parsed value.
- Networking and concurrency. The queue of deferred messages is single-threaded, and each queued closure's effect is the parameter `run`.
- Unmarshaling.DecodeObject, Unmarshaling.ValueInContext, Unmarshaling.EachInContext, MarshaledObject.Value: the second cast is not modelled, so neither is its failure. Those casts are `as? ConvertibleType` in Unmarshaling.swift:29-31, `as? A` in UnmarshalingWithContext.swift:34-36 and :62-64, and `as? A` in MarshaledObject.swift:45-47. Each always succeeds when `ConvertibleType` or `Value` is `Self`, which is the default and the only use here.
- Unmarshaling.ValueInContext: the context is passed to every initialiser unchanged. Mutation of a reference-typed context is not modelled.
- ValueTypes.DecodeDictionary: the iteration order of a Swift dictionary is the parameter `order`. When several values fail, the error is the first failure in that order.
- ValueTypes.DecodeURL: URL parsing is the parameter `parse`.
- ValueTypes.DecodeCharacter: a string is a sequence of Dafny characters. Grapheme clusters are not modelled, so "one character" means one element.
- Themes.Prefix: `prefix(3)` counts Swift `Character`s, that is grapheme clusters. The model counts Dafny characters, which agrees only when every grapheme is one character.
- KeyPath.Split: `split(separator:)` works on Swift `Character`s. The model splits a sequence of Dafny characters. The two agree on the ASCII key paths used in practice, but not where a '.' is joined with a combining mark into one grapheme.
- Json.Int64Value: Foundation keeps a parsed JSON integer as an integer only within [INT64_MIN, UINT64_MAX]. Beyond that it holds a double or a decimal, and `int64Value` is not the modulo-2^64 reading. The model still applies the wrap there. That value stands in for Foundation's and is not its reading.
- Json.UInt64Value: as for `Int64Value`, the modulo-2^64 reading is Foundation's only within [INT64_MIN, UINT64_MAX]. Outside that range the model's wrap stands in for an unmodelled floating-point conversion.
- ValueTypes.DecodeInt64: every number is accepted, as in the source. The value claimed for a number outside [INT64_MIN, UINT64_MAX] is the model's wrap, not Foundation's reading (see Json.Int64Value).
- ValueTypes.DecodeUInt64: every number is accepted, as in the source. The value claimed for a number outside [INT64_MIN, UINT64_MAX] is the model's wrap, not Foundation's reading (see Json.UInt64Value).
- Navigation.StackPopTo: UIKit's `popToViewController` with a controller absent from the stack is taken to leave the stack unchanged.
- Navigation.NavStop: the stop completion is called synchronously, as the base class does. Subclasses that defer it are not modelled.
- Navigation.NavStart, Navigation.NavStop, Navigation.NavActivate: a `NavigationCoordinator` is modelled with its own record only. What its start, stop and activate do to other coordinators on the same root is stated by `Coordinators.StartIn`, `StopIn` and `ActivateIn`.
- Coordinators.StopChild: the child's identifier leaves the map at once. The source removes it inside the child's stop completion, which is the same for the base class and `NavigationCoordinator`, both of which call it synchronously. A subclass that defers the completion, or never calls it, is not modelled.
- Navigation.DidShowController: `handlePopBack` is a hook with an empty default and is reported as `backTo`. The optional call on the parent is reported as the `finished` flag, which is false when there is no parent, since `parent?` then calls nothing.
- `present` and `dismiss` on view controllers are not modelled.
- Themes.SeasonCode: `String.Index(utf16Offset: 2, in:)` is read as two characters, which agrees for text in the basic multilingual plane.
- Themes.OrderedProducts: the model states a sorted permutation. The relative order of products with equal style codes is left unspecified, as Swift's sort is not stable.
- Themes.StrLeq: Swift's string `<` is modelled as lexicographic order on characters. Unicode canonical ordering is not modelled.
- StringSearch.Indexes: positions are character offsets, not `String.Index` values. Only the `.literal` option is modelled.
- StringSearch.Ranges: it reuses the `Indexes` loop rather than repeating the `range(of:)` loop, since the two loops are the same.
- MarshalErrors: the key of an error is a string, the `stringValue` of the Swift `KeyType`. Expected and actual types are stand-in names: the fixed strings of `Json.TypeName` ("NSNumber", "String", "Array<Any>", ...). At run time `type(of:)` prints the bridged classes' own names (such as `__NSCFNumber`), which the model does not reproduce.
- MarshaledObject.OptionalOptionalElementsValue: the `[A?]?` overload delegates to the fail-fast `[A]` decode. The model follows that code. The library test at Carthage/Checkouts/Marshal/MarshalTests/MarshalTests.swift:473-477 expects eight entries. That test belongs to another copy of the library, whose `MarshaledObject.swift` is not part of this model.
- MarshalExamples.CarEntries: the missing-data fixture file is not part of this model. The test fixes eight cars, five of them good, with the Lexus at position 1 broken. The other makes and the broken positions 4 and 6 are illustrative.
- Coordinators.ProcessQueuedMessages: a message is an opaque id. What it does besides enqueueing more messages is not modelled.

## Findings

| source | as written | input that shows it | evidently intended | confidence | as-written member | corrected member |
|---|---|---|---|---|---|---|
| Coordinator/NavigationCoordinator.swift:111-132 | On a back pop, only the last view controller is dropped from the coordinator's list, whatever controller ends up shown. | The list and stack are both `[a, b, c]`. The user pops to root, so the stack becomes `[a]` and the callback reports `a` shown from `c`. The list is left as `[a, b]`. | The list should be cut back to the shown controller, so that it stays the top of the stack. The pop-to-root test at ExampleTests/NavigationCoordinatorTests.swift:88-98 expects this. | medium; not executed | Navigation.PopToRootAsWritten | Navigation.DidShowControllerFixed |
