# System.Text.Json.Extensions, modelled in Dafny

This project models the core of `RamjotSingh.System.Text.Json.Extensions`. The library extends System.Text.Json with:

- **`NewtonsoftJsonCompatibleEncoder`**: a `JavaScriptEncoder` that escapes like `UnsafeRelaxedJsonEscaping`
  but leaves emoji alone, matching what Newtonsoft.Json writes. Its scan `FindFirstCharacterToEncode` walks
  a UTF-16 buffer one Unicode scalar at a time, using `Rune.DecodeFromUtf16`.
- **`JsonCollectionItemConverter<TDatatype, TConverterType>`**: reads and writes a collection property
  element by element. Each element goes through a copy of the caller's options whose converter list is
  replaced by one `TConverterType` instance.
- **`CollectionItemConverter<TConverterType>`**: the factory that accepts `IEnumerable` property types and
  builds the converter above for the property's single generic argument.
- **`AllowDerivedClassesSerializationConverter`**: writes a value by its runtime type, and the items of an
  `IEnumerable<object>` one by one, so that derived-class properties are kept. Reading is not supported.

Modules:

- `Wrappers`: `Option`, `Result`, `Outcome`.
- `Host`: what the converters see of System.Text.Json and of .NET reflection. This covers tokens,
  exceptions, type descriptors, `Activator.CreateInstance`, and the classes `JsonSerializerOptions`,
  `JsonReader` and `JsonWriter`, whose methods update their fields in place.
- `Utf16`: the decoding step `Rune.DecodeFromUtf16` following section 2.2 of RFC 2781, plus the whole-buffer
  decoding built from it.
- One module per core file, named after the C# class.

The scan, `Read` and `Write` are methods with loops. Each is proved against a specification function:
`FirstCharacterToEncode`, `ReadValue`, `WriteValue` and `Written`. The properties the library promises are
then proved about those functions as lemmas. These include:

- the exact characterisation of the scan result;
- emoji never being reported;
- the read-after-write round trip;
- `null` versus the empty list;
- the outcome of resolving the factory on a property;
- the derived-class examples from the repository's tests.

Two behaviours of the code worth knowing:

- `CollectionItemConverter.CanConvert` checks only for the `System.Collections.IEnumerable` interface. It
  does not check the number of generic arguments; a wrong count surfaces later, in `CreateConverter`.
- `AllowDerivedClassesSerializationConverter.Read` throws `NotImplementedException`.

## Model

| member | source | states |
|---|---|---|
| Utf16.CombineSurrogates | RamjotSingh.System.Text.Json.Extensions/Encoders/NewtonsoftJsonCompatibleEncoder.cs:48 | a high and a low surrogate stand for a supplementary scalar value (at least U+10000, not a surrogate) |
| Utf16.EncodeToUtf16 | RamjotSingh.System.Text.Json.Extensions/Encoders/NewtonsoftJsonCompatibleEncoder.cs:48 | a scalar takes one code unit below U+10000 and two otherwise |
| Utf16.DecodeFromUtf16 | RamjotSingh.System.Text.Json.Extensions/Encoders/NewtonsoftJsonCompatibleEncoder.cs:48 | one decoding step: `Done` consumes one or two units and yields a scalar value; `NeedMoreData` exactly for an empty buffer or a lone trailing high surrogate; `InvalidData` exactly for a leading low surrogate or a high surrogate not followed by a low one; a failed step reports U+FFFD |
| Utf16.DecodeOfEncode | RamjotSingh.System.Text.Json.Extensions/Encoders/NewtonsoftJsonCompatibleEncoder.cs:48 | decoding the encoding of any scalar, whatever follows, succeeds with that scalar and consumes exactly its units |
| Utf16.EncodeOfDecode | RamjotSingh.System.Text.Json.Extensions/Encoders/NewtonsoftJsonCompatibleEncoder.cs:48 | a successful step consumed exactly the encoding of the scalar it returned |
| Utf16.DecodeScalars | RamjotSingh.System.Text.Json.Extensions/Encoders/NewtonsoftJsonCompatibleEncoder.cs:45-57 | decoding from an index stops at or after it and within the buffer, and yields no scalar exactly when it stops at once |
| Utf16.DecodedSteps | RamjotSingh.System.Text.Json.Extensions/Encoders/NewtonsoftJsonCompatibleEncoder.cs:48-56 | each decoded scalar is a successful step taken where the previous one ended (the `idx += charsConsumed` walk) |
| Utf16.DecodingStops | RamjotSingh.System.Text.Json.Extensions/Encoders/NewtonsoftJsonCompatibleEncoder.cs:48 | the walk ends only at the end of the buffer or where a step is not `Done` |
| Utf16.ScalarUnits | RamjotSingh.System.Text.Json.Extensions/Encoders/NewtonsoftJsonCompatibleEncoder.cs:48 | a decoded scalar takes one or two units, two exactly when it starts with a high surrogate, and those units are its encoding |
| Utf16.FailsExactlyWhenMalformed | RamjotSingh.System.Text.Json.Extensions/Encoders/NewtonsoftJsonCompatibleEncoder.cs:48 | a step at a unit fails if and only if the unit is a lone low surrogate or a high surrogate without a low one after it |
| Utf16.StopIsMalformed | RamjotSingh.System.Text.Json.Extensions/Encoders/NewtonsoftJsonCompatibleEncoder.cs:48 | a walk that stops before the end stops at a malformed unit |
| Utf16.EndsBeforeStop | RamjotSingh.System.Text.Json.Extensions/Encoders/NewtonsoftJsonCompatibleEncoder.cs:56 | every decoded scalar takes at least one unit and ends no later than where the walk stops |
| Utf16.StartsIncrease | RamjotSingh.System.Text.Json.Extensions/Encoders/NewtonsoftJsonCompatibleEncoder.cs:56 | an earlier scalar ends no later than a later one starts |
| Utf16.ScalarWithin | RamjotSingh.System.Text.Json.Extensions/Encoders/NewtonsoftJsonCompatibleEncoder.cs:56 | every decoded scalar lies between the starting index and the stop |
| Utf16.LastUnitNotHigh | RamjotSingh.System.Text.Json.Extensions/Encoders/NewtonsoftJsonCompatibleEncoder.cs:56 | the last unit of a decoded scalar is never a high surrogate |
| Utf16.ScalarStartsOnBoundary | RamjotSingh.System.Text.Json.Extensions/Encoders/NewtonsoftJsonCompatibleEncoder.cs:56 | a scalar decoded from the start of the buffer never starts just after a high surrogate, so never inside a pair |
| Utf16.StopOnBoundary | RamjotSingh.System.Text.Json.Extensions/Encoders/NewtonsoftJsonCompatibleEncoder.cs:56 | the walk from the start never stops just after a high surrogate |
| NewtonsoftJsonCompatibleEncoder.MaxOutputCharactersPerInputCharacter | RamjotSingh.System.Text.Json.Extensions/Encoders/NewtonsoftJsonCompatibleEncoder.cs:34 | the bound is the default encoder's |
| NewtonsoftJsonCompatibleEncoder.TryEncodeUnicodeScalar | RamjotSingh.System.Text.Json.Extensions/Encoders/NewtonsoftJsonCompatibleEncoder.cs:76-79 | escaping a scalar has the default encoder's outcome (fits or not, characters written) |
| NewtonsoftJsonCompatibleEncoder.WillEncode | RamjotSingh.System.Text.Json.Extensions/Encoders/NewtonsoftJsonCompatibleEncoder.cs:86-96 | an emoji is never escaped; any other scalar is escaped exactly when the default encoder escapes it |
| NewtonsoftJsonCompatibleEncoder.FirstEscaped | RamjotSingh.System.Text.Json.Extensions/Encoders/NewtonsoftJsonCompatibleEncoder.cs:48-54 | the position found holds an escaped scalar and every earlier one is left as is; no position means no scalar is escaped |
| NewtonsoftJsonCompatibleEncoder.ScanAnswer | RamjotSingh.System.Text.Json.Extensions/Encoders/NewtonsoftJsonCompatibleEncoder.cs:59-65 | the answer from an index is -1 or an index of the buffer at or after it |
| NewtonsoftJsonCompatibleEncoder.FirstCharacterToEncode | RamjotSingh.System.Text.Json.Extensions/Encoders/NewtonsoftJsonCompatibleEncoder.cs:42-66 | the answer is -1 or an index of the buffer, and -1 for an empty buffer |
| NewtonsoftJsonCompatibleEncoder.FindFirstCharacterToEncode | RamjotSingh.System.Text.Json.Extensions/Encoders/NewtonsoftJsonCompatibleEncoder.cs:42-66 | the scan loop returns the specified answer; -1 exactly when the whole buffer decodes into scalars none of which is escaped; otherwise everything before the answer decodes clean, and at the answer the step fails or yields a scalar to escape |
| NewtonsoftJsonCompatibleEncoder.ScannedCleanExtends | RamjotSingh.System.Text.Json.Extensions/Encoders/NewtonsoftJsonCompatibleEncoder.cs:48-57 | a clean stretch grows by `charsConsumed` when the next step succeeds with a scalar not to escape (the loop invariant step) |
| NewtonsoftJsonCompatibleEncoder.CleanPrefixKeepsAnswer | RamjotSingh.System.Text.Json.Extensions/Encoders/NewtonsoftJsonCompatibleEncoder.cs:48-57 | resuming the scan after a clean stretch gives the same answer as scanning from its start |
| NewtonsoftJsonCompatibleEncoder.NoneMeansClean | RamjotSingh.System.Text.Json.Extensions/Encoders/NewtonsoftJsonCompatibleEncoder.cs:59-63 | an answer of -1 means decoding reaches the end with nothing to escape |
| NewtonsoftJsonCompatibleEncoder.FirstEscapedAt | RamjotSingh.System.Text.Json.Extensions/Encoders/NewtonsoftJsonCompatibleEncoder.cs:50-54 | an escaped scalar preceded only by unescaped ones is the first escaped one |
| NewtonsoftJsonCompatibleEncoder.NoneEscaped | RamjotSingh.System.Text.Json.Extensions/Encoders/NewtonsoftJsonCompatibleEncoder.cs:50-54 | with no scalar to escape there is no first escaped one |
| NewtonsoftJsonCompatibleEncoder.NoneExactlyWhenClean | RamjotSingh.System.Text.Json.Extensions/Encoders/NewtonsoftJsonCompatibleEncoder.cs:48-63 | -1 if and only if the whole buffer decodes without a failed step and no decoded scalar is escaped |
| NewtonsoftJsonCompatibleEncoder.StopsAtEscapeOrMalformedUnit | RamjotSingh.System.Text.Json.Extensions/Encoders/NewtonsoftJsonCompatibleEncoder.cs:48-65 | a non-negative answer is never inside a surrogate pair, every scalar before it is left as is, and it points at a scalar to escape or at a malformed unit |
| NewtonsoftJsonCompatibleEncoder.EmojiNeverReported | RamjotSingh.System.Text.Json.Extensions/Encoders/NewtonsoftJsonCompatibleEncoder.cs:86-91 | the scan never reports the start of an emoji, whatever the default encoder says about it |
| NewtonsoftJsonCompatibleEncoder.ReportsFirstEscapedScalar | RamjotSingh.System.Text.Json.Extensions/Encoders/NewtonsoftJsonCompatibleEncoder.cs:48-54 | a non-emoji scalar that the default encoder escapes, preceded only by unescaped scalars, is where the scan stops |
| NewtonsoftJsonCompatibleEncoder.DefaultOnly | RamjotSingh.System.Text.Json.Extensions/Encoders/NewtonsoftJsonCompatibleEncoder.cs:92-95 | the same encoder with no exemption escapes exactly what the default encoder escapes |
| NewtonsoftJsonCompatibleEncoder.NoEarlierThanDefault | RamjotSingh.System.Text.Json.Extensions/Encoders/NewtonsoftJsonCompatibleEncoder.cs:86-96 | exempting emoji only moves the answer later: whenever the encoder reports an index, the default encoder alone reports one no later |
| Host.CreateInstance | RamjotSingh.System.Text.Json.Extensions/Converters/JsonCollectionItemConverter.cs:33 | a converter is built exactly when its type has a parameterless constructor; otherwise `MissingMethodException` |
| Host.JsonSerializerOptions.Copy | RamjotSingh.System.Text.Json.Extensions/Converters/JsonCollectionItemConverter.cs:31 | the copy has the original's converters and settings |
| Host.JsonSerializerOptions.ClearConverters | RamjotSingh.System.Text.Json.Extensions/Converters/JsonCollectionItemConverter.cs:32 | the converter list becomes empty and the other settings stay |
| Host.JsonSerializerOptions.AddConverter | RamjotSingh.System.Text.Json.Extensions/Converters/JsonCollectionItemConverter.cs:33 | the converter is appended and the other settings stay |
| Host.JsonReader.Read | RamjotSingh.System.Text.Json.Extensions/Converters/JsonCollectionItemConverter.cs:44 | the cursor moves to the next token when there is one, and stays otherwise |
| Host.JsonReader.TokenType | RamjotSingh.System.Text.Json.Extensions/Converters/JsonCollectionItemConverter.cs:37 | the token under the reader's cursor, which the null check, the loop guard and the `StartArray` test read |
| Host.JsonWriter.WriteNullValue | RamjotSingh.System.Text.Json.Extensions/Converters/JsonCollectionItemConverter.cs:65 | appends the null token |
| Host.JsonWriter.WriteStartArray | RamjotSingh.System.Text.Json.Extensions/Converters/JsonCollectionItemConverter.cs:73 | appends `StartArray` |
| Host.JsonWriter.WriteEndArray | RamjotSingh.System.Text.Json.Extensions/Converters/JsonCollectionItemConverter.cs:82 | appends `EndArray` |
| Host.JsonWriter.WriteTokens | RamjotSingh.System.Text.Json.Extensions/Converters/JsonCollectionItemConverter.cs:79 | appends what one `JsonSerializer.Serialize` call writes |
| JsonCollectionItemConverter.EndArrayIndex | RamjotSingh.System.Text.Json.Extensions/Converters/JsonCollectionItemConverter.cs:37 | the loop's exit point is the first `EndArray` at or after the cursor: it holds `EndArray` and no token before it does |
| JsonCollectionItemConverter.ElementOptions | RamjotSingh.System.Text.Json.Extensions/Converters/JsonCollectionItemConverter.cs:31-33 | the element options hold exactly one converter, the item converter, and keep every other setting of the caller's options |
| JsonCollectionItemConverter.ElementsBetween | RamjotSingh.System.Text.Json.Extensions/Converters/JsonCollectionItemConverter.cs:39-42 | the tokens handed to the element deserializer contain no `StartArray` and are no more than the tokens walked |
| JsonCollectionItemConverter.DecodeAll | RamjotSingh.System.Text.Json.Extensions/Converters/JsonCollectionItemConverter.cs:41 | a successful decoding yields one item per element token |
| JsonCollectionItemConverter.ReadItems | RamjotSingh.System.Text.Json.Extensions/Converters/JsonCollectionItemConverter.cs:37-45 | a successful loop yields one item per element token before the first `EndArray`, so never more items than tokens walked |
| JsonCollectionItemConverter.ReadValue | RamjotSingh.System.Text.Json.Extensions/Converters/JsonCollectionItemConverter.cs:24-48 | `null` exactly for a `Null` token; `MissingMethodException` for any other token when the item converter has no parameterless constructor; a list read holds no more items than tokens walked |
| JsonCollectionItemConverter.ReadLoop | RamjotSingh.System.Text.Json.Extensions/Converters/JsonCollectionItemConverter.cs:37-45 | the loop run token by token from the cursor: `EndArray` or the end of the stream gives the empty list, `StartArray` is skipped, any other token is deserialized ahead of the elements after it, and the first failure ends the loop |
| JsonCollectionItemConverter.SerializeAll | RamjotSingh.System.Text.Json.Extensions/Converters/JsonCollectionItemConverter.cs:75-80 | without a failure one token per item; otherwise the tokens of the items before the first one that fails, whose exception ends the write; written token `k` is item `k` serialized, in iteration order |
| JsonCollectionItemConverter.WriteValue | RamjotSingh.System.Text.Json.Extensions/Converters/JsonCollectionItemConverter.cs:56-83 | `Null` alone for `null`; nothing and `MissingMethodException` when the item converter cannot be built; otherwise `StartArray`, one token per item and `EndArray`, or, when an item fails, `StartArray` and fewer tokens than items |
| JsonCollectionItemConverter.Read | RamjotSingh.System.Text.Json.Extensions/Converters/JsonCollectionItemConverter.cs:24-48 | on `Null`, returns `null` without moving the reader; otherwise clones the options with the item converter as their only converter and returns the specified result: the elements before the first `EndArray`, or the first exception (including `MissingMethodException` from `CreateInstance` and an element that fails before any `EndArray`); on success the reader is left on that `EndArray` |
| JsonCollectionItemConverter.ReadElements | RamjotSingh.System.Text.Json.Extensions/Converters/JsonCollectionItemConverter.cs:37-45 | the loop returns what the token-by-token loop specification gives from the cursor, the reader only moves forward, and on success it stops on the first `EndArray` |
| JsonCollectionItemConverter.Write | RamjotSingh.System.Text.Json.Extensions/Converters/JsonCollectionItemConverter.cs:56-83 | a missing writer is `ArgumentNullException("writer")` with nothing written; otherwise the output grows by exactly the specified tokens and the outcome is the specified exception, if any: `Null`; or `StartArray`, the items in order under the cloned options, `EndArray`; an item whose serialization fails leaves `StartArray` and the earlier items written; a converter that cannot be instantiated leaves the output as it was |
| JsonCollectionItemConverter.WriteElements | RamjotSingh.System.Text.Json.Extensions/Converters/JsonCollectionItemConverter.cs:75-80 | the `foreach` appends exactly the tokens of the items serialized up to the first failure and returns that failure |
| JsonCollectionItemConverter.DecodeAllStep | RamjotSingh.System.Text.Json.Extensions/Converters/JsonCollectionItemConverter.cs:41 | one more element is decoded after the earlier ones and appended, or its failure becomes the result if they all succeeded |
| JsonCollectionItemConverter.ReadLoopStep | RamjotSingh.System.Text.Json.Extensions/Converters/JsonCollectionItemConverter.cs:39-44 | one turn of the loop: `StartArray` is skipped, an element that decodes is appended after the earlier ones, and one that fails is the result of the whole loop |
| JsonCollectionItemConverter.ReadLoopIsReadItems | RamjotSingh.System.Text.Json.Extensions/Converters/JsonCollectionItemConverter.cs:37-45 | running the loop token by token from the cursor (skip `StartArray`, deserialize any other token, stop at `EndArray` or the first failure) gives the same result as deserializing the element tokens before the first `EndArray` |
| JsonCollectionItemConverter.ReadFailsAt | RamjotSingh.System.Text.Json.Extensions/Converters/JsonCollectionItemConverter.cs:37-45 | once an element fails, the tokens after it do not change the outcome (the exception propagates out of the loop) |
| JsonCollectionItemConverter.ElementsBetweenSplit | RamjotSingh.System.Text.Json.Extensions/Converters/JsonCollectionItemConverter.cs:37-45 | the element tokens of a stretch are those of its two halves, in order |
| JsonCollectionItemConverter.ElementsBetweenAll | RamjotSingh.System.Text.Json.Extensions/Converters/JsonCollectionItemConverter.cs:39 | without `StartArray` tokens every token walked is an element token |
| JsonCollectionItemConverter.FirstEndArrayAt | RamjotSingh.System.Text.Json.Extensions/Converters/JsonCollectionItemConverter.cs:37 | the loop stops at the first `EndArray`, whatever follows it |
| JsonCollectionItemConverter.DecodeAllAppend | RamjotSingh.System.Text.Json.Extensions/Converters/JsonCollectionItemConverter.cs:37-45 | decoding two stretches in a row is decoding the first, then the second, the first failure winning |
| JsonCollectionItemConverter.DecodeAllOk | RamjotSingh.System.Text.Json.Extensions/Converters/JsonCollectionItemConverter.cs:41 | the list is read if and only if every element token decodes, and item `i` is the decoding of token `i` |
| JsonCollectionItemConverter.DecodeAllFirstError | RamjotSingh.System.Text.Json.Extensions/Converters/JsonCollectionItemConverter.cs:41 | a failed read reports the error of some element all of whose predecessors decode |
| JsonCollectionItemConverter.SerializeFailsAt | RamjotSingh.System.Text.Json.Extensions/Converters/JsonCollectionItemConverter.cs:75-80 | once an item fails, the items after it change nothing: writing the list writes what its prefix up to the failing item writes |
| JsonCollectionItemConverter.DecodeSerialized | RamjotSingh.System.Text.Json.Extensions/Converters/JsonCollectionItemConverter.cs:41 | given the element round-trip law, writing the items does not fail and the written element tokens decode back to the items |
| JsonCollectionItemConverter.RoundTrip | System.Text.Json.Extensions.Tests/Converters/CollectionItemConverterTests.cs:37-89 | writing does not fail, and what `Write` writes `Read` reads back whatever follows it, `null` and every list, provided the item converter type has a parameterless constructor and each element survives its own round trip under the cloned options and is a single token other than `StartArray`/`EndArray` |
| JsonCollectionItemConverter.WrittenArrayElements | RamjotSingh.System.Text.Json.Extensions/Converters/JsonCollectionItemConverter.cs:73-82 | in a written array the read loop stops at the closing bracket and takes exactly the element tokens |
| JsonCollectionItemConverter.WrittenArrayBody | RamjotSingh.System.Text.Json.Extensions/Converters/JsonCollectionItemConverter.cs:73-82 | the element tokens between the brackets of a written array are exactly the written elements |
| JsonCollectionItemConverter.WrittenArrayUnits | RamjotSingh.System.Text.Json.Extensions/Converters/JsonCollectionItemConverter.cs:73-82 | a written array opens with `StartArray`, holds no bracket among its elements and closes with `EndArray` |
| JsonCollectionItemConverter.NullRoundTrip | RamjotSingh.System.Text.Json.Extensions/Converters/JsonCollectionItemConverter.cs:26-67 | for every item converter type, `null` is written as the null token and read back as `null` |
| JsonCollectionItemConverter.NullAndEmptyDiffer | RamjotSingh.System.Text.Json.Extensions/Converters/JsonCollectionItemConverter.cs:26-35 | when the item converter type has a parameterless constructor, `null` is written as the null token and read back as `null`, and the empty list is written as `[]` and read back as the empty list |
| CollectionItemConverter.CanConvert | RamjotSingh.System.Text.Json.Extensions/Converters/CollectionItemConverter.cs:22-30 | exactly a missing type is `ArgumentNullException("typeToConvert")`; for a type, the result is whether it implements `System.Collections.IEnumerable` |
| CollectionItemConverter.Single | RamjotSingh.System.Text.Json.Extensions/Converters/CollectionItemConverter.cs:45 | succeeds exactly for a one-element sequence with that element; otherwise `InvalidOperationException` |
| CollectionItemConverter.CreateConverter | RamjotSingh.System.Text.Json.Extensions/Converters/CollectionItemConverter.cs:38-50 | a missing type is `ArgumentNullException("typeToConvert")`; otherwise a converter is built exactly when the type has one generic argument, for that element type and `TConverterType`, and `InvalidOperationException` when not |
| CollectionItemConverter.OptionsUnused | RamjotSingh.System.Text.Json.Extensions/Converters/CollectionItemConverter.cs:38-50 | the options play no part in building the converter |
| CollectionItemConverter.ResolvePropertyConverter | RamjotSingh.System.Text.Json.Extensions/Converters/CollectionItemConverter.cs:22-50 | resolving the factory on a property succeeds exactly when its type implements `System.Collections.IEnumerable` and has one generic argument; every failure is `InvalidOperationException` |
| CollectionItemConverter.ResolutionOutcome | System.Text.Json.Extensions.Tests/Converters/CollectionItemConverterTests.cs:94-101 | on a property that is not a collection the factory makes resolution fail with `InvalidOperationException`; on a collection of one element type it yields the converter for that type |
| CollectionItemConverter.AcceptedYetNotBuilt | RamjotSingh.System.Text.Json.Extensions/Converters/CollectionItemConverter.cs:29-45 | a collection type with no generic argument or several passes `CanConvert` and then fails in `CreateConverter` with `InvalidOperationException` |
| CollectionItemConverter.EnumListExample | System.Text.Json.Extensions.Tests/Converters/CollectionItemConverterTests.cs:37-75 | `[Val1, Val2]` is written as `["Val1","Val2"]` by name even when the caller's options carry no converter, reads back, and `null` is written as the null token |
| CollectionItemConverter.UnbracketedValueFails | RamjotSingh.System.Text.Json.Extensions/Converters/JsonCollectionItemConverter.cs:37-45 | with a string where the list should be and no `EndArray` ahead, the loop takes the string as an element and then fails on the end of the enclosing object with the serializer's exception |
| AllowDerivedClassesSerializationConverter.CanConvert | RamjotSingh.System.Text.Json.Extensions/Converters/AllowDerivedClassesSerializationConverter.cs:21-24 | every type can be converted |
| AllowDerivedClassesSerializationConverter.Read | RamjotSingh.System.Text.Json.Extensions/Converters/AllowDerivedClassesSerializationConverter.cs:34-37 | reading always fails with `NotImplementedException` |
| AllowDerivedClassesSerializationConverter.SerializeObject | RamjotSingh.System.Text.Json.Extensions/Converters/AllowDerivedClassesSerializationConverter.cs:60-67 | `null` is written as the null token; an object is serialized as its runtime type |
| AllowDerivedClassesSerializationConverter.SerializeEach | RamjotSingh.System.Text.Json.Extensions/Converters/AllowDerivedClassesSerializationConverter.cs:58-61 | no items write nothing, and one item writes what that item alone writes |
| AllowDerivedClassesSerializationConverter.Written | RamjotSingh.System.Text.Json.Extensions/Converters/AllowDerivedClassesSerializationConverter.cs:45-69 | `Null` for `null`; for an `IEnumerable<object>`, `StartArray`, then every item serialized in order, then `EndArray`; otherwise the value serialized as its runtime type |
| AllowDerivedClassesSerializationConverter.MissingWriterError | RamjotSingh.System.Text.Json.Extensions/Converters/AllowDerivedClassesSerializationConverter.cs:47-67 | a missing writer fails with `ArgumentNullException("writer")` exactly when the value is a non-null non-enumerable, which goes straight to `JsonSerializer.Serialize`; otherwise with `NullReferenceException` |
| AllowDerivedClassesSerializationConverter.Write | RamjotSingh.System.Text.Json.Extensions/Converters/AllowDerivedClassesSerializationConverter.cs:45-69 | the output grows by exactly the specified tokens: `Null` for `null`, the brackets around every item serialized by its runtime type for an `IEnumerable<object>`, the value by its runtime type otherwise; a missing writer fails as the host does |
| AllowDerivedClassesSerializationConverter.WriteEach | RamjotSingh.System.Text.Json.Extensions/Converters/AllowDerivedClassesSerializationConverter.cs:58-61 | the `foreach` appends the items serialized by their runtime types, in iteration order |
| AllowDerivedClassesSerializationConverter.SerializeEachAppend | RamjotSingh.System.Text.Json.Extensions/Converters/AllowDerivedClassesSerializationConverter.cs:58-61 | serializing items one after the other distributes over concatenation |
| AllowDerivedClassesSerializationConverter.NullItemsWrittenAsNull | RamjotSingh.System.Text.Json.Extensions/Converters/AllowDerivedClassesSerializationConverter.cs:58-61 | a list of `null` items is written as that many null tokens |
| AllowDerivedClassesSerializationConverter.ItemInOrder | RamjotSingh.System.Text.Json.Extensions/Converters/AllowDerivedClassesSerializationConverter.cs:58-61 | item `k` is written after every earlier item and before every later one |
| AllowDerivedClassesSerializationConverter.DerivedPropertiesIncluded | System.Text.Json.Extensions.Tests/Converters/AllowDerivedClassesSerializationConverterTests.cs:21-33 | a `BaseClass` property holding a `DerivedClass` is written with the derived and the base property, where its declared type alone would drop the derived one |
| AllowDerivedClassesSerializationConverter.DerivedListPropertiesIncluded | System.Text.Json.Extensions.Tests/Converters/AllowDerivedClassesSerializationConverterTests.cs:21-33 | a list of derived objects is written as an array whose elements keep their derived properties, in list order |

## Left out

- The internals of System.Text.Json: `Utf8JsonReader`, `Utf8JsonWriter`, `JsonSerializer` and the options.
  They are seen as a token stream, a token list and a converter list plus a map of other settings. Text,
  escaping and formatting of JSON are not modelled.
- JsonCollectionItemConverter.Read: each element is one token (`ElementSerializer` maps one token to one
  value and back). An element written as an object or nested array is not modelled. The read loop's
  `reader.Read()` after each element stands for the cursor moving past that one token.
- JsonCollectionItemConverter.Read: when the token is not `Null` and the converter can be instantiated, it
  requires an `EndArray` or an element that fails somewhere ahead of the cursor. Without either, every token up
  to the end of the stream decodes and the source's loop does not end, because `reader.Read()` at the last
  token leaves the cursor where it is. The host's reader would fail on such truncated input; that is not modelled.
- JsonCollectionItemConverter.Write: each element is serialized to one token, and an element whose
  serialization fails writes nothing of its own. The partial output before it (`StartArray` and the earlier
  elements) is modelled.
- JsonCollectionItemConverter.Read: `typeToConvert` is a parameter the source ignores, and so does the model.
- Converter identity: an instance built by `Activator.CreateInstance` is represented by its type.
- Reflection is abstracted as `TypeDescriptor`: full name, implemented interfaces, generic arguments.
  `MakeGenericType` on the closed converter type cannot fail, because the arity is right by construction.
- AllowDerivedClassesSerializationConverter.Write: `JsonSerializer.Serialize` is total. Exceptions that a
  nested serialization may throw, including reference cycles, are not modelled.
- AllowDerivedClassesSerializationConverter.Write: the error for a missing writer is the host's. This is a
  `NullReferenceException` from `WriteNullValue`/`WriteStartArray`, or an `ArgumentNullException` from
  `JsonSerializer.Serialize`.
- The emoji table (`UnicodeScalarHelper.IsUnicodeScalarAnEmoji`) and `UnsafeRelaxedJsonEscaping` are
  uninterpreted functions, fields of the `Encoder` value.
- The `char*`/length pair of `FindFirstCharacterToEncode` is a sequence of code units; pointers and unsafe
  memory are not modelled.
- `Rune.DecodeFromUtf16` is modelled after its documented contract and section 2.2 of RFC 2781. The .NET
  source of `Rune` is not part of this model.
- `UnicodeDebug`, `JsonCamelCaseStringEnumConverter` and `AllowBooleanAsStringConverter` are not part of the
  core modelled here.
- The test fixtures' file reading and the Newtonsoft.Json comparison in the encoder test are left out: they
  are I/O and a foreign library.
- Thread safety of the shared encoder instance is not modelled.
- The message text of the host's exceptions (attribute resolution, `Single`) is indicative only.
