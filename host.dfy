/** The parts of System.Text.Json (and of .NET reflection) that the converters use, seen
    from the outside: the token stream of `Utf8JsonReader`/`Utf8JsonWriter`, the exceptions
    that can escape, type descriptors for reflection, and `JsonSerializerOptions` with its
    converter list. */
module Host {
  import opened Wrappers

  /** The exceptions that can escape from the converters. */
  datatype Exception =
    | ArgumentNullException(paramName: string)
    | InvalidOperationException(message: string)
    | NotImplementedException
    | MissingMethodException(typeName: string)
    | NullReferenceException
    | JsonException(message: string)

  /** One JSON token, as `JsonTokenType` classifies it, with its payload. */
  datatype Token =
    | Null
    | StartArray
    | EndArray
    | StartObject
    | EndObject
    | PropertyName(name: string)
    | String(text: string)
    | Number(value: int)
    | True
    | False

  /** A `System.Type` as reflection shows it: its full name, the full names of the
      interfaces it implements (what `GetInterface` looks up) and its generic arguments
      (what `GetGenericArguments` returns). */
  datatype TypeDescriptor = TypeDescriptor(
    fullName: string,
    interfaces: set<string>,
    genericArguments: seq<TypeDescriptor>)

  /** A converter type `TConverterType`: whether `Activator.CreateInstance` can build one. */
  datatype ConverterType = ConverterType(fullName: string, hasParameterlessConstructor: bool)

  /** `Activator.CreateInstance<TConverterType>()`: a new converter of that type, or
      `MissingMethodException` when the type has no parameterless constructor. */
  function CreateInstance(t: ConverterType): (r: Result<ConverterType, Exception>)
    ensures r.Ok? <==> t.hasParameterlessConstructor
    ensures r.Ok? ==> r.value == t
    ensures r.Err? ==> r.error == MissingMethodException(t.fullName)
  {
    if t.hasParameterlessConstructor then Ok(t) else Err(MissingMethodException(t.fullName))
  }

  /** Every option other than the converter list (encoder, naming policy, ...), by name. */
  type Settings = map<string, string>

  /** The value of a `JsonSerializerOptions` at the moment it is handed to the serializer. */
  datatype OptionsView = OptionsView(converters: seq<ConverterType>, settings: Settings)

  /** `JsonSerializerOptions`: a converter list the caller can change, and other settings. */
  class JsonSerializerOptions {
    var converters: seq<ConverterType>
    var settings: Settings

    constructor (converters: seq<ConverterType>, settings: Settings)
      ensures this.converters == converters && this.settings == settings
    {
      this.converters := converters;
      this.settings := settings;
    }

    /** The copy constructor `new JsonSerializerOptions(options)`. */
    constructor Copy(other: JsonSerializerOptions)
      ensures converters == other.converters && settings == other.settings
    {
      converters := other.converters;
      settings := other.settings;
    }

    function View(): (r: OptionsView)
      reads this
    {
      OptionsView(converters, settings)
    }

    /** `Converters.Clear()`. */
    method ClearConverters()
      modifies this
      ensures converters == [] && settings == old(settings)
    {
      converters := [];
    }

    /** `Converters.Add(converter)`. */
    method AddConverter(converter: ConverterType)
      modifies this
      ensures converters == old(converters) + [converter] && settings == old(settings)
    {
      converters := converters + [converter];
    }
  }

  /** `Utf8JsonReader` over a complete token stream: the tokens and the current position. */
  class JsonReader {
    const tokens: seq<Token>
    var position: nat

    ghost predicate Valid()
      reads this
    {
      position < |tokens|
    }

    constructor (tokens: seq<Token>, position: nat)
      requires position < |tokens|
      ensures Valid() && this.tokens == tokens && this.position == position
    {
      this.tokens := tokens;
      this.position := position;
    }

    /** `TokenType`: the token under the cursor. */
    function TokenType(): (r: Token)
      reads this
      requires Valid()
    {
      tokens[position]
    }

    /** `Read()`: moves to the next token, or reports that there is none and stays. */
    method Read() returns (more: bool)
      requires Valid()
      modifies this
      ensures Valid()
      ensures more <==> old(position) + 1 < |tokens|
      ensures position == if more then old(position) + 1 else old(position)
    {
      more := position + 1 < |tokens|;
      if more {
        position := position + 1;
      }
    }
  }

  /** `Utf8JsonWriter`: the tokens written so far. */
  class JsonWriter {
    var output: seq<Token>

    constructor ()
      ensures output == []
    {
      output := [];
    }

    /** `WriteNullValue()`. */
    method WriteNullValue()
      modifies this
      ensures output == old(output) + [Null]
    {
      output := output + [Null];
    }

    /** `WriteStartArray()`. */
    method WriteStartArray()
      modifies this
      ensures output == old(output) + [StartArray]
    {
      output := output + [StartArray];
    }

    /** `WriteEndArray()`. */
    method WriteEndArray()
      modifies this
      ensures output == old(output) + [EndArray]
    {
      output := output + [EndArray];
    }

    /** What a `JsonSerializer.Serialize` call writes through this writer. */
    method WriteTokens(ts: seq<Token>)
      modifies this
      ensures output == old(output) + ts
    {
      output := output + ts;
    }
  }
}
