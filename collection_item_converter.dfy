/** `CollectionItemConverter<TConverterType>`: the converter factory that is put on a
    collection property and builds the element-by-element codec for it. */
module CollectionItemConverter {
  import opened Wrappers
  import opened Host
  import opened JsonCollectionItemConverter

  /** The interface `CanConvert` looks up. */
  const EnumerableInterface := "System.Collections.IEnumerable"

  /** `CanConvert`: `ArgumentNullException` for a missing type; otherwise whether the
      type implements the non-generic `IEnumerable`. */
  function CanConvert(typeToConvert: Option<TypeDescriptor>): (r: Result<bool, Exception>)
    ensures typeToConvert.None? <==> r == Err(ArgumentNullException("typeToConvert"))
    ensures typeToConvert.Some? ==> r == Ok(EnumerableInterface in typeToConvert.value.interfaces)
  {
    match typeToConvert
    case None => Err(ArgumentNullException("typeToConvert"))
    case Some(t) => Ok(EnumerableInterface in t.interfaces)
  }

  /** `Enumerable.Single`: the one element, or `InvalidOperationException` for none or
      several. */
  function Single<X>(s: seq<X>): (r: Result<X, Exception>)
    ensures r.Ok? <==> |s| == 1
    ensures r.Ok? ==> r.value == s[0]
    ensures r.Err? ==> r.error.InvalidOperationException?
  {
    if |s| == 1 then Ok(s[0])
    else if s == [] then Err(InvalidOperationException("Sequence contains no elements"))
    else Err(InvalidOperationException("Sequence contains more than one element"))
  }

  /** `CreateConverter`: `ArgumentNullException` for a missing type; otherwise the codec
      for the type's only generic argument and `TConverterType`, or
      `InvalidOperationException` when the type does not have exactly one generic argument.
      The options are not consulted. */
  function CreateConverter(converterType: ConverterType, typeToConvert: Option<TypeDescriptor>, options: OptionsView): (r: Result<ItemConverter, Exception>)
    ensures typeToConvert.None? ==> r == Err(ArgumentNullException("typeToConvert"))
    ensures typeToConvert.Some? ==> (r.Ok? <==> |typeToConvert.value.genericArguments| == 1)
    ensures typeToConvert.Some? && r.Err? ==> r.error.InvalidOperationException?
    ensures r.Ok? ==> r.value == ItemConverter(typeToConvert.value.genericArguments[0], converterType)
  {
    match typeToConvert
    case None => Err(ArgumentNullException("typeToConvert"))
    case Some(t) =>
      match Single(t.genericArguments)
      case Err(e) => Err(e)
      case Ok(element) => Ok(ItemConverter(element, converterType))
  }

  /** How the serializer resolves a `[JsonConverter(typeof(CollectionItemConverter<...>))]`
      attribute on a property of the given type: a factory that cannot convert the
      property's type is an `InvalidOperationException`; otherwise the factory builds the
      converter. */
  function ResolvePropertyConverter(converterType: ConverterType, propertyType: TypeDescriptor, options: OptionsView): (r: Result<ItemConverter, Exception>)
    ensures r.Ok? <==> EnumerableInterface in propertyType.interfaces && |propertyType.genericArguments| == 1
    ensures r.Err? ==> r.error.InvalidOperationException?
  {
    match CanConvert(Some(propertyType))
    case Err(e) => Err(e)
    case Ok(false) => Err(InvalidOperationException("The converter specified is not compatible with the property type"))
    case Ok(true) => CreateConverter(converterType, Some(propertyType), options)
  }

  /** The options play no part in building the codec. */
  lemma OptionsUnused(converterType: ConverterType, typeToConvert: Option<TypeDescriptor>, o1: OptionsView, o2: OptionsView)
    ensures CreateConverter(converterType, typeToConvert, o1) == CreateConverter(converterType, typeToConvert, o2)
  {
  }

  /** A property whose type is not a collection makes resolution fail with
      `InvalidOperationException`; one whose type is a collection with one element type
      gets the codec for that element type. */
  lemma ResolutionOutcome(converterType: ConverterType, propertyType: TypeDescriptor, options: OptionsView)
    ensures EnumerableInterface !in propertyType.interfaces ==>
      ResolvePropertyConverter(converterType, propertyType, options).Err? &&
      ResolvePropertyConverter(converterType, propertyType, options).error.InvalidOperationException?
    ensures EnumerableInterface in propertyType.interfaces && |propertyType.genericArguments| == 1 ==>
      ResolvePropertyConverter(converterType, propertyType, options) ==
        Ok(ItemConverter(propertyType.genericArguments[0], converterType))
  {
  }

  /** A collection type with no generic argument (an array such as `int[]`, or `string`)
      passes `CanConvert` and still makes `CreateConverter` fail, as does one with several
      (a dictionary). */
  lemma AcceptedYetNotBuilt(converterType: ConverterType, t: TypeDescriptor, options: OptionsView)
    requires EnumerableInterface in t.interfaces
    requires |t.genericArguments| != 1
    ensures CanConvert(Some(t)) == Ok(true)
    ensures CreateConverter(converterType, Some(t), options).Err?
    ensures CreateConverter(converterType, Some(t), options).error.InvalidOperationException?
  {
  }

  /** The element type of the enum example from the tests, and `JsonStringEnumConverter`. */
  datatype TestEnumModel = Val1 | Val2

  const StringEnumConverter := ConverterType("System.Text.Json.Serialization.JsonStringEnumConverter", true)

  /** The serializer's handling of the enum: by name when a `JsonStringEnumConverter` is
      among the options' converters, otherwise by number. */
  function EnumSerializer(): (r: ElementSerializer<TestEnumModel>)
  {
    ElementSerializer(
      (o: OptionsView, t: Token) =>
        match t
        case String(name) =>
          if StringEnumConverter in o.converters && name == "Val1" then Ok(Val1)
          else if StringEnumConverter in o.converters && name == "Val2" then Ok(Val2)
          else Err(JsonException("The JSON value could not be converted"))
        case Number(n) => if n == 0 then Ok(Val1) else if n == 1 then Ok(Val2) else Err(JsonException("The JSON value could not be converted"))
        case _ => Err(JsonException("The JSON value could not be converted")),
      (o: OptionsView, v: TestEnumModel) =>
        if StringEnumConverter in o.converters then Ok(String(if v == Val1 then "Val1" else "Val2"))
        else Ok(Number(if v == Val1 then 0 else 1)))
  }

  /** `IEnumerable<TestEnumModel>` with `CollectionItemConverter<JsonStringEnumConverter>`:
      `[Val1, Val2]` is written as `["Val1","Val2"]` even when the caller's options carry no
      converter, and reads back; `null` is written as the null token. */
  lemma EnumListExample(options: OptionsView)
    ensures var c := ItemConverter(TypeDescriptor("TestEnumModel", {}, []), StringEnumConverter);
      && WriteValue(c, EnumSerializer(), options, Some([Val1, Val2])) ==
           Emitted([StartArray, String("Val1"), String("Val2"), EndArray], None)
      && ReadValue(c, EnumSerializer(), options, [StartArray, String("Val1"), String("Val2"), EndArray], 0) ==
           Ok(Some([Val1, Val2]))
      && WriteValue(c, EnumSerializer(), options, None) == Emitted([Null], None)
  {
    var c := ItemConverter(TypeDescriptor("TestEnumModel", {}, []), StringEnumConverter);
    var ser := EnumSerializer();
    var opts := ElementOptions(options, StringEnumConverter);
    assert StringEnumConverter in opts.converters;
    assert ser.serialize(opts, Val1) == Ok(String("Val1")) && ser.serialize(opts, Val2) == Ok(String("Val2"));
    assert ser.deserialize(opts, String("Val1")) == Ok(Val1) && ser.deserialize(opts, String("Val2")) == Ok(Val2);
    forall x: TestEnumModel
      ensures ser.serialize(opts, x).Ok? && ser.deserialize(opts, ser.serialize(opts, x).value) == Ok(x)
      ensures ser.serialize(opts, x).value != StartArray && ser.serialize(opts, x).value != EndArray
    {
      if x == Val1 {} else {}
    }
    assert [Val1, Val2][..1] == [Val1] && [Val1][..0] == [];
    assert SerializeAll(ser, opts, [Val1, Val2]) == Emitted([String("Val1"), String("Val2")], None);
    assert CreateInstance(StringEnumConverter) == Ok(StringEnumConverter);
    assert WriteValue(c, ser, options, Some([Val1, Val2])) == Emitted([StartArray] + SerializeAll(ser, opts, [Val1, Val2]).tokens + [EndArray], None);
    assert [StartArray] + [String("Val1"), String("Val2")] + [EndArray] == [StartArray, String("Val1"), String("Val2"), EndArray];
    RoundTrip(c, ser, options, Some([Val1, Val2]), []);
    assert [StartArray, String("Val1"), String("Val2"), EndArray] + [] == [StartArray, String("Val1"), String("Val2"), EndArray];
  }

  /** A string where the list should be: the read takes `"Val1"` as an element and then
      fails on the end of the enclosing object with the serializer's exception, an outcome
      the read loop reaches even though no `EndArray` lies ahead. */
  lemma UnbracketedValueFails(options: OptionsView)
    ensures var c := ItemConverter(TypeDescriptor("TestEnumModel", {}, []), StringEnumConverter);
      var ts := [StartObject, PropertyName("enumVals"), String("Val1"), EndObject];
      && EndArrayIndex(ts, 2) == |ts|
      && EnumSerializer().deserialize(ElementOptions(options, StringEnumConverter), ts[3]).Err?
      && ReadValue(c, EnumSerializer(), options, ts, 2) == Err(JsonException("The JSON value could not be converted"))
  {
    var ts := [StartObject, PropertyName("enumVals"), String("Val1"), EndObject];
    var opts := ElementOptions(options, StringEnumConverter);
    assert StringEnumConverter in opts.converters;
    assert CreateInstance(StringEnumConverter) == Ok(StringEnumConverter);
    assert EndArrayIndex(ts, 3) == 4;
    assert ElementsBetween(ts, 2, 3) == [String("Val1")];
    assert ElementsBetween(ts, 2, 4) == [String("Val1"), EndObject];
    assert [String("Val1"), EndObject][..1] == [String("Val1")] && [String("Val1")][..0] == [];
    assert EnumSerializer().deserialize(opts, String("Val1")) == Ok(Val1);
    assert [] + [Val1] == [Val1];
    assert DecodeAll(EnumSerializer(), opts, [String("Val1")]) == Ok([Val1]);
    assert ReadItems(EnumSerializer(), opts, ts, 2) == Err(JsonException("The JSON value could not be converted"));
  }
}
