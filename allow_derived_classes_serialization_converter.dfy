/** `AllowDerivedClassesSerializationConverter`: writes a value by its runtime type instead
    of the declared type of the property, so that the properties of a derived class are
    written too; reading is not supported. */
module AllowDerivedClassesSerializationConverter {
  import opened Wrappers
  import opened Host

  /** Objects as the serializer sees them: an object's runtime type (`GetType()`), the
      items it enumerates when it is an `IEnumerable<object>` (a `null` item is `None`),
      and the tokens `JsonSerializer.Serialize` writes for an object serialized as a given
      type. */
  datatype ObjectModel<!O> = ObjectModel(
    runtimeType: O -> TypeDescriptor,
    asEnumerableOfObject: O -> Option<seq<Option<O>>>,
    serialize: (OptionsView, TypeDescriptor, O) -> seq<Token>)

  /** `CanConvert`: every type. */
  function CanConvert(typeToConvert: TypeDescriptor): (r: bool)
    ensures r
  {
    true
  }

  /** `Read`: always `NotImplementedException`, and the reader is not moved. */
  function Read<O>(reader: JsonReader, typeToConvert: TypeDescriptor, options: JsonSerializerOptions): (r: Result<Option<O>, Exception>)
    ensures r == Err(NotImplementedException)
  {
    Err(NotImplementedException)
  }

  /** `JsonSerializer.Serialize<object>`: the null token for `null`, otherwise the object
      serialized as its runtime type. */
  function SerializeObject<O>(m: ObjectModel<O>, options: OptionsView, v: Option<O>): (r: seq<Token>)
    ensures v.None? ==> r == [Null]
    ensures v.Some? ==> r == m.serialize(options, m.runtimeType(v.value), v.value)
  {
    match v
    case None => [Null]
    case Some(o) => m.serialize(options, m.runtimeType(o), o)
  }

  /** The items serialized one after the other, in iteration order. */
  function SerializeEach<O>(m: ObjectModel<O>, options: OptionsView, items: seq<Option<O>>): (r: seq<Token>)
    ensures items == [] ==> r == []
    ensures |items| == 1 ==> r == SerializeObject(m, options, items[0])
  {
    if items == [] then []
    else SerializeEach(m, options, items[..|items| - 1]) + SerializeObject(m, options, items[|items| - 1])
  }

  /** What `Write` writes: the null token for `null`; for an `IEnumerable<object>`,
      `StartArray`, every item by its runtime type, `EndArray`; for anything else, the
      value by its runtime type. */
  function Written<O>(m: ObjectModel<O>, options: OptionsView, value: Option<O>): (r: seq<Token>)
    ensures value.None? ==> r == [Null]
    ensures value.Some? && m.asEnumerableOfObject(value.value).Some? ==>
      |r| >= 2 && r[0] == StartArray && r[|r| - 1] == EndArray &&
      r[1..|r| - 1] == SerializeEach(m, options, m.asEnumerableOfObject(value.value).value)
    ensures value.Some? && m.asEnumerableOfObject(value.value).None? ==>
      r == m.serialize(options, m.runtimeType(value.value), value.value)
  {
    match value
    case None => [Null]
    case Some(o) =>
      match m.asEnumerableOfObject(o)
      case Some(items) => [StartArray] + SerializeEach(m, options, items) + [EndArray]
      case None => SerializeObject(m, options, value)
  }

  /** The exception a missing writer raises: `WriteNullValue` and `WriteStartArray` on it
      fail with `NullReferenceException`; `JsonSerializer.Serialize` rejects it with
      `ArgumentNullException`. */
  function MissingWriterError<O>(m: ObjectModel<O>, value: Option<O>): (r: Exception)
    ensures r == ArgumentNullException("writer") <==> value.Some? && m.asEnumerableOfObject(value.value).None?
    ensures r != ArgumentNullException("writer") ==> r == NullReferenceException
  {
    if value.Some? && m.asEnumerableOfObject(value.value).None? then ArgumentNullException("writer")
    else NullReferenceException
  }

  /** `Write`: appends `Written` of the value to the writer's output. */
  method Write<O>(m: ObjectModel<O>, writer: JsonWriter?, value: Option<O>, options: JsonSerializerOptions)
    returns (r: Outcome<Exception>)
    modifies writer
    ensures writer == null ==> r == Fail(MissingWriterError(m, value))
    ensures writer != null ==> r == Pass && writer.output == old(writer.output) + Written(m, options.View(), value)
  {
    if writer == null {
      return Fail(MissingWriterError(m, value));
    }

    if value.None? {
      writer.WriteNullValue();
      return Pass;
    }

    var items := m.asEnumerableOfObject(value.value);
    if items.Some? {
      writer.WriteStartArray();
      WriteEach(m, options.View(), writer, items.value);
      writer.WriteEndArray();
    } else {
      writer.WriteTokens(SerializeObject(m, options.View(), value));
    }
    return Pass;
  }

  /** The `foreach` of `Write`: every item serialized by its runtime type, in order. */
  method WriteEach<O>(m: ObjectModel<O>, options: OptionsView, writer: JsonWriter, xs: seq<Option<O>>)
    modifies writer
    ensures writer.output == old(writer.output) + SerializeEach(m, options, xs)
  {
    var i := 0;
    while i < |xs|
      invariant 0 <= i <= |xs|
      invariant writer.output == old(writer.output) + SerializeEach(m, options, xs[..i])
    {
      assert xs[..i + 1][..i] == xs[..i];
      writer.WriteTokens(SerializeObject(m, options, xs[i]));
      i := i + 1;
    }
    assert xs[..i] == xs;
  }

  /** Serializing items one after the other distributes over concatenation. */
  lemma {:induction false} SerializeEachAppend<O>(m: ObjectModel<O>, options: OptionsView, a: seq<Option<O>>, b: seq<Option<O>>)
    ensures SerializeEach(m, options, a + b) == SerializeEach(m, options, a) + SerializeEach(m, options, b)
    decreases |b|
  {
    if b == [] {
      assert a + b == a;
    } else {
      var ab := a + b;
      var b' := b[..|b| - 1];
      assert ab[..|ab| - 1] == a + b';
      assert ab[|ab| - 1] == b[|b| - 1];
      SerializeEachAppend(m, options, a, b');
      var sa, sb', last := SerializeEach(m, options, a), SerializeEach(m, options, b'), SerializeObject(m, options, b[|b| - 1]);
      assert SerializeEach(m, options, ab) == sa + sb' + last;
      assert SerializeEach(m, options, b) == sb' + last;
      assert sa + sb' + last == sa + (sb' + last);
    }
  }

  /** A `null` item is written as the null token, so a list of `null` items is written as
      that many null tokens. */
  lemma {:induction false} NullItemsWrittenAsNull<O>(m: ObjectModel<O>, options: OptionsView, items: seq<Option<O>>)
    requires forall k :: 0 <= k < |items| ==> items[k].None?
    ensures |SerializeEach(m, options, items)| == |items|
    ensures forall k :: 0 <= k < |items| ==> SerializeEach(m, options, items)[k] == Null
  {
    if items != [] {
      var init := items[..|items| - 1];
      NullItemsWrittenAsNull(m, options, init);
      assert SerializeEach(m, options, items) == SerializeEach(m, options, init) + [Null];
    }
  }

  /** Iteration order: item `k` is written after every earlier item and before every later
      one. */
  lemma ItemInOrder<O>(m: ObjectModel<O>, options: OptionsView, items: seq<Option<O>>, k: nat)
    requires k < |items|
    ensures SerializeEach(m, options, items) ==
      SerializeEach(m, options, items[..k]) + SerializeObject(m, options, items[k]) + SerializeEach(m, options, items[k + 1..])
  {
    assert items == items[..k] + [items[k]] + items[k + 1..];
    SerializeEachAppend(m, options, items[..k] + [items[k]], items[k + 1..]);
    SerializeEachAppend(m, options, items[..k], [items[k]]);
    assert [items[k]][..0] == [];
  }

  /** The classes of the derived-class example from the tests. */
  datatype Sample =
    | BaseClass(baseProp: string)
    | DerivedClass(baseProp: string, derivedProp: string)
    | DerivedArray(elements: seq<Option<Sample>>)

  const BaseClassType := TypeDescriptor("BaseClass", {}, [])
  const DerivedClassType := TypeDescriptor("DerivedClass", {}, [])
  const DerivedArrayType := TypeDescriptor("DerivedClass[]", {"System.Collections.IEnumerable", "System.Collections.Generic.IEnumerable`1"}, [])

  function SampleRuntimeType(o: Sample): (r: TypeDescriptor)
  {
    match o
    case BaseClass(_) => BaseClassType
    case DerivedClass(_, _) => DerivedClassType
    case DerivedArray(_) => DerivedArrayType
  }

  function SampleAsEnumerable(o: Sample): (r: Option<seq<Option<Sample>>>)
  {
    if o.DerivedArray? then Some(o.elements) else None
  }

  /** The host's serializer for the example: an object is written with the properties its
      serialization type declares, the derived class's own before the inherited ones. */
  function SampleSerialize(options: OptionsView, t: TypeDescriptor, o: Sample): (r: seq<Token>)
  {
    if t == DerivedClassType && o.DerivedClass? then
      [StartObject, PropertyName("derivedProp"), String(o.derivedProp), PropertyName("baseProp"), String(o.baseProp), EndObject]
    else if t == BaseClassType && !o.DerivedArray? then
      [StartObject, PropertyName("baseProp"), String(o.baseProp), EndObject]
    else [StartArray, EndArray]
  }

  function SampleModel(): (r: ObjectModel<Sample>)
  {
    ObjectModel(SampleRuntimeType, SampleAsEnumerable, SampleSerialize)
  }

  /** A `BaseClass` property holding a `DerivedClass` is written with both the derived and
      the base property, where serializing it as its declared type would drop the derived
      one. */
  lemma DerivedPropertiesIncluded(options: OptionsView)
    ensures Written(SampleModel(), options, Some(DerivedClass("B", "D"))) ==
      [StartObject, PropertyName("derivedProp"), String("D"), PropertyName("baseProp"), String("B"), EndObject]
    ensures SampleModel().serialize(options, BaseClassType, DerivedClass("B", "D")) ==
      [StartObject, PropertyName("baseProp"), String("B"), EndObject]
  {
  }

  /** Every element of a list of derived objects is written with its derived property too,
      in list order, between the array brackets. */
  lemma DerivedListPropertiesIncluded(options: OptionsView)
    ensures Written(SampleModel(), options, Some(DerivedArray([Some(DerivedClass("B1", "D1")), Some(DerivedClass("B2", "D2"))]))) ==
      [StartArray] +
      ([StartObject, PropertyName("derivedProp"), String("D1"), PropertyName("baseProp"), String("B1"), EndObject] +
       [StartObject, PropertyName("derivedProp"), String("D2"), PropertyName("baseProp"), String("B2"), EndObject]) +
      [EndArray]
  {
    var p1 := Some(DerivedClass("B1", "D1"));
    var p2 := Some(DerivedClass("B2", "D2"));
    assert [p1, p2][..1] == [p1];
  }
}
