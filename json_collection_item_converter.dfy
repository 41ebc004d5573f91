/** `JsonCollectionItemConverter<TDatatype, TConverterType>`: converts a collection
    property element by element, handing every element to the serializer with options whose
    only converter is a new `TConverterType`. */
module JsonCollectionItemConverter {
  import opened Wrappers
  import opened Host

  /** A closed converter type: the element type `TDatatype` and the item converter
      type `TConverterType`. */
  datatype ItemConverter = ItemConverter(elementType: TypeDescriptor, converterType: ConverterType)

  /** `JsonSerializer.Deserialize` and `JsonSerializer.Serialize` for one element under the
      options given: the element, or its token, or the exception the call throws; every
      element is a single token. */
  datatype ElementSerializer<!T> = ElementSerializer(
    deserialize: (OptionsView, Token) -> Result<T, Exception>,
    serialize: (OptionsView, T) -> Result<Token, Exception>)

  /** What a write has put on the writer, and the exception that ended it, if any. */
  datatype Emitted = Emitted(tokens: seq<Token>, failure: Option<Exception>)

  /** The options both directions build: a copy of the caller's options whose converter
      list is exactly one instance of the item converter type. */
  function ElementOptions(options: OptionsView, converter: ConverterType): (r: OptionsView)
    ensures |r.converters| == 1 && r.converters[0] == converter
    ensures r.settings == options.settings
  {
    OptionsView([converter], options.settings)
  }

  /** The index of the first `EndArray` at or after `i`, or the end of the stream: where
      the read loop stops. */
  function EndArrayIndex(ts: seq<Token>, i: nat): (k: nat)
    requires i <= |ts|
    ensures i <= k <= |ts|
    ensures k < |ts| ==> ts[k] == EndArray
    ensures forall j :: i <= j < k ==> ts[j] != EndArray
    decreases |ts| - i
  {
    if i == |ts| || ts[i] == EndArray then i else EndArrayIndex(ts, i + 1)
  }

  /** The tokens of `ts[i..j]` that carry an element: every one but `StartArray`, in order. */
  function ElementsBetween(ts: seq<Token>, i: nat, j: nat): (r: seq<Token>)
    requires i <= j <= |ts|
    ensures |r| <= j - i
    ensures StartArray !in r
    decreases j - i
  {
    if i == j then []
    else if ts[j - 1] == StartArray then ElementsBetween(ts, i, j - 1)
    else ElementsBetween(ts, i, j - 1) + [ts[j - 1]]
  }

  /** Deserializes tokens one by one, in order, stopping at the first failure. */
  function DecodeAll<T>(ser: ElementSerializer<T>, options: OptionsView, ts: seq<Token>): (r: Result<seq<T>, Exception>)
    ensures r.Ok? ==> |r.value| == |ts|
  {
    if ts == [] then Ok([])
    else match DecodeAll(ser, options, ts[..|ts| - 1])
      case Err(e) => Err(e)
      case Ok(xs) =>
        match ser.deserialize(options, ts[|ts| - 1])
        case Err(e) => Err(e)
        case Ok(x) => Ok(xs + [x])
  }

  /** What the read loop produces from the cursor `i` on: the element tokens before the
      first `EndArray`, deserialized. */
  function ReadItems<T>(ser: ElementSerializer<T>, options: OptionsView, ts: seq<Token>, i: nat): (r: Result<seq<T>, Exception>)
    requires i <= |ts|
    ensures r.Ok? ==> |r.value| == |ElementsBetween(ts, i, EndArrayIndex(ts, i))| <= EndArrayIndex(ts, i) - i
  {
    DecodeAll(ser, options, ElementsBetween(ts, i, EndArrayIndex(ts, i)))
  }

  /** The read loop as it runs from the cursor `p`: `EndArray` or the end of the stream
      ends the list, `StartArray` is skipped, and any other token is deserialized ahead of
      the elements after it; the first failure ends the loop. */
  function ReadLoop<T>(ser: ElementSerializer<T>, options: OptionsView, ts: seq<Token>, p: nat): (r: Result<seq<T>, Exception>)
    requires p <= |ts|
    decreases |ts| - p
  {
    if p == |ts| || ts[p] == EndArray then Ok([])
    else if ts[p] == StartArray then ReadLoop(ser, options, ts, p + 1)
    else
      match ser.deserialize(options, ts[p])
      case Err(e) => Err(e)
      case Ok(x) =>
        match ReadLoop(ser, options, ts, p + 1)
        case Err(e) => Err(e)
        case Ok(xs) => Ok([x] + xs)
  }

  /** The elements already read, ahead of what the rest of the loop produces. */
  function Prepend<T>(items: seq<T>, rest: Result<seq<T>, Exception>): (r: Result<seq<T>, Exception>) {
    match rest
    case Err(e) => Err(e)
    case Ok(xs) => Ok(items + xs)
  }

  /** What `Read` returns with the cursor at `i`: `null` for a `Null` token; otherwise the
      instance of the item converter is built and the elements are read. On a stream with
      neither an `EndArray` nor a failing element ahead the source's loop never returns,
      and `Read`'s precondition excludes exactly those streams. */
  function ReadValue<T>(c: ItemConverter, ser: ElementSerializer<T>, options: OptionsView, ts: seq<Token>, i: nat): (r: Result<Option<seq<T>>, Exception>)
    requires i < |ts|
    ensures r == Ok(None) <==> ts[i] == Null
    ensures ts[i] != Null && !c.converterType.hasParameterlessConstructor ==>
      r == Err(MissingMethodException(c.converterType.fullName))
    ensures r.Ok? && r.value.Some? ==> |r.value.value| <= EndArrayIndex(ts, i) - i
  {
    if ts[i] == Null then Ok(None)
    else match CreateInstance(c.converterType)
      case Err(e) => Err(e)
      case Ok(instance) =>
        match ReadItems(ser, ElementOptions(options, instance), ts, i)
        case Err(e) => Err(e)
        case Ok(xs) => Ok(Some(xs))
  }

  /** The items serialized one by one, in order, up to the first one that fails: the
      tokens written are those of the items before it, and its exception ends the write. */
  function SerializeAll<T>(ser: ElementSerializer<T>, options: OptionsView, xs: seq<T>): (r: Emitted)
    ensures r.failure.None? ==> |r.tokens| == |xs|
    ensures r.failure.Some? ==> |r.tokens| < |xs| && ser.serialize(options, xs[|r.tokens|]) == Err(r.failure.value)
    ensures forall k :: 0 <= k < |r.tokens| ==> ser.serialize(options, xs[k]) == Ok(r.tokens[k])
  {
    if xs == [] then Emitted([], None)
    else
      var init := SerializeAll(ser, options, xs[..|xs| - 1]);
      if init.failure.Some? then init
      else
        match ser.serialize(options, xs[|xs| - 1])
        case Err(e) => Emitted(init.tokens, Some(e))
        case Ok(t) => Emitted(init.tokens + [t], None)
  }

  /** What `Write` puts on the writer for a value: the null token for `null`; otherwise
      nothing if the item converter cannot be built, else `StartArray` and the elements,
      closed by `EndArray` unless an element failed. */
  function WriteValue<T>(c: ItemConverter, ser: ElementSerializer<T>, options: OptionsView, value: Option<seq<T>>): (r: Emitted)
    ensures value.None? ==> r == Emitted([Null], None)
    ensures value.Some? && !c.converterType.hasParameterlessConstructor ==>
      r == Emitted([], Some(MissingMethodException(c.converterType.fullName)))
    ensures value.Some? && r.failure.None? ==>
      |r.tokens| == |value.value| + 2 && r.tokens[0] == StartArray && r.tokens[|r.tokens| - 1] == EndArray
    ensures value.Some? && r.failure.Some? && r.tokens != [] ==>
      r.tokens[0] == StartArray && |r.tokens| <= |value.value|
  {
    match value
    case None => Emitted([Null], None)
    case Some(xs) =>
      match CreateInstance(c.converterType)
      case Err(e) => Emitted([], Some(e))
      case Ok(instance) =>
        var s := SerializeAll(ser, ElementOptions(options, instance), xs);
        if s.failure.None? then Emitted([StartArray] + s.tokens + [EndArray], None)
        else Emitted([StartArray] + s.tokens, s.failure)
  }

  /** `Read`: on `Null`, `null` and the reader stays; otherwise every token up to the first
      `EndArray` that is not `StartArray` is deserialized into the list, and the reader ends
      on that `EndArray`; the first element that fails ends the read with its exception.
      The loop ends only if an `EndArray` or a failing element lies ahead. */
  method Read<T>(c: ItemConverter, ser: ElementSerializer<T>, reader: JsonReader, typeToConvert: TypeDescriptor, options: JsonSerializerOptions)
    returns (r: Result<Option<seq<T>>, Exception>)
    requires reader.Valid()
    requires reader.TokenType() != Null && c.converterType.hasParameterlessConstructor ==>
      exists k :: reader.position <= k < |reader.tokens| &&
        (reader.tokens[k] == EndArray ||
         (reader.tokens[k] != StartArray &&
          ser.deserialize(ElementOptions(options.View(), c.converterType), reader.tokens[k]).Err?))
    modifies reader
    ensures reader.Valid()
    ensures r == ReadValue(c, ser, options.View(), reader.tokens, old(reader.position))
    ensures old(reader.position) <= reader.position
    ensures r.Ok? && r.value.None? ==> reader.position == old(reader.position)
    ensures r.Ok? && r.value.Some? ==>
      reader.position == EndArrayIndex(reader.tokens, old(reader.position)) && reader.TokenType() == EndArray
  {
    ghost var start := reader.position;
    if reader.TokenType() == Null {
      return Ok(None);
    }

    var elementOptions := new JsonSerializerOptions.Copy(options);
    elementOptions.ClearConverters();
    var instance := CreateInstance(c.converterType);
    if instance.Err? {
      return Err(instance.error);
    }
    elementOptions.AddConverter(instance.value);
    var opts := elementOptions.View();
    assert opts == ElementOptions(options.View(), instance.value);
    var items := ReadElements(ser, opts, reader);
    if items.Err? {
      return Err(items.error);
    }
    return Ok(Some(items.value));
  }

  /** The read loop: from the cursor on, every token before the first `EndArray` that is
      not `StartArray` is deserialized into the list, and the reader ends on that
      `EndArray`; the first element that fails ends the loop with its exception. */
  method ReadElements<T>(ser: ElementSerializer<T>, opts: OptionsView, reader: JsonReader) returns (r: Result<seq<T>, Exception>)
    requires reader.Valid()
    requires exists k :: (reader.position <= k < |reader.tokens| &&
      (reader.tokens[k] == EndArray || (reader.tokens[k] != StartArray && ser.deserialize(opts, reader.tokens[k]).Err?)))
    modifies reader
    ensures reader.Valid()
    ensures r == ReadItems(ser, opts, reader.tokens, old(reader.position))
    ensures old(reader.position) <= reader.position
    ensures r.Ok? ==> reader.position == EndArrayIndex(reader.tokens, old(reader.position)) && reader.TokenType() == EndArray
  {
    ghost var start := reader.position;
    ghost var tokens := reader.tokens;
    ghost var last :| start <= last < |tokens| &&
      (tokens[last] == EndArray || (tokens[last] != StartArray && ser.deserialize(opts, tokens[last]).Err?));

    var items: seq<T> := [];
    if ReadLoop(ser, opts, tokens, start).Ok? {
      assert [] + ReadLoop(ser, opts, tokens, start).value == ReadLoop(ser, opts, tokens, start).value;
    }
    while reader.TokenType() != EndArray
      invariant reader.Valid() && start <= reader.position <= last
      invariant forall j :: start <= j < reader.position ==> tokens[j] != EndArray
      invariant ReadLoop(ser, opts, tokens, start) == Prepend(items, ReadLoop(ser, opts, tokens, reader.position))
      decreases last - reader.position
    {
      var t := reader.TokenType();
      ReadLoopStep(ser, opts, tokens, start, reader.position, items);
      if t != StartArray {
        var x := ser.deserialize(opts, t);
        if x.Err? {
          ReadLoopIsReadItems(ser, opts, tokens, start);
          return Err(x.error);
        }
        items := items + [x.value];
      }
      var _ := reader.Read();
    }
    assert items + [] == items;
    ReadLoopIsReadItems(ser, opts, tokens, start);
    FirstEndArrayAt(tokens, start, reader.position);
    return Ok(items);
  }

  /** `Write`: `ArgumentNullException` for a missing writer before anything is written;
      the null token alone for `null`; otherwise `StartArray`, one serialized element per
      item in order, and `EndArray`. An exception stops the write where it is thrown and
      leaves what was written before it on the writer. */
  method Write<T>(c: ItemConverter, ser: ElementSerializer<T>, writer: JsonWriter?, value: Option<seq<T>>, options: JsonSerializerOptions)
    returns (r: Outcome<Exception>)
    modifies writer
    ensures writer == null ==> r == Fail(ArgumentNullException("writer"))
    ensures writer != null ==>
      var w := WriteValue(c, ser, options.View(), value);
      writer.output == old(writer.output) + w.tokens &&
      r == (if w.failure.None? then Pass else Fail(w.failure.value))
  {
    if writer == null {
      return Fail(ArgumentNullException("writer"));
    }

    if value.None? {
      writer.WriteNullValue();
      return Pass;
    }

    var elementOptions := new JsonSerializerOptions.Copy(options);
    elementOptions.ClearConverters();
    var instance := CreateInstance(c.converterType);
    if instance.Err? {
      return Fail(instance.error);
    }
    elementOptions.AddConverter(instance.value);
    var opts := elementOptions.View();
    assert opts == ElementOptions(options.View(), instance.value);

    writer.WriteStartArray();
    var failure := WriteElements(ser, opts, writer, value.value);
    if failure.Some? {
      return Fail(failure.value);
    }
    writer.WriteEndArray();
    return Pass;
  }

  /** The write loop: every item serialized in order, up to the first one that fails. */
  method WriteElements<T>(ser: ElementSerializer<T>, opts: OptionsView, writer: JsonWriter, xs: seq<T>) returns (failure: Option<Exception>)
    modifies writer
    ensures writer.output == old(writer.output) + SerializeAll(ser, opts, xs).tokens
    ensures failure == SerializeAll(ser, opts, xs).failure
  {
    var i := 0;
    while i < |xs|
      invariant 0 <= i <= |xs|
      invariant SerializeAll(ser, opts, xs[..i]).failure.None?
      invariant writer.output == old(writer.output) + SerializeAll(ser, opts, xs[..i]).tokens
    {
      assert xs[..i + 1][..i] == xs[..i];
      var t := ser.serialize(opts, xs[i]);
      if t.Err? {
        SerializeFailsAt(ser, opts, xs, i + 1);
        return Some(t.error);
      }
      writer.WriteTokens([t.value]);
      i := i + 1;
    }
    assert xs[..i] == xs;
    return None;
  }

  /** One more element token: decoded after the earlier ones. */
  lemma DecodeAllStep<T>(ser: ElementSerializer<T>, options: OptionsView, es: seq<Token>, t: Token)
    ensures DecodeAll(ser, options, es + [t]) ==
      match DecodeAll(ser, options, es)
      case Err(e) => Err(e)
      case Ok(xs) =>
        match ser.deserialize(options, t)
        case Err(e) => Err(e)
        case Ok(x) => Ok(xs + [x])
  {
    assert (es + [t])[..|es|] == es;
  }

  /** One turn of the read loop at `p`: a `StartArray` is skipped, an element is read
      after the earlier ones, and a failing element ends the loop with its exception. */
  lemma ReadLoopStep<T>(ser: ElementSerializer<T>, options: OptionsView, ts: seq<Token>, start: nat, p: nat, items: seq<T>)
    requires start <= p < |ts| && ts[p] != EndArray
    requires ReadLoop(ser, options, ts, start) == Prepend(items, ReadLoop(ser, options, ts, p))
    ensures ts[p] == StartArray ==>
      ReadLoop(ser, options, ts, start) == Prepend(items, ReadLoop(ser, options, ts, p + 1))
    ensures ts[p] != StartArray && ser.deserialize(options, ts[p]).Ok? ==>
      ReadLoop(ser, options, ts, start) == Prepend(items + [ser.deserialize(options, ts[p]).value], ReadLoop(ser, options, ts, p + 1))
    ensures ts[p] != StartArray && ser.deserialize(options, ts[p]).Err? ==>
      ReadLoop(ser, options, ts, start) == Err(ser.deserialize(options, ts[p]).error)
  {
    if ts[p] != StartArray && ser.deserialize(options, ts[p]).Ok? {
      var x := ser.deserialize(options, ts[p]).value;
      var rest := ReadLoop(ser, options, ts, p + 1);
      if rest.Ok? {
        assert items + ([x] + rest.value) == items + [x] + rest.value;
      }
    }
  }

  /** The loop and the first-`EndArray` description agree: reading from the cursor on is
      deserializing the element tokens before the first `EndArray`. */
  lemma {:induction false} ReadLoopIsReadItems<T>(ser: ElementSerializer<T>, options: OptionsView, ts: seq<Token>, p: nat)
    requires p <= |ts|
    ensures ReadLoop(ser, options, ts, p) == ReadItems(ser, options, ts, p)
    decreases |ts| - p
  {
    if p < |ts| && ts[p] != EndArray {
      ReadLoopIsReadItems(ser, options, ts, p + 1);
      var k := EndArrayIndex(ts, p + 1);
      assert EndArrayIndex(ts, p) == k;
      ElementsBetweenSplit(ts, p, p + 1, k);
      if ts[p] != StartArray {
        var t := ts[p];
        var rest := ElementsBetween(ts, p + 1, k);
        assert ElementsBetween(ts, p, p + 1) == [t];
        assert ElementsBetween(ts, p, k) == [t] + rest;
        DecodeAllStep(ser, options, [], t);
        assert [] + [t] == [t];
        DecodeAllAppend(ser, options, [t], rest);
        match ser.deserialize(options, t)
        case Err(_) =>
        case Ok(x) => assert [] + [x] == [x];
      } else {
        assert ElementsBetween(ts, p, k) == ElementsBetween(ts, p + 1, k);
      }
    }
  }

  /** Once an element fails, the tokens after it do not change the outcome. */
  lemma {:induction false} ReadFailsAt<T>(ser: ElementSerializer<T>, options: OptionsView, ts: seq<Token>, start: nat, p: nat, stop: nat)
    requires start <= p <= stop <= |ts|
    requires DecodeAll(ser, options, ElementsBetween(ts, start, p)).Err?
    ensures DecodeAll(ser, options, ElementsBetween(ts, start, stop)) == DecodeAll(ser, options, ElementsBetween(ts, start, p))
    decreases stop - p
  {
    if p < stop {
      ReadFailsAt(ser, options, ts, start, p, stop - 1);
      if ts[stop - 1] != StartArray {
        DecodeAllStep(ser, options, ElementsBetween(ts, start, stop - 1), ts[stop - 1]);
      }
    }
  }

  /** Selecting element tokens splits at any point in between. */
  lemma {:induction false} ElementsBetweenSplit(ts: seq<Token>, i: nat, j: nat, k: nat)
    requires i <= j <= k <= |ts|
    ensures ElementsBetween(ts, i, k) == ElementsBetween(ts, i, j) + ElementsBetween(ts, j, k)
    decreases k - j
  {
    if j < k {
      ElementsBetweenSplit(ts, i, j, k - 1);
    }
  }

  /** Without `StartArray` tokens, every token carries an element. */
  lemma {:induction false} ElementsBetweenAll(ts: seq<Token>, i: nat, j: nat)
    requires i <= j <= |ts|
    requires forall k :: i <= k < j ==> ts[k] != StartArray
    ensures ElementsBetween(ts, i, j) == ts[i..j]
    decreases j - i
  {
    if i < j {
      ElementsBetweenAll(ts, i, j - 1);
      assert ts[i..j] == ts[i..j - 1] + [ts[j - 1]];
    }
  }

  /** The read loop stops at the first `EndArray`, whatever follows it. */
  lemma {:induction false} FirstEndArrayAt(ts: seq<Token>, i: nat, k: nat)
    requires i <= k < |ts| && ts[k] == EndArray
    requires forall j :: i <= j < k ==> ts[j] != EndArray
    ensures EndArrayIndex(ts, i) == k
    decreases k - i
  {
    if i < k {
      FirstEndArrayAt(ts, i + 1, k);
    }
  }

  /** Decoding in order: the elements of `a` are decoded before those of `b`, the first
      failure wins, and otherwise the results are concatenated. */
  lemma {:induction false} DecodeAllAppend<T>(ser: ElementSerializer<T>, options: OptionsView, a: seq<Token>, b: seq<Token>)
    ensures DecodeAll(ser, options, a + b) ==
      match DecodeAll(ser, options, a)
      case Err(e) => Err(e)
      case Ok(xs) =>
        match DecodeAll(ser, options, b)
        case Err(e) => Err(e)
        case Ok(ys) => Ok(xs + ys)
    decreases |b|
  {
    if b != [] {
      var ab := a + b;
      var b' := b[..|b| - 1];
      assert ab[..|ab| - 1] == a + b';
      DecodeAllAppend(ser, options, a, b');
      match DecodeAll(ser, options, a)
      case Err(_) =>
      case Ok(xs) =>
        match DecodeAll(ser, options, b')
        case Err(_) =>
        case Ok(ys) =>
          match ser.deserialize(options, b[|b| - 1])
          case Err(_) =>
          case Ok(y) => assert xs + ys + [y] == xs + (ys + [y]);
    } else {
      assert a + b == a;
      match DecodeAll(ser, options, a)
      case Err(_) =>
      case Ok(xs) => assert xs + [] == xs;
    }
  }

  /** Decoding succeeds exactly when every token decodes, and then yields each token's
      element at its own position. */
  lemma {:induction false} DecodeAllOk<T>(ser: ElementSerializer<T>, options: OptionsView, ts: seq<Token>)
    ensures DecodeAll(ser, options, ts).Ok? <==> forall i :: 0 <= i < |ts| ==> ser.deserialize(options, ts[i]).Ok?
    ensures DecodeAll(ser, options, ts).Ok? ==>
      forall i :: 0 <= i < |ts| ==> ser.deserialize(options, ts[i]) == Ok(DecodeAll(ser, options, ts).value[i])
  {
    if ts != [] {
      var init := ts[..|ts| - 1];
      DecodeAllOk(ser, options, init);
      assert forall i :: 0 <= i < |init| ==> init[i] == ts[i];
    }
  }

  /** A failure is the failure of some token all of whose predecessors decode. */
  lemma {:induction false} DecodeAllFirstError<T>(ser: ElementSerializer<T>, options: OptionsView, ts: seq<Token>)
    requires DecodeAll(ser, options, ts).Err?
    ensures exists i ::
      (0 <= i < |ts| &&
       ser.deserialize(options, ts[i]) == Err(DecodeAll(ser, options, ts).error) &&
       forall j :: 0 <= j < i ==> ser.deserialize(options, ts[j]).Ok?)
  {
    var init := ts[..|ts| - 1];
    assert forall i :: 0 <= i < |init| ==> init[i] == ts[i];
    if DecodeAll(ser, options, init).Err? {
      DecodeAllFirstError(ser, options, init);
    } else {
      DecodeAllOk(ser, options, init);
      assert ser.deserialize(options, ts[|ts| - 1]) == Err(DecodeAll(ser, options, ts).error);
    }
  }

  /** Once an item fails, the items after it are not serialized. */
  lemma {:induction false} SerializeFailsAt<T>(ser: ElementSerializer<T>, options: OptionsView, xs: seq<T>, j: nat)
    requires j <= |xs|
    requires SerializeAll(ser, options, xs[..j]).failure.Some?
    ensures SerializeAll(ser, options, xs) == SerializeAll(ser, options, xs[..j])
    decreases |xs|
  {
    if j < |xs| {
      var init := xs[..|xs| - 1];
      assert init[..j] == xs[..j];
      SerializeFailsAt(ser, options, init, j);
    } else {
      assert xs[..j] == xs;
    }
  }

  /** Given the element round-trip law, every item is written and the element tokens
      decode back to the items. */
  lemma {:induction false} DecodeSerialized<T>(ser: ElementSerializer<T>, options: OptionsView, xs: seq<T>)
    requires forall x :: ser.serialize(options, x).Ok? && ser.deserialize(options, ser.serialize(options, x).value) == Ok(x)
    ensures SerializeAll(ser, options, xs).failure.None?
    ensures DecodeAll(ser, options, SerializeAll(ser, options, xs).tokens) == Ok(xs)
  {
    if xs != [] {
      var init := xs[..|xs| - 1];
      DecodeSerialized(ser, options, init);
      var ts := SerializeAll(ser, options, xs).tokens;
      assert ts == SerializeAll(ser, options, init).tokens + [ser.serialize(options, xs[|xs| - 1]).value];
      assert ts[..|ts| - 1] == SerializeAll(ser, options, init).tokens;
      assert init + [xs[|xs| - 1]] == xs;
    }
  }

  /** Round trip: what `Write` writes, `Read` reads back, whatever follows it, provided
      every element is written without failure as a token that is neither `StartArray` nor
      `EndArray` and survives its own round trip under the element options. */
  lemma RoundTrip<T>(c: ItemConverter, ser: ElementSerializer<T>, options: OptionsView, value: Option<seq<T>>, rest: seq<Token>)
    requires c.converterType.hasParameterlessConstructor
    requires var opts := ElementOptions(options, c.converterType);
      forall x :: ser.serialize(opts, x).Ok? && ser.deserialize(opts, ser.serialize(opts, x).value) == Ok(x) &&
        ser.serialize(opts, x).value != StartArray && ser.serialize(opts, x).value != EndArray
    ensures WriteValue(c, ser, options, value).failure.None?
    ensures ReadValue(c, ser, options, WriteValue(c, ser, options, value).tokens + rest, 0) == Ok(value)
  {
    var opts := ElementOptions(options, c.converterType);
    if value.Some? {
      var xs := value.value;
      DecodeSerialized(ser, opts, xs);
      var s := SerializeAll(ser, opts, xs).tokens;
      forall k | 0 <= k < |s| ensures s[k] != StartArray && s[k] != EndArray {
        assert ser.serialize(opts, xs[k]) == Ok(s[k]);
      }
      var ts := [StartArray] + s + [EndArray] + rest;
      assert WriteValue(c, ser, options, value).tokens + rest == ts;
      WrittenArrayElements(s, rest);
      assert ReadItems(ser, opts, ts, 0) == Ok(xs);
    }
  }

  /** In a written array, the read loop stops at the closing `EndArray` and takes every
      element token between the brackets. */
  lemma WrittenArrayElements(s: seq<Token>, rest: seq<Token>)
    requires forall k :: 0 <= k < |s| ==> s[k] != StartArray && s[k] != EndArray
    ensures var ts := [StartArray] + s + [EndArray] + rest;
      EndArrayIndex(ts, 0) == |s| + 1 && ElementsBetween(ts, 0, |s| + 1) == s
  {
    var ts := [StartArray] + s + [EndArray] + rest;
    WrittenArrayUnits(s, rest);
    FirstEndArrayAt(ts, 0, |s| + 1);
    WrittenArrayBody(s, rest);
  }

  /** Between the brackets of a written array, every token is an element token. */
  lemma WrittenArrayBody(s: seq<Token>, rest: seq<Token>)
    requires forall k :: 0 <= k < |s| ==> s[k] != StartArray && s[k] != EndArray
    ensures var ts := [StartArray] + s + [EndArray] + rest;
      |s| + 1 <= |ts| && ElementsBetween(ts, 0, |s| + 1) == s
  {
    var ts := [StartArray] + s + [EndArray] + rest;
    WrittenArrayUnits(s, rest);
    ElementsBetweenAll(ts, 1, |s| + 1);
    ElementsBetweenSplit(ts, 0, 1, |s| + 1);
    assert ElementsBetween(ts, 0, 1) == [];
    assert ts[1..|s| + 1] == s;
  }

  /** The units of a written array: the opening bracket, the element tokens, the closing
      bracket. */
  lemma WrittenArrayUnits(s: seq<Token>, rest: seq<Token>)
    requires forall k :: 0 <= k < |s| ==> s[k] != StartArray && s[k] != EndArray
    ensures var ts := [StartArray] + s + [EndArray] + rest;
      && |s| + 1 < |ts| && ts[0] == StartArray && ts[|s| + 1] == EndArray
      && (forall k :: 0 <= k < |s| + 1 ==> ts[k] != EndArray)
      && (forall k :: 1 <= k < |s| + 1 ==> ts[k] != StartArray)
  {
    var ts := [StartArray] + s + [EndArray] + rest;
    forall k | 1 <= k < |s| + 1 ensures ts[k] == s[k - 1] {
    }
  }

  /** `null` is written as the null token and read back as `null`, whatever the item
      converter type: neither direction builds it. */
  lemma NullRoundTrip<T>(c: ItemConverter, ser: ElementSerializer<T>, options: OptionsView, rest: seq<Token>)
    ensures WriteValue(c, ser, options, None) == Emitted([Null], None)
    ensures ReadValue(c, ser, options, [Null] + rest, 0) == Ok(None)
  {
  }

  /** `null` and the empty list are told apart in both directions. */
  lemma NullAndEmptyDiffer<T>(c: ItemConverter, ser: ElementSerializer<T>, options: OptionsView, rest: seq<Token>)
    requires c.converterType.hasParameterlessConstructor
    ensures WriteValue(c, ser, options, None) == Emitted([Null], None)
    ensures WriteValue(c, ser, options, Some([])) == Emitted([StartArray, EndArray], None)
    ensures ReadValue(c, ser, options, [Null] + rest, 0) == Ok(None)
    ensures ReadValue(c, ser, options, [StartArray, EndArray] + rest, 0) == Ok(Some([]))
  {
    assert [StartArray] + SerializeAll(ser, ElementOptions(options, c.converterType), []).tokens + [EndArray] == [StartArray, EndArray];
    FirstEndArrayAt([StartArray, EndArray] + rest, 0, 1);
  }
}
