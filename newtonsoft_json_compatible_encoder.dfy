/** The JavaScript encoder that escapes like `UnsafeRelaxedJsonEscaping` except
    that it never escapes an emoji, as Newtonsoft.Json does not. */
module NewtonsoftJsonCompatibleEncoder {
  import opened Wrappers
  import opened Utf16

  /** What `TryEncodeUnicodeScalar` reports: whether the escaped form fitted the buffer,
      and the characters it wrote (`numberOfCharactersWritten` is their count). */
  datatype EncodeResult = EncodeResult(success: bool, written: seq<CodeUnit>)

  /** `JavaScriptEncoder.UnsafeRelaxedJsonEscaping`, seen only through the three members
      the encoder forwards to; its escape tables are not part of this model. */
  datatype DefaultEncoder = DefaultEncoder(
    willEncode: int -> bool,
    tryEncodeUnicodeScalar: (int, int) -> EncodeResult,
    maxOutputCharactersPerInputCharacter: int)

  /** The encoder: the emoji table (`UnicodeScalarHelper.IsUnicodeScalarAnEmoji`) and the
      default encoder it wraps, both left uninterpreted. */
  datatype Encoder = Encoder(isUnicodeScalarAnEmoji: int -> bool, defaultEncoder: DefaultEncoder)

  /** The maximum output length per input character is the default encoder's. */
  function MaxOutputCharactersPerInputCharacter(e: Encoder): (r: int)
    ensures r == e.defaultEncoder.maxOutputCharactersPerInputCharacter
  {
    e.defaultEncoder.maxOutputCharactersPerInputCharacter
  }

  /** Escaping a scalar is left entirely to the default encoder, emoji included: the
      override only changes whether a scalar is escaped, never how. */
  function TryEncodeUnicodeScalar(e: Encoder, unicodeScalar: int, bufferLength: int): (r: EncodeResult)
    ensures r == e.defaultEncoder.tryEncodeUnicodeScalar(unicodeScalar, bufferLength)
  {
    e.defaultEncoder.tryEncodeUnicodeScalar(unicodeScalar, bufferLength)
  }

  /** An emoji is never escaped, whatever the default encoder says; any other scalar is
      escaped exactly when the default encoder would escape it. */
  function WillEncode(e: Encoder, unicodeScalar: int): (r: bool)
    ensures e.isUnicodeScalarAnEmoji(unicodeScalar) ==> !r
    ensures !e.isUnicodeScalarAnEmoji(unicodeScalar) ==> r == e.defaultEncoder.willEncode(unicodeScalar)
  {
    if e.isUnicodeScalarAnEmoji(unicodeScalar) then false
    else e.defaultEncoder.willEncode(unicodeScalar)
  }

  /** The position in `scalars` of the first scalar the encoder escapes, if any. */
  function FirstEscaped(e: Encoder, scalars: seq<Scalar>): (r: Option<nat>)
    ensures r.Some? ==> r.value < |scalars| && WillEncode(e, scalars[r.value].value)
    ensures r.Some? ==> forall k :: 0 <= k < r.value ==> !WillEncode(e, scalars[k].value)
    ensures r.None? ==> forall k :: 0 <= k < |scalars| ==> !WillEncode(e, scalars[k].value)
  {
    if scalars == [] then None
    else if WillEncode(e, scalars[0].value) then Some(0)
    else match FirstEscaped(e, scalars[1..])
      case None => None
      case Some(k) => Some(k + 1)
  }

  /** What the scan must answer, stated on the scalars decoded from `i` on: the start of the
      first scalar to escape; otherwise the malformed unit where decoding stopped; and -1
      only when decoding reached the end with nothing to escape. */
  function ScanAnswer(e: Encoder, text: seq<CodeUnit>, i: nat): (r: int)
    requires i <= |text|
    ensures r == -1 || i <= r < |text|
  {
    var dec := DecodeScalars(text, i);
    match FirstEscaped(e, dec.scalars)
    case Some(j) => (ScalarWithin(text, i, j); dec.scalars[j].start)
    case None => if dec.stop == |text| then -1 else dec.stop
  }

  /** The specified result of `FindFirstCharacterToEncode` for a whole buffer. */
  function FirstCharacterToEncode(e: Encoder, text: seq<CodeUnit>): (r: int)
    ensures -1 <= r < |text|
    ensures text == [] ==> r == -1
  {
    ScanAnswer(e, text, 0)
  }

  /** Decoding from `i` reaches `j` through successful steps whose scalars are all left unescaped. */
  ghost predicate ScannedClean(e: Encoder, text: seq<CodeUnit>, i: nat, j: nat)
    decreases j - i
  {
    i == j ||
    (i < j && i <= |text| &&
     var d := DecodeFromUtf16(text[i..]);
     d.status == Done && !WillEncode(e, d.scalar) && i + d.charsConsumed <= j &&
     ScannedClean(e, text, i + d.charsConsumed, j))
  }

  /** A clean scan extends by one more unescaped scalar. */
  lemma {:induction false} ScannedCleanExtends(e: Encoder, text: seq<CodeUnit>, i: nat, j: nat)
    requires j <= |text| && ScannedClean(e, text, i, j)
    requires DecodeFromUtf16(text[j..]).status == Done && !WillEncode(e, DecodeFromUtf16(text[j..]).scalar)
    ensures ScannedClean(e, text, i, j + DecodeFromUtf16(text[j..]).charsConsumed)
    decreases j - i
  {
    if i < j {
      ScannedCleanExtends(e, text, i + DecodeFromUtf16(text[i..]).charsConsumed, j);
    }
  }

  /** Skipping a clean stretch does not change the answer. */
  lemma {:induction false} CleanPrefixKeepsAnswer(e: Encoder, text: seq<CodeUnit>, i: nat, j: nat)
    requires j <= |text| && ScannedClean(e, text, i, j)
    ensures ScanAnswer(e, text, i) == ScanAnswer(e, text, j)
    decreases j - i
  {
    if i < j {
      var d := DecodeFromUtf16(text[i..]);
      var next := i + d.charsConsumed;
      CleanPrefixKeepsAnswer(e, text, next, j);
      var tail := DecodeScalars(text, next).scalars;
      var all := DecodeScalars(text, i).scalars;
      assert all == [Scalar(i, d.scalar, d.charsConsumed)] + tail;
      assert all[1..] == tail;
      match FirstEscaped(e, tail)
      case Some(k) => assert all[k + 1] == tail[k];
      case None =>
    }
  }

  /** An answer of -1 means decoding from `i` reaches the end cleanly. */
  lemma {:induction false} NoneMeansClean(e: Encoder, text: seq<CodeUnit>, i: nat)
    requires i <= |text| && ScanAnswer(e, text, i) == -1
    ensures ScannedClean(e, text, i, |text|)
    decreases |text| - i
  {
    var d := DecodeFromUtf16(text[i..]);
    if i < |text| {
      var all := DecodeScalars(text, i).scalars;
      if d.status != Done {
        assert false;
      }
      var next := i + d.charsConsumed;
      var tail := DecodeScalars(text, next).scalars;
      assert all == [Scalar(i, d.scalar, d.charsConsumed)] + tail;
      assert all[1..] == tail;
      if WillEncode(e, d.scalar) {
        assert false;
      }
      match FirstEscaped(e, tail)
      case Some(k) =>
        assert false;
      case None =>
        NoneMeansClean(e, text, next);
    }
  }

  /** The scan of `FindFirstCharacterToEncode`: walk the buffer one scalar at a time,
      stopping at the first scalar to escape or where decoding does not succeed; -1 when
      the walk reached the end of the buffer. */
  method FindFirstCharacterToEncode(e: Encoder, text: seq<CodeUnit>) returns (r: int)
    ensures r == FirstCharacterToEncode(e, text)
    ensures -1 <= r < |text|
    ensures r == -1 <==> ScannedClean(e, text, 0, |text|)
    ensures r != -1 ==>
      ScannedClean(e, text, 0, r) &&
      var d := DecodeFromUtf16(text[r..]);
      d.status != Done || WillEncode(e, d.scalar)
  {
    var idx := 0;
    var d := DecodeFromUtf16(text[idx..]);
    while d.status == Done
      invariant 0 <= idx <= |text|
      invariant d == DecodeFromUtf16(text[idx..])
      invariant ScannedClean(e, text, 0, idx)
      decreases |text| - idx
    {
      if WillEncode(e, d.scalar) {
        // found a scalar that needs escaping
        break;
      }
      ScannedCleanExtends(e, text, 0, idx);
      idx := idx + d.charsConsumed;
      d := DecodeFromUtf16(text[idx..]);
    }
    CleanPrefixKeepsAnswer(e, text, 0, idx);
    if d.status == Done {
      DecodedSteps(text, idx, 0);
    }
    if idx == |text| {
      return -1;
    }
    if ScannedClean(e, text, 0, |text|) {
      CleanPrefixKeepsAnswer(e, text, 0, |text|);
    }
    return idx;
  }

  /** A scalar that is escaped and follows only unescaped ones is the first escaped one. */
  lemma {:induction false} FirstEscapedAt(e: Encoder, scalars: seq<Scalar>, j: nat)
    requires j < |scalars| && WillEncode(e, scalars[j].value)
    requires forall k :: 0 <= k < j ==> !WillEncode(e, scalars[k].value)
    ensures FirstEscaped(e, scalars) == Some(j)
  {
    if j > 0 {
      FirstEscapedAt(e, scalars[1..], j - 1);
    }
  }

  /** With nothing to escape, there is no first escaped scalar. */
  lemma {:induction false} NoneEscaped(e: Encoder, scalars: seq<Scalar>)
    requires forall k :: 0 <= k < |scalars| ==> !WillEncode(e, scalars[k].value)
    ensures FirstEscaped(e, scalars) == None
  {
    if scalars != [] {
      NoneEscaped(e, scalars[1..]);
    }
  }

  /** -1 exactly when the whole buffer decodes to scalars none of which is escaped. */
  lemma NoneExactlyWhenClean(e: Encoder, text: seq<CodeUnit>)
    ensures FirstCharacterToEncode(e, text) == -1 <==>
      var dec := DecodeScalars(text, 0);
      dec.stop == |text| && forall j :: 0 <= j < |dec.scalars| ==> !WillEncode(e, dec.scalars[j].value)
  {
    var dec := DecodeScalars(text, 0);
    if dec.stop == |text| && forall j :: 0 <= j < |dec.scalars| ==> !WillEncode(e, dec.scalars[j].value) {
      NoneEscaped(e, dec.scalars);
    }
  }

  /** A non-negative answer is never inside a surrogate pair, every scalar before it is left
      unescaped, and at the answer either the scalar is escaped or the unit is malformed
      (a lone low surrogate, or a high surrogate without a low one after it). */
  lemma StopsAtEscapeOrMalformedUnit(e: Encoder, text: seq<CodeUnit>)
    ensures var r := FirstCharacterToEncode(e, text);
      var dec := DecodeScalars(text, 0);
      r >= 0 ==>
        (r == 0 || !IsHighSurrogate(text[r - 1])) &&
        (forall j :: 0 <= j < |dec.scalars| && dec.scalars[j].start < r ==> !WillEncode(e, dec.scalars[j].value)) &&
        ((DecodeFromUtf16(text[r..]).status == Done && WillEncode(e, DecodeFromUtf16(text[r..]).scalar)) || Malformed(text, r))
  {
    var r := FirstCharacterToEncode(e, text);
    var dec := DecodeScalars(text, 0);
    assert r == ScanAnswer(e, text, 0);
    match FirstEscaped(e, dec.scalars)
    case Some(j) =>
      DecodedSteps(text, 0, j);
      ScalarStartsOnBoundary(text, j);
      forall k | 0 <= k < |dec.scalars| && dec.scalars[k].start < r
        ensures !WillEncode(e, dec.scalars[k].value)
      {
        if k > j { StartsIncrease(text, 0, j, k); }
      }
    case None =>
      StopOnBoundary(text);
      StopIsMalformed(text, 0);
  }

  /** An emoji is never reported, even if the default encoder would escape it. */
  lemma EmojiNeverReported(e: Encoder, text: seq<CodeUnit>, j: nat)
    requires j < |DecodeScalars(text, 0).scalars|
    requires e.isUnicodeScalarAnEmoji(DecodeScalars(text, 0).scalars[j].value)
    ensures FirstCharacterToEncode(e, text) != DecodeScalars(text, 0).scalars[j].start
  {
    var dec := DecodeScalars(text, 0);
    assert FirstCharacterToEncode(e, text) == ScanAnswer(e, text, 0);
    EndsBeforeStop(text, 0, j);
    match FirstEscaped(e, dec.scalars)
    case Some(k) =>
      assert ScanAnswer(e, text, 0) == dec.scalars[k].start;
      ScalarWithin(text, 0, k);
      if k < j { StartsIncrease(text, 0, k, j); }
      if k > j { StartsIncrease(text, 0, j, k); }
    case None =>
  }

  /** The scan reports the start of the first scalar to escape; so 0 for a buffer whose first
      scalar is not an emoji and is one the default encoder escapes. */
  lemma ReportsFirstEscapedScalar(e: Encoder, text: seq<CodeUnit>, j: nat)
    requires j < |DecodeScalars(text, 0).scalars|
    requires !e.isUnicodeScalarAnEmoji(DecodeScalars(text, 0).scalars[j].value)
    requires e.defaultEncoder.willEncode(DecodeScalars(text, 0).scalars[j].value)
    requires forall k :: 0 <= k < j ==> !WillEncode(e, DecodeScalars(text, 0).scalars[k].value)
    ensures FirstCharacterToEncode(e, text) == DecodeScalars(text, 0).scalars[j].start
  {
    FirstEscapedAt(e, DecodeScalars(text, 0).scalars, j);
  }

  /** The default encoder on its own, with no scalar exempted. */
  function DefaultOnly(e: Encoder): (d: Encoder)
    ensures forall u :: WillEncode(d, u) == e.defaultEncoder.willEncode(u)
  {
    Encoder(_ => false, e.defaultEncoder)
  }

  /** Exempting emoji only ever moves the answer later: whenever this encoder reports an
      index, the default encoder alone reports one no later. */
  lemma NoEarlierThanDefault(e: Encoder, text: seq<CodeUnit>)
    ensures var r := FirstCharacterToEncode(e, text);
      var rd := FirstCharacterToEncode(DefaultOnly(e), text);
      r >= 0 ==> 0 <= rd <= r
  {
    var dec := DecodeScalars(text, 0);
    var d := DefaultOnly(e);
    assert FirstCharacterToEncode(e, text) == ScanAnswer(e, text, 0);
    assert FirstCharacterToEncode(d, text) == ScanAnswer(d, text, 0);
    match FirstEscaped(d, dec.scalars) {
      case Some(k) =>
        EndsBeforeStop(text, 0, k);
        match FirstEscaped(e, dec.scalars) {
          case Some(j) =>
            assert ScanAnswer(e, text, 0) == dec.scalars[j].start;
            assert ScanAnswer(d, text, 0) == dec.scalars[k].start;
            if k < j { StartsIncrease(text, 0, k, j); }
          case None =>
        }
      case None =>
      NoneEscaped(e, dec.scalars);
    }
  }
}
