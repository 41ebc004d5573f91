/** UTF-16 as the .NET `Rune.DecodeFromUtf16` routine reads it: one Unicode
    scalar value at a time, a surrogate pair (section 2.2 of RFC 2781) being a
    single step of two code units. */
module Utf16 {

  /** A UTF-16 code unit: an unsigned 16-bit value (a C# `char`). */
  type CodeUnit = u: int | 0 <= u < 0x1_0000

  /** U+FFFD, the value a failed decoding step reports. */
  const ReplacementChar := 0xFFFD

  predicate IsHighSurrogate(u: int) { 0xD800 <= u <= 0xDBFF }

  predicate IsLowSurrogate(u: int) { 0xDC00 <= u <= 0xDFFF }

  /** A Unicode scalar value: a code point that is not a surrogate. */
  predicate IsScalarValue(v: int) { 0 <= v <= 0x10_FFFF && !(0xD800 <= v <= 0xDFFF) }

  /** System.Buffers.OperationStatus, without DestinationTooSmall, which decoding never reports. */
  datatype OperationStatus = Done | NeedMoreData | InvalidData

  /** The three results of one decoding step: status, the `Rune` read and `charsConsumed`. */
  datatype Decoded = Decoded(status: OperationStatus, scalar: int, charsConsumed: nat)

  /** The scalar a high surrogate `hi` and a low surrogate `lo` stand for (RFC 2781, section 2.2). */
  function CombineSurrogates(hi: int, lo: int): (v: int)
    requires IsHighSurrogate(hi) && IsLowSurrogate(lo)
    ensures IsScalarValue(v) && v >= 0x1_0000
  {
    0x1_0000 + (hi - 0xD800) * 0x400 + (lo - 0xDC00)
  }

  /** The code units of scalar `v` (RFC 2781, section 2.1). */
  function EncodeToUtf16(v: int): (r: seq<CodeUnit>)
    requires IsScalarValue(v)
    ensures |r| == if v < 0x1_0000 then 1 else 2
  {
    if v < 0x1_0000 then [v]
    else
      var u := v - 0x1_0000;
      [0xD800 + u / 0x400, 0xDC00 + u % 0x400]
  }

  /** One step of `Rune.DecodeFromUtf16`: decodes the scalar at the head of `s`.
      A non-surrogate unit is one step, a high surrogate followed by a low one
      is one step of two units; a lone low surrogate, or a high surrogate
      followed by anything else, is invalid; a high surrogate at the very end
      (or nothing at all) needs more data. */
  function DecodeFromUtf16(s: seq<CodeUnit>): (r: Decoded)
    ensures r.status == Done ==>
      1 <= r.charsConsumed <= 2 && r.charsConsumed <= |s| && IsScalarValue(r.scalar)
    ensures r.status != Done ==> r.scalar == ReplacementChar
    ensures r.status == NeedMoreData <==> s == [] || (|s| == 1 && IsHighSurrogate(s[0]))
    ensures r.status == InvalidData <==>
      |s| > 0 && (IsLowSurrogate(s[0]) || (IsHighSurrogate(s[0]) && |s| > 1 && !IsLowSurrogate(s[1])))
  {
    if |s| == 0 then Decoded(NeedMoreData, ReplacementChar, 0)
    else if !IsHighSurrogate(s[0]) && !IsLowSurrogate(s[0]) then Decoded(Done, s[0], 1)
    else if 1 < |s| then
      if IsHighSurrogate(s[0]) && IsLowSurrogate(s[1]) then Decoded(Done, CombineSurrogates(s[0], s[1]), 2)
      else Decoded(InvalidData, ReplacementChar, 1)
    else if IsHighSurrogate(s[0]) then Decoded(NeedMoreData, ReplacementChar, |s|)
    else Decoded(InvalidData, ReplacementChar, 1)
  }

  /** Decoding the encoding of a scalar, whatever follows it, yields that scalar in one step. */
  lemma DecodeOfEncode(v: int, rest: seq<CodeUnit>)
    requires IsScalarValue(v)
    ensures DecodeFromUtf16(EncodeToUtf16(v) + rest) == Decoded(Done, v, |EncodeToUtf16(v)|)
  {
    var s := EncodeToUtf16(v) + rest;
    if v >= 0x1_0000 {
      var u := v - 0x1_0000;
      assert s[0] == 0xD800 + u / 0x400 && s[1] == 0xDC00 + u % 0x400;
      assert u == (u / 0x400) * 0x400 + u % 0x400;
    }
  }

  /** A successful step consumed exactly the encoding of the scalar it read. */
  lemma EncodeOfDecode(s: seq<CodeUnit>)
    requires DecodeFromUtf16(s).status == Done
    ensures EncodeToUtf16(DecodeFromUtf16(s).scalar) == s[..DecodeFromUtf16(s).charsConsumed]
  {
    var d := DecodeFromUtf16(s);
    if d.charsConsumed == 2 {
      var u := d.scalar - 0x1_0000;
      assert u == (s[0] as int - 0xD800) * 0x400 + (s[1] as int - 0xDC00);
      assert u / 0x400 == s[0] as int - 0xD800 && u % 0x400 == s[1] as int - 0xDC00;
    }
  }

  /** A decoded scalar: where its code units start, its value and how many units it takes. */
  datatype Scalar = Scalar(start: nat, value: int, width: nat)

  /** The scalars of a buffer, read from some index up to `stop`, the first index at which a step does not succeed. */
  datatype Decoding = Decoding(scalars: seq<Scalar>, stop: nat)

  /** `sc` is a step `DecodeFromUtf16` takes successfully at `sc.start` in `s`. */
  ghost predicate StepAt(s: seq<CodeUnit>, sc: Scalar)
  {
    sc.start < |s| && DecodeFromUtf16(s[sc.start..]) == Decoded(Done, sc.value, sc.width)
  }

  /** Decodes `s` from index `i` one scalar at a time for as long as each step succeeds.
      `DecodedSteps` and `DecodingStops` state what the result is. */
  function DecodeScalars(s: seq<CodeUnit>, i: nat): (r: Decoding)
    requires i <= |s|
    ensures i <= r.stop <= |s|
    ensures r.scalars == [] <==> r.stop == i
    decreases |s| - i
  {
    var d := DecodeFromUtf16(s[i..]);
    if d.status != Done then Decoding([], i)
    else
      var tail := DecodeScalars(s, i + d.charsConsumed);
      Decoding([Scalar(i, d.scalar, d.charsConsumed)] + tail.scalars, tail.stop)
  }

  /** The decoded scalars are successful steps that follow each other without gap from `i`
      to `stop`: the first starts at `i`, each next one where the one before ends, and the
      last ends at `stop`. */
  lemma {:induction false} DecodedSteps(s: seq<CodeUnit>, i: nat, j: nat)
    requires i <= |s|
    requires j < |DecodeScalars(s, i).scalars|
    ensures var dec := DecodeScalars(s, i);
      var sc := dec.scalars[j];
      && StepAt(s, sc)
      && (j == 0 ==> sc.start == i)
      && (j + 1 < |dec.scalars| ==> dec.scalars[j + 1].start == sc.start + sc.width)
      && (j + 1 == |dec.scalars| ==> dec.stop == sc.start + sc.width)
    decreases |s| - i
  {
    var d := DecodeFromUtf16(s[i..]);
    var next := i + d.charsConsumed;
    var tail := DecodeScalars(s, next);
    assert DecodeScalars(s, i).scalars == [Scalar(i, d.scalar, d.charsConsumed)] + tail.scalars;
    if j == 0 {
      if 0 < |tail.scalars| {
        DecodedSteps(s, next, 0);
      }
    } else {
      DecodedSteps(s, next, j - 1);
    }
  }

  /** Decoding does not succeed at `stop` unless `stop` is the end of the buffer. */
  lemma {:induction false} DecodingStops(s: seq<CodeUnit>, i: nat)
    requires i <= |s|
    ensures var k := DecodeScalars(s, i).stop; k == |s| || DecodeFromUtf16(s[k..]).status != Done
    decreases |s| - i
  {
    var d := DecodeFromUtf16(s[i..]);
    if d.status == Done {
      DecodingStops(s, i + d.charsConsumed);
    }
  }

  /** Each decoded scalar occupies one or two units, two exactly when it starts with a
      high surrogate, and those units are its own encoding. */
  lemma ScalarUnits(s: seq<CodeUnit>, sc: Scalar)
    requires StepAt(s, sc)
    ensures 1 <= sc.width <= 2 && sc.start + sc.width <= |s|
    ensures sc.width == 2 <==> IsHighSurrogate(s[sc.start])
    ensures EncodeToUtf16(sc.value) == s[sc.start..sc.start + sc.width]
  {
    EncodeOfDecode(s[sc.start..]);
  }

  /** The unit at `k` cannot start a scalar: it is a lone low surrogate, or a high
      surrogate that the buffer does not follow with a low surrogate. */
  predicate Malformed(s: seq<CodeUnit>, k: nat)
    requires k < |s|
  {
    IsLowSurrogate(s[k]) || (IsHighSurrogate(s[k]) && (k + 1 == |s| || !IsLowSurrogate(s[k + 1])))
  }

  /** A step fails at `k` exactly when the unit there is malformed. */
  lemma FailsExactlyWhenMalformed(s: seq<CodeUnit>, k: nat)
    requires k < |s|
    ensures DecodeFromUtf16(s[k..]).status != Done <==> Malformed(s, k)
  {
    assert s[k..][0] == s[k];
    assert k + 1 < |s| ==> s[k..][1] == s[k + 1];
  }

  /** Decoding stops short of the end only at a malformed unit. */
  lemma StopIsMalformed(s: seq<CodeUnit>, i: nat)
    requires i <= |s|
    ensures var k := DecodeScalars(s, i).stop; k < |s| ==> Malformed(s, k)
  {
    DecodingStops(s, i);
    var k := DecodeScalars(s, i).stop;
    if k < |s| { FailsExactlyWhenMalformed(s, k); }
  }

  /** Every decoded scalar takes at least one unit and ends no later than `stop`. */
  lemma {:induction false} EndsBeforeStop(s: seq<CodeUnit>, i: nat, b: nat)
    requires i <= |s|
    requires b < |DecodeScalars(s, i).scalars|
    ensures var dec := DecodeScalars(s, i);
      dec.scalars[b].start < dec.scalars[b].start + dec.scalars[b].width <= dec.stop
    decreases |DecodeScalars(s, i).scalars| - b
  {
    DecodedSteps(s, i, b);
    if b + 1 < |DecodeScalars(s, i).scalars| {
      EndsBeforeStop(s, i, b + 1);
    }
  }

  /** Scalars are decoded at increasing positions, each ending no later than the next one starts. */
  lemma {:induction false} StartsIncrease(s: seq<CodeUnit>, i: nat, a: nat, b: nat)
    requires i <= |s|
    requires a < b < |DecodeScalars(s, i).scalars|
    ensures var sc := DecodeScalars(s, i).scalars; sc[a].start + sc[a].width <= sc[b].start
    decreases b - a
  {
    DecodedSteps(s, i, b - 1);
    if a < b - 1 {
      StartsIncrease(s, i, a, b - 1);
      EndsBeforeStop(s, i, b - 1);
    }
  }

  /** Every decoded scalar lies between the starting index and the stop. */
  lemma ScalarWithin(s: seq<CodeUnit>, i: nat, j: nat)
    requires i <= |s|
    requires j < |DecodeScalars(s, i).scalars|
    ensures var dec := DecodeScalars(s, i);
      i <= dec.scalars[j].start < dec.scalars[j].start + dec.scalars[j].width <= dec.stop
  {
    DecodedSteps(s, i, 0);
    if j > 0 { StartsIncrease(s, i, 0, j); }
    EndsBeforeStop(s, i, j);
  }

  /** The last unit of a decoded scalar is never a high surrogate. */
  lemma LastUnitNotHigh(s: seq<CodeUnit>, sc: Scalar)
    requires StepAt(s, sc)
    ensures sc.start + sc.width <= |s| && !IsHighSurrogate(s[sc.start + sc.width - 1])
  {
    var t := s[sc.start..];
    assert t[0] == s[sc.start];
    if |t| > 1 { assert t[1] == s[sc.start + 1]; }
  }

  /** A scalar decoded from the start never begins inside a surrogate pair. */
  lemma ScalarStartsOnBoundary(s: seq<CodeUnit>, j: nat)
    requires j < |DecodeScalars(s, 0).scalars|
    ensures var sc := DecodeScalars(s, 0).scalars[j];
      sc.start < |s| && (sc.start == 0 || !IsHighSurrogate(s[sc.start - 1]))
  {
    var sc := DecodeScalars(s, 0).scalars;
    DecodedSteps(s, 0, j);
    if j > 0 {
      DecodedSteps(s, 0, j - 1);
      LastUnitNotHigh(s, sc[j - 1]);
    }
  }

  /** Decoding from the start never stops inside a surrogate pair. */
  lemma StopOnBoundary(s: seq<CodeUnit>)
    ensures var k := DecodeScalars(s, 0).stop; k == 0 || !IsHighSurrogate(s[k - 1])
  {
    var sc := DecodeScalars(s, 0).scalars;
    if sc != [] {
      DecodedSteps(s, 0, |sc| - 1);
      LastUnitNotHigh(s, sc[|sc| - 1]);
    }
  }
}
