/** `TIntStringValue`, generated by Thrift 0.10.0: field 1 `intValue`, an i32
    of DEFAULT requiredness with an isset bit, and field 2 `stringValue`, an
    OPTIONAL string whose presence is its non-nullness.

    The generated code treats the isset bit of `intValue` inconsistently:
    `equals` and the standard writer ignore it, while `compareTo` and the
    tuple scheme honour it. The lemmas below pin down each side.
 */
module TIntStringValueDto {
  import opened JavaTypes
  import opened Wire

  /** `_Fields`, in declared order. */
  datatype Field = IntValueField | StringValueField

  /** `_Fields.getThriftFieldId`. */
  function ThriftId(f: Field): Int16 {
    match f
    case IntValueField => 1
    case StringValueField => 2
  }

  /** `_Fields.findByThriftId`: the field with that id, or null. */
  function FindByThriftId(id: int): (r: Option<Field>)
    ensures r.Some? <==> 1 <= id <= 2
    ensures forall f :: r == Some(f) <==> ThriftId(f) as int == id
  {
    match id
    case 1 => Some(IntValueField)
    case 2 => Some(StringValueField)
    case _ => None
  }

  /** `stringValue` is a nullable reference: `None` is null, which is also
      what "not set" means for it. */
  datatype TIntStringValue = TIntStringValue(intValue: Int32, intValueIsSet: bool, stringValue: Option<JString>)

  /** `isSetStringValue()`: non-null. */
  predicate IsSetStringValue(t: TIntStringValue) {
    t.stringValue.Some?
  }

  /** `isSet(field)`. */
  predicate IsSet(t: TIntStringValue, f: Field) {
    match f
    case IntValueField => t.intValueIsSet
    case StringValueField => IsSetStringValue(t)
  }

  /** The default constructor. */
  function New(): (r: TIntStringValue)
    ensures r.intValue == 0 && !r.intValueIsSet && !IsSetStringValue(r)
  {
    TIntStringValue(0, false, None)
  }

  /** `TIntStringValue(int intValue)`. */
  function OfInt(i: Int32): (r: TIntStringValue)
    ensures r.intValue == i && r.intValueIsSet && !IsSetStringValue(r)
  {
    New().(intValue := i, intValueIsSet := true)
  }

  /** `setIntValue(i)`: stores and marks present. */
  function SetIntValue(t: TIntStringValue, i: Int32): (r: TIntStringValue)
    ensures r.intValue == i && r.intValueIsSet && r.stringValue == t.stringValue
  {
    t.(intValue := i, intValueIsSet := true)
  }

  /** `setIntValueIsSet(b)`: flips only the isset bit. */
  function SetIntValueIsSet(t: TIntStringValue, b: bool): (r: TIntStringValue)
    ensures r.intValueIsSet == b && r.intValue == t.intValue && r.stringValue == t.stringValue
  {
    t.(intValueIsSet := b)
  }

  /** `unsetIntValue()`: clears the isset bit; the value stays. */
  function UnsetIntValue(t: TIntStringValue): (r: TIntStringValue)
    ensures !r.intValueIsSet && r.intValue == t.intValue && r.stringValue == t.stringValue
  {
    SetIntValueIsSet(t, false)
  }

  /** `setStringValue(s)`: the argument may be null, which unsets the field. */
  function SetStringValue(t: TIntStringValue, s: Option<JString>): (r: TIntStringValue)
    ensures IsSetStringValue(r) <==> s.Some?
    ensures r.stringValue == s && r.intValue == t.intValue && r.intValueIsSet == t.intValueIsSet
  {
    t.(stringValue := s)
  }

  /** `unsetStringValue()`: nulls the string. */
  function UnsetStringValue(t: TIntStringValue): (r: TIntStringValue)
    ensures !IsSetStringValue(r) && r.intValue == t.intValue && r.intValueIsSet == t.intValueIsSet
  {
    t.(stringValue := None)
  }

  /** `setStringValueIsSet(b)`: `false` nulls the string; `true` cannot
      conjure a value, so it changes nothing. */
  function SetStringValueIsSet(t: TIntStringValue, b: bool): (r: TIntStringValue)
    ensures b ==> r == t
    ensures !b ==> r == UnsetStringValue(t)
  {
    if !b then t.(stringValue := None) else t
  }

  /** `setFieldValue(INT_VALUE, value)`: a null value unsets the field. */
  function SetFieldValueInt(t: TIntStringValue, v: Option<Int32>): (r: TIntStringValue)
    ensures r.intValueIsSet <==> v.Some?
    ensures r.intValue == (if v.Some? then v.value else t.intValue)
    ensures r.stringValue == t.stringValue
  {
    match v
    case None => UnsetIntValue(t)
    case Some(i) => SetIntValue(t, i)
  }

  /** `setFieldValue(STRING_VALUE, value)`: a null value unsets the field. */
  function SetFieldValueString(t: TIntStringValue, v: Option<JString>): (r: TIntStringValue)
    ensures r.stringValue == v && r.intValue == t.intValue && r.intValueIsSet == t.intValueIsSet
  {
    match v
    case None => UnsetStringValue(t)
    case Some(s) => SetStringValue(t, Some(s))
  }

  /** `isSet(field)` follows `setFieldValue`: a null value leaves that field
      unset and a non-null one leaves it set, while the other field's
      presence is unchanged. */
  lemma IsSetAfterSetFieldValue(t: TIntStringValue, vi: Option<Int32>, vs: Option<JString>)
    ensures IsSet(SetFieldValueInt(t, vi), IntValueField) == vi.Some?
    ensures IsSet(SetFieldValueInt(t, vi), StringValueField) == IsSet(t, StringValueField)
    ensures IsSet(SetFieldValueString(t, vs), StringValueField) == vs.Some?
    ensures IsSet(SetFieldValueString(t, vs), IntValueField) == IsSet(t, IntValueField)
  {
  }

  /** `clear()`: `intValue` absent and 0, `stringValue` null. */
  function Clear(t: TIntStringValue): (r: TIntStringValue)
    ensures !r.intValueIsSet && r.intValue == 0 && !IsSetStringValue(r)
  {
    t.(intValueIsSet := false, intValue := 0, stringValue := None)
  }

  /** `deepCopy()`: the isset bit and `intValue`, and `stringValue` when it
      is set. */
  function DeepCopy(t: TIntStringValue): (r: TIntStringValue)
    ensures r == t
    ensures Equals(r, t) && CompareTo(r, t) == 0
  {
    CompareToZeroIff(t, t);
    TIntStringValue(t.intValue, t.intValueIsSet, if IsSetStringValue(t) then t.stringValue else None)
  }

  // ---------------------------------------------------------------- equals

  /** `equals(TIntStringValue)`. The generated code takes `intValue` as
      always present, so it compares the value and never the isset bit;
      `stringValue` must be present on both sides or neither, and equal when
      present. */
  predicate Equals(a: TIntStringValue, b: TIntStringValue) {
    && a.intValue == b.intValue
    && ((IsSetStringValue(a) || IsSetStringValue(b)) ==>
          IsSetStringValue(a) && IsSetStringValue(b) && a.stringValue.value == b.stringValue.value)
  }

  /** `equals` is equality of `intValue` and of the nullable `stringValue`;
      the isset bit of `intValue` plays no part. */
  lemma EqualsIgnoresIntPresence(a: TIntStringValue, b: TIntStringValue)
    ensures Equals(a, b) <==> a.intValue == b.intValue && a.stringValue == b.stringValue
    ensures Equals(a, b) <==> a.(intValueIsSet := false) == b.(intValueIsSet := false)
  {
  }

  /** Presence of `stringValue` matters even for the empty string: `5` with
      no string differs from `5` with `""`. */
  lemma EqualsIsPresenceSensitive(i: Int32)
    ensures !Equals(OfInt(i), SetStringValue(OfInt(i), Some([])))
  {
  }

  // ------------------------------------------------------------- compareTo

  /** `compareTo(TIntStringValue)`: `intValue` presence, then its value when
      this side has it, then `stringValue` presence, then `String.compareTo`
      when this side has it. */
  function CompareTo(a: TIntStringValue, b: TIntStringValue): int {
    var c1 := CompareBool(a.intValueIsSet, b.intValueIsSet);
    if c1 != 0 then c1 else
    var c2 := if a.intValueIsSet then CompareInt(a.intValue as int, b.intValue as int) else 0;
    if c2 != 0 then c2 else
    var c3 := CompareBool(IsSetStringValue(a), IsSetStringValue(b));
    if c3 != 0 then c3 else
    if IsSetStringValue(a) then CompareString(a.stringValue.value, b.stringValue.value) else 0
  }

  /** `compareTo` is 0 exactly when the `intValue` isset bits agree, the
      values agree if set, and the strings are equal or both null: unlike
      `equals` it honours the isset bit, and it ignores an unset value. */
  lemma CompareToZeroIff(a: TIntStringValue, b: TIntStringValue)
    ensures CompareTo(a, b) == 0 <==>
      && a.intValueIsSet == b.intValueIsSet
      && (a.intValueIsSet ==> a.intValue == b.intValue)
      && a.stringValue == b.stringValue
  {
    if IsSetStringValue(a) && IsSetStringValue(b) {
      CompareStringZeroIff(a.stringValue.value, b.stringValue.value);
    }
  }

  /** Swapping the operands of `compareTo` negates the result. */
  lemma CompareToAntisymmetric(a: TIntStringValue, b: TIntStringValue)
    ensures CompareTo(a, b) == -CompareTo(b, a)
  {
    if IsSetStringValue(a) && IsSetStringValue(b) {
      CompareStringAntisymmetric(a.stringValue.value, b.stringValue.value);
    }
  }

  /** `compareTo` orders values transitively. */
  lemma CompareToTransitive(a: TIntStringValue, b: TIntStringValue, c: TIntStringValue)
    requires CompareTo(a, b) < 0 && CompareTo(b, c) < 0
    ensures CompareTo(a, c) < 0
  {
    if IsSetStringValue(a) && IsSetStringValue(b) && IsSetStringValue(c) {
      var sa, sb, sc := a.stringValue.value, b.stringValue.value, c.stringValue.value;
      CompareStringZeroIff(sa, sb);
      CompareStringZeroIff(sb, sc);
      if CompareString(sa, sb) < 0 && CompareString(sb, sc) < 0 {
        CompareStringTransitive(sa, sb, sc);
      }
    }
  }

  /** Where a value stands in the `intValue` part of the order: unset below
      every set value, and set values by their `int` order. */
  function IntRank(t: TIntStringValue): int {
    if t.intValueIsSet then t.intValue as int + 0x8000_0001 else 0
  }

  /** `compareTo` is lexicographic: first the `intValue` rank, then a null
      string below a non-null one, then `String.compareTo` order. */
  lemma CompareToIsLexicographic(a: TIntStringValue, b: TIntStringValue)
    ensures CompareTo(a, b) < 0 <==>
      || IntRank(a) < IntRank(b)
      || (IntRank(a) == IntRank(b) && !IsSetStringValue(a) && IsSetStringValue(b))
      || (IntRank(a) == IntRank(b) && IsSetStringValue(a) && IsSetStringValue(b)
          && LexLess(a.stringValue.value, b.stringValue.value))
  {
    if IsSetStringValue(a) && IsSetStringValue(b) {
      CompareStringIsLexLess(a.stringValue.value, b.stringValue.value);
    }
  }

  /** When both sides have `intValue` set, `compareTo` and `equals` agree. */
  lemma CompareToAgreesWithEqualsWhenIntSet(a: TIntStringValue, b: TIntStringValue)
    requires a.intValueIsSet && b.intValueIsSet
    ensures CompareTo(a, b) == 0 <==> Equals(a, b)
  {
    CompareToZeroIff(a, b);
  }

  /** Otherwise they can disagree either way: the same value with and without
      its isset bit is `equals` but compares non-zero, and two different
      values that are both unset compare 0 but are not `equals`. */
  lemma CompareToInconsistentWithEquals(i: Int32, j: Int32)
    requires i != j
    ensures Equals(OfInt(i), UnsetIntValue(OfInt(i))) && CompareTo(OfInt(i), UnsetIntValue(OfInt(i))) > 0
    ensures !Equals(UnsetIntValue(OfInt(i)), UnsetIntValue(OfInt(j)))
    ensures CompareTo(UnsetIntValue(OfInt(i)), UnsetIntValue(OfInt(j))) == 0
  {
  }

  // ----------------------------------------------------- standard scheme

  /** `TIntStringValueStandardScheme.write`: field 1 always, whatever its
      isset bit; field 2 only when the string is non-null; then STOP.
      `validate()` checks nothing, so writing never fails. */
  function WriteStandard(t: TIntStringValue): seq<Token> {
    [FieldBegin(1, TI32), Val(I32Value(t.intValue))]
    + (if t.stringValue.Some? then [FieldBegin(2, TString), Val(StringValue(t.stringValue.value))] else [])
    + [FieldStop]
  }

  /** The standard writer's output: field 1 first whatever the isset bit,
      field 2 exactly when the string is set, then STOP. */
  lemma WriteStandardLayout(t: TIntStringValue)
    ensures var w := WriteStandard(t);
      && w[..2] == [FieldBegin(1, TI32), Val(I32Value(t.intValue))]
      && (FieldBegin(2, TString) in w <==> IsSetStringValue(t))
      && |w| == (if IsSetStringValue(t) then 5 else 3)
      && w[|w| - 1] == FieldStop
      && (IsSetStringValue(t) ==> w[3] == Val(StringValue(t.stringValue.value)))
    ensures WriteStandard(t) == WriteStandard(SetIntValueIsSet(t, !t.intValueIsSet))
  {
  }

  /** `TIntStringValueStandardScheme.read` into `into`: fields up to STOP.
      Id 1 under I32 stores `intValue` and sets its bit; id 2 under STRING
      stores the string; anything else is skipped. */
  function ReadStandard(toks: seq<Token>, into: TIntStringValue): Result<(TIntStringValue, seq<Token>)>
    decreases |toks|
  {
    if |toks| == 0 then Err(EndOfStream)
    else match toks[0]
      case FieldStop => Ok((into, toks[1..]))
      case FieldBegin(id, ty) =>
        if id == 1 && ty == TI32 then
          (match ReadI32(toks[1..])
           case Ok((v, rest)) => ReadStandard(rest, SetIntValue(into, v))
           case Err(e) => Err(e))
        else if id == 2 && ty == TString then
          (match ReadString(toks[1..])
           case Ok((s, rest)) => ReadStandard(rest, SetStringValue(into, Some(s)))
           case Err(e) => Err(e))
        else
          (match Skip(toks[1..], ty)
           case Ok(rest) => ReadStandard(rest, into)
           case Err(e) => Err(e))
      case _ => Err(UnexpectedToken(toks[0]))
  }

  /** A field 1 block under I32 stores `intValue` and sets its bit, and
      reading continues on the rest with nothing else changed, whatever
      came before it. */
  lemma ReadStandardIntBlock(v: Int32, toks: seq<Token>, into: TIntStringValue)
    ensures ReadStandard([FieldBegin(1, TI32), Val(I32Value(v))] + toks, into)
         == ReadStandard(toks, SetIntValue(into, v))
  {
  }

  /** A field 2 block under STRING stores the string and changes nothing
      else: `intValue` and its isset bit stay as they were, so a stream
      without field 1 leaves them alone. */
  lemma ReadStandardStringBlock(s: JString, toks: seq<Token>, into: TIntStringValue)
    ensures ReadStandard([FieldBegin(2, TString), Val(StringValue(s))] + toks, into)
         == ReadStandard(toks, SetStringValue(into, Some(s)))
  {
  }

  /** Reading what the standard writer wrote, into any struct: `intValue`
      is taken and marked set, the string is taken when it was written, and
      reading stops right after STOP. */
  lemma ReadStandardOfWrite(t: TIntStringValue, rest: seq<Token>, into: TIntStringValue)
    ensures ReadStandard(WriteStandard(t) + rest, into)
         == Ok((TIntStringValue(t.intValue, true, if IsSetStringValue(t) then t.stringValue else into.stringValue), rest))
  {
    var w := WriteStandard(t) + rest;
    var i1 := SetIntValue(into, t.intValue);
    assert w[0] == FieldBegin(1, TI32);
    assert w[1] == Val(I32Value(t.intValue));
    var r1 := w[2..];
    assert ReadStandard(w, into) == ReadStandard(r1, i1) by {
      assert w[1..] == [w[1]] + r1;
    }
    if IsSetStringValue(t) {
      var s := t.stringValue.value;
      assert r1 == [FieldBegin(2, TString), Val(StringValue(s)), FieldStop] + rest;
      assert r1[1..] == [Val(StringValue(s))] + ([FieldStop] + rest);
      assert r1[1..][1..] == [FieldStop] + rest;
      assert ReadStandard(r1, i1) == ReadStandard([FieldStop] + rest, SetStringValue(i1, Some(s)));
    } else {
      assert r1 == [FieldStop] + rest;
    }
  }

  /** Standard round trip into a fresh struct: everything comes back, but
      `intValue` always comes back marked set. So the result `equals` the
      original, yet compares non-zero to it when the original's bit was off. */
  lemma StandardRoundTrip(t: TIntStringValue, rest: seq<Token>)
    ensures ReadStandard(WriteStandard(t) + rest, New()) == Ok((SetIntValueIsSet(t, true), rest))
    ensures var r := ReadStandard(WriteStandard(t) + rest, New()).value.0;
      && r.intValueIsSet
      && Equals(r, t)
      && (CompareTo(r, t) == 0 <==> t.intValueIsSet)
  {
    ReadStandardOfWrite(t, rest, New());
    CompareToZeroIff(SetIntValueIsSet(t, true), t);
  }

  /** A field the standard reader does not decode: an unknown id, or a known
      id under a tag other than its declared one. */
  predicate Ignored(id: Int16, ty: TType) {
    !(id == 1 && ty == TI32) && !(id == 2 && ty == TString)
  }

  /** Forward compatibility: any run of fields the reader does not decode is
      skipped and leaves the target unchanged. */
  lemma {:induction false} ReadStandardSkipsIgnored(es: seq<(Int16, Value)>, toks: seq<Token>, into: TIntStringValue)
    requires forall i | 0 <= i < |es| :: Ignored(es[i].0, TypeOf(es[i].1))
    ensures ReadStandard(FieldBlocks(es) + toks, into) == ReadStandard(toks, into)
  {
    if es != [] {
      var w := FieldBlocks(es) + toks;
      var tail := FieldBlocks(es[1..]) + toks;
      assert w == [FieldBegin(es[0].0, TypeOf(es[0].1)), Val(es[0].1)] + tail;
      assert w[1..] == [Val(es[0].1)] + tail;
      assert Skip(w[1..], TypeOf(es[0].1)) == Ok(tail);
      assert ReadStandard(w, into) == ReadStandard(tail, into);
      ReadStandardSkipsIgnored(es[1..], toks, into);
    } else {
      assert FieldBlocks(es) + toks == toks;
    }
  }

  /** STOP ends reading at once: the struct is returned as it is, with the
      `intValue` isset bit untouched, and the tokens after STOP are left. */
  lemma {:induction false} ReadStandardAtStop(toks: seq<Token>, into: TIntStringValue)
    ensures ReadStandard([FieldStop] + toks, into) == Ok((into, toks))
  {
  }

  /** Reading ends at STOP after any run of skipped fields, with the struct
      unchanged and the tokens after STOP left unread. */
  lemma {:induction false} ReadStandardStopsAtStop(es: seq<(Int16, Value)>, toks: seq<Token>, into: TIntStringValue)
    requires forall i | 0 <= i < |es| :: Ignored(es[i].0, TypeOf(es[i].1))
    ensures ReadStandard(FieldBlocks(es) + ([FieldStop] + toks), into) == Ok((into, toks))
  {
    ReadStandardSkipsIgnored(es, [FieldStop] + toks, into);
    ReadStandardAtStop(toks, into);
  }

  /** A stream holding an `intValue`, no string, and unknown fields written
      by a newer peer before STOP reads back into a fresh struct as that
      value, marked set, with `isSetStringValue()` false. */
  lemma {:induction false} StandardReadsIntWithoutString(i: Int32, es: seq<(Int16, Value)>, rest: seq<Token>)
    requires forall k | 0 <= k < |es| :: Ignored(es[k].0, TypeOf(es[k].1))
    ensures ReadStandard([FieldBegin(1, TI32), Val(I32Value(i))] + FieldBlocks(es) + [FieldStop] + rest, New())
         == Ok((OfInt(i), rest))
  {
    var w := [FieldBegin(1, TI32), Val(I32Value(i))] + FieldBlocks(es) + [FieldStop] + rest;
    var tail := FieldBlocks(es) + ([FieldStop] + rest);
    assert w == [FieldBegin(1, TI32), Val(I32Value(i))] + tail;
    ReadStandardIntBlock(i, tail, New());
    ReadStandardStopsAtStop(es, rest, OfInt(i));
  }

  /** Without a STOP marker the standard reader fails. */
  lemma {:induction false} ReadStandardNeedsStop(toks: seq<Token>, into: TIntStringValue)
    requires FieldStop !in toks
    ensures ReadStandard(toks, into).Err?
    decreases |toks|
  {
    if |toks| > 0 && toks[0].FieldBegin? {
      var id, ty := toks[0].id, toks[0].ttype;
      if id == 1 && ty == TI32 {
        match ReadI32(toks[1..])
        case Ok((v, rest)) =>
          assert toks[1..] == [toks[1]] + rest;
          ReadStandardNeedsStop(rest, SetIntValue(into, v));
        case Err(_) =>
      } else if id == 2 && ty == TString {
        match ReadString(toks[1..])
        case Ok((s, rest)) =>
          assert toks[1..] == [toks[1]] + rest;
          ReadStandardNeedsStop(rest, SetStringValue(into, Some(s)));
        case Err(_) =>
      } else {
        match Skip(toks[1..], ty)
        case Ok(rest) =>
          assert toks[1..] == [toks[1]] + rest;
          ReadStandardNeedsStop(rest, into);
        case Err(_) =>
      }
    }
  }

  /** A truncated standard stream is rejected. */
  lemma StandardTruncatedFails(t: TIntStringValue, n: nat, into: TIntStringValue)
    requires n < |WriteStandard(t)|
    ensures ReadStandard(WriteStandard(t)[..n], into).Err?
  {
    var w := WriteStandard(t);
    assert FieldStop !in w[..n] by {
      assert forall i | 0 <= i < n :: w[..n][i] == w[i];
    }
    ReadStandardNeedsStop(w[..n], into);
  }

  // -------------------------------------------------------- tuple scheme

  /** `TIntStringValueTupleScheme.write`: a 2-bit set (bit 0 the `intValue`
      isset bit, bit 1 string presence), then the values whose bit is set. */
  function WriteTuple(t: TIntStringValue): seq<Token> {
    [BitSet([t.intValueIsSet, IsSetStringValue(t)])]
    + (if t.intValueIsSet then [Val(I32Value(t.intValue))] else [])
    + (if IsSetStringValue(t) then [Val(StringValue(t.stringValue.value))] else [])
  }

  /** The tuple stream: bit 0 is the `intValue` isset bit and bit 1 string
      presence; then the `intValue` if its bit is set, then the string if it
      is non-null, with no ids or tags. */
  lemma WriteTupleLayout(t: TIntStringValue)
    ensures var w := WriteTuple(t);
      && |w| == 1 + (if t.intValueIsSet then 1 else 0) + (if IsSetStringValue(t) then 1 else 0)
      && w[0] == BitSet([t.intValueIsSet, IsSetStringValue(t)])
      && (t.intValueIsSet ==> w[1] == Val(I32Value(t.intValue)))
      && (IsSetStringValue(t) ==> w[|w| - 1] == Val(StringValue(t.stringValue.value)))
  {
  }

  /** `TIntStringValueTupleScheme.read` into `into`. */
  function ReadTuple(toks: seq<Token>, into: TIntStringValue): Result<(TIntStringValue, seq<Token>)> {
    var b :- ReadBitSet(toks, 2);
    var bits := b.0;
    var r1 :- if bits[0] then
                (match ReadI32(b.1)
                 case Ok((v, rest)) => Ok((SetIntValue(into, v), rest))
                 case Err(e) => Err(e))
              else Ok((into, b.1));
    if bits[1] then
      (match ReadString(r1.1)
       case Ok((s, rest)) => Ok((SetStringValue(r1.0, Some(s)), rest))
       case Err(e) => Err(e))
    else Ok(r1)
  }

  /** Reading what the tuple writer wrote, into any struct: the fields whose
      bit was set are taken, with presence, and the rest of `into` stays. */
  lemma ReadTupleOfWrite(t: TIntStringValue, rest: seq<Token>, into: TIntStringValue)
    ensures ReadTuple(WriteTuple(t) + rest, into)
         == Ok((TIntStringValue(
                  if t.intValueIsSet then t.intValue else into.intValue,
                  t.intValueIsSet || into.intValueIsSet,
                  if IsSetStringValue(t) then t.stringValue else into.stringValue), rest))
  {
    var ti := if t.intValueIsSet then [Val(I32Value(t.intValue))] else [];
    var ts := if IsSetStringValue(t) then [Val(StringValue(t.stringValue.value))] else [];
    var w := WriteTuple(t) + rest;
    assert w == [BitSet([t.intValueIsSet, IsSetStringValue(t)])] + (ti + (ts + rest));
    assert w[1..] == ti + (ts + rest);
    if t.intValueIsSet {
      assert (ti + (ts + rest))[1..] == ts + rest;
    }
    if IsSetStringValue(t) {
      assert (ts + rest)[1..] == rest;
    }
  }

  /** Tuple round trip into a fresh struct: both presence flags and the
      present values come back; an unset `intValue` comes back as 0. So the
      result always compares 0 with the original, but `equals` it only when
      the original's `intValue` was set or was 0. */
  lemma TupleRoundTrip(t: TIntStringValue, rest: seq<Token>)
    ensures ReadTuple(WriteTuple(t) + rest, New())
         == Ok((if t.intValueIsSet then t else t.(intValue := 0), rest))
    ensures var r := ReadTuple(WriteTuple(t) + rest, New()).value.0;
      && r.intValueIsSet == t.intValueIsSet
      && r.stringValue == t.stringValue
      && CompareTo(r, t) == 0
      && (Equals(r, t) <==> t.intValueIsSet || t.intValue == 0)
  {
    ReadTupleOfWrite(t, rest, New());
    CompareToZeroIff(if t.intValueIsSet then t else t.(intValue := 0), t);
  }

  /** A tuple stream cut short is rejected. */
  lemma TupleTruncatedFails(t: TIntStringValue, n: nat, into: TIntStringValue)
    requires n < |WriteTuple(t)|
    ensures ReadTuple(WriteTuple(t)[..n], into).Err?
  {
    var w := WriteTuple(t);
    if n > 0 {
      var p := w[..n];
      assert p[0] == BitSet([t.intValueIsSet, IsSetStringValue(t)]);
      if t.intValueIsSet && n >= 2 {
        assert p[1] == Val(I32Value(t.intValue));
        assert p[1..][1..] == p[2..];
      }
    }
  }
}
