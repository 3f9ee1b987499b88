/** `TFTransaction`, the Flink transaction-count struct generated by Thrift
    0.10.0: four OPTIONAL i64 fields (ids 2 to 5), each with an isset bit, the
    presence-sensitive `equals` and `compareTo`, and the standard and tuple
    schemes that write and read it.

    A Java instance is mutable; here it is a value, and every mutator is a
    function that returns the updated struct.
 */
module TFTransactionDto {
  import opened JavaTypes
  import opened Wire

  /** `_Fields`, in declared order. */
  datatype Field = SampledNewCount | SampledContinuationCount | UnsampledNewCount | UnsampledContinuationCount

  /** The declared order, which is also thrift-id order and isset-bit order. */
  const DeclaredFields: seq<Field> := [SampledNewCount, SampledContinuationCount, UnsampledNewCount, UnsampledContinuationCount]

  /** `_Fields.getThriftFieldId`. */
  function ThriftId(f: Field): Int16 {
    match f
    case SampledNewCount => 2
    case SampledContinuationCount => 3
    case UnsampledNewCount => 4
    case UnsampledContinuationCount => 5
  }

  /** `_Fields.findByThriftId`: the field with that id, or null. */
  function FindByThriftId(id: int): (r: Option<Field>)
    ensures r.Some? <==> 2 <= id <= 5
    ensures forall f :: r == Some(f) <==> ThriftId(f) as int == id
  {
    match id
    case 2 => Some(SampledNewCount)
    case 3 => Some(SampledContinuationCount)
    case 4 => Some(UnsampledNewCount)
    case 5 => Some(UnsampledContinuationCount)
    case _ => None
  }

  /** One field's storage: the `long` and its isset bit. Clearing the bit
      leaves the value in place, as the Java field does. */
  datatype Slot = Slot(value: Int64, isSet: bool)

  datatype TFTransaction = TFTransaction(
    sampledNewCount: Slot,
    sampledContinuationCount: Slot,
    unsampledNewCount: Slot,
    unsampledContinuationCount: Slot)

  /** The storage of one field. */
  function Get(t: TFTransaction, f: Field): Slot {
    match f
    case SampledNewCount => t.sampledNewCount
    case SampledContinuationCount => t.sampledContinuationCount
    case UnsampledNewCount => t.unsampledNewCount
    case UnsampledContinuationCount => t.unsampledContinuationCount
  }

  /** Replaces the storage of one field. */
  function Put(t: TFTransaction, f: Field, s: Slot): (r: TFTransaction)
    ensures Get(r, f) == s
    ensures forall g | g != f :: Get(r, g) == Get(t, g)
  {
    match f
    case SampledNewCount => t.(sampledNewCount := s)
    case SampledContinuationCount => t.(sampledContinuationCount := s)
    case UnsampledNewCount => t.(unsampledNewCount := s)
    case UnsampledContinuationCount => t.(unsampledContinuationCount := s)
  }

  /** `isSet(field)` and the four `isSetX()` accessors. */
  predicate IsSet(t: TFTransaction, f: Field) {
    Get(t, f).isSet
  }

  /** `getFieldValue(field)` and the four `getX()` accessors: the stored value,
      whether or not the field is set. */
  function GetValue(t: TFTransaction, f: Field): Int64 {
    Get(t, f).value
  }

  /** The default constructor: every field absent, with value 0. */
  function New(): (r: TFTransaction)
    ensures forall f :: !IsSet(r, f) && GetValue(r, f) == 0
  {
    TFTransaction(Slot(0, false), Slot(0, false), Slot(0, false), Slot(0, false))
  }

  /** `setX(value)`: stores the value and marks the field present. */
  function SetValue(t: TFTransaction, f: Field, v: Int64): (r: TFTransaction)
    ensures IsSet(r, f) && GetValue(r, f) == v
    ensures forall g | g != f :: Get(r, g) == Get(t, g)
  {
    Put(t, f, Slot(v, true))
  }

  /** `setXIsSet(b)`: flips only the isset bit. */
  function SetIsSet(t: TFTransaction, f: Field, b: bool): (r: TFTransaction)
    ensures IsSet(r, f) == b && GetValue(r, f) == GetValue(t, f)
    ensures forall g | g != f :: Get(r, g) == Get(t, g)
  {
    Put(t, f, Get(t, f).(isSet := b))
  }

  /** `unsetX()`: clears the isset bit; the stored value stays. */
  function Unset(t: TFTransaction, f: Field): (r: TFTransaction)
    ensures !IsSet(r, f) && GetValue(r, f) == GetValue(t, f)
    ensures forall g | g != f :: Get(r, g) == Get(t, g)
  {
    SetIsSet(t, f, false)
  }

  /** `setFieldValue(field, value)`: a null value unsets the field. */
  function SetFieldValue(t: TFTransaction, f: Field, v: Option<Int64>): (r: TFTransaction)
    ensures v.None? ==> !IsSet(r, f) && GetValue(r, f) == GetValue(t, f)
    ensures v.Some? ==> IsSet(r, f) && GetValue(r, f) == v.value
    ensures forall g | g != f :: Get(r, g) == Get(t, g)
  {
    match v
    case None => Unset(t, f)
    case Some(x) => SetValue(t, f, x)
  }

  /** `clear()`: every field absent, every value reset to 0. */
  function Clear(t: TFTransaction): (r: TFTransaction)
    ensures forall f :: !IsSet(r, f) && GetValue(r, f) == 0
  {
    t.(sampledNewCount := Slot(0, false),
       sampledContinuationCount := Slot(0, false),
       unsampledNewCount := Slot(0, false),
       unsampledContinuationCount := Slot(0, false))
  }

  /** `deepCopy()`: the isset bits and all four values, present or not. */
  function DeepCopy(t: TFTransaction): (r: TFTransaction)
    ensures forall f :: Get(r, f) == Get(t, f)
    ensures Equals(r, t)
  {
    TFTransaction(t.sampledNewCount, t.sampledContinuationCount, t.unsampledNewCount, t.unsampledContinuationCount)
  }

  // ---------------------------------------------------------------- equals

  /** One field's block of `equals`: if either side is present both must be,
      and then the values must agree. */
  predicate SlotEquals(a: Slot, b: Slot) {
    (a.isSet || b.isSet) ==> (a.isSet && b.isSet && a.value == b.value)
  }

  /** `equals(TFTransaction)`. */
  predicate Equals(a: TFTransaction, b: TFTransaction) {
    && SlotEquals(a.sampledNewCount, b.sampledNewCount)
    && SlotEquals(a.sampledContinuationCount, b.sampledContinuationCount)
    && SlotEquals(a.unsampledNewCount, b.unsampledNewCount)
    && SlotEquals(a.unsampledContinuationCount, b.unsampledContinuationCount)
  }

  /** The struct with the stored values of absent fields forgotten (reset to
      0): what `equals`, `compareTo` and both writers can observe. */
  function Canonical(t: TFTransaction): (r: TFTransaction)
    ensures forall f :: IsSet(r, f) == IsSet(t, f)
    ensures forall f :: GetValue(r, f) == (if IsSet(t, f) then GetValue(t, f) else 0)
  {
    var c := (s: Slot) => if s.isSet then s else Slot(0, false);
    TFTransaction(c(t.sampledNewCount), c(t.sampledContinuationCount), c(t.unsampledNewCount), c(t.unsampledContinuationCount))
  }

  /** `equals` holds exactly when every field has the same presence and every
      present field the same value; the values of absent fields are ignored. */
  lemma EqualsIffSamePresenceAndValues(a: TFTransaction, b: TFTransaction)
    ensures Equals(a, b) <==>
      forall f :: IsSet(a, f) == IsSet(b, f) && (IsSet(a, f) ==> GetValue(a, f) == GetValue(b, f))
    ensures Equals(a, b) <==> Canonical(a) == Canonical(b)
  {
    if forall f :: IsSet(a, f) == IsSet(b, f) && (IsSet(a, f) ==> GetValue(a, f) == GetValue(b, f)) {
      forall f ensures SlotEquals(Get(a, f), Get(b, f)) {
        assert IsSet(a, f) == IsSet(b, f);
      }
      assert Equals(a, b) by {
        assert SlotEquals(Get(a, SampledNewCount), Get(b, SampledNewCount));
        assert SlotEquals(Get(a, SampledContinuationCount), Get(b, SampledContinuationCount));
        assert SlotEquals(Get(a, UnsampledNewCount), Get(b, UnsampledNewCount));
        assert SlotEquals(Get(a, UnsampledContinuationCount), Get(b, UnsampledContinuationCount));
      }
    }
    if Equals(a, b) {
      forall f ensures IsSet(a, f) == IsSet(b, f) && (IsSet(a, f) ==> GetValue(a, f) == GetValue(b, f)) {
        match f
        case SampledNewCount =>
        case SampledContinuationCount =>
        case UnsampledNewCount =>
        case UnsampledContinuationCount =>
      }
    }
    if Canonical(a) == Canonical(b) {
      forall f ensures IsSet(a, f) == IsSet(b, f) && (IsSet(a, f) ==> GetValue(a, f) == GetValue(b, f)) {
        assert IsSet(Canonical(a), f) == IsSet(Canonical(b), f);
        assert GetValue(Canonical(a), f) == GetValue(Canonical(b), f);
      }
    }
  }

  /** `equals` is an equivalence relation. */
  lemma EqualsIsEquivalence(a: TFTransaction, b: TFTransaction, c: TFTransaction)
    ensures Equals(a, a)
    ensures Equals(a, b) ==> Equals(b, a)
    ensures Equals(a, b) && Equals(b, c) ==> Equals(a, c)
  {
    EqualsIffSamePresenceAndValues(a, b);
    EqualsIffSamePresenceAndValues(b, c);
    EqualsIffSamePresenceAndValues(a, c);
  }

  // ------------------------------------------------------------- compareTo

  /** One field's block of `compareTo`: presence first, then the value when
      this side is present. */
  function SlotCompare(a: Slot, b: Slot): int {
    var c := CompareBool(a.isSet, b.isSet);
    if c != 0 then c
    else if a.isSet then CompareInt(a.value as int, b.value as int)
    else 0
  }

  /** `compareTo(TFTransaction)`: the first non-zero field comparison, fields
      taken in id order 2, 3, 4, 5. */
  function CompareTo(a: TFTransaction, b: TFTransaction): int {
    var c2 := SlotCompare(a.sampledNewCount, b.sampledNewCount);
    if c2 != 0 then c2 else
    var c3 := SlotCompare(a.sampledContinuationCount, b.sampledContinuationCount);
    if c3 != 0 then c3 else
    var c4 := SlotCompare(a.unsampledNewCount, b.unsampledNewCount);
    if c4 != 0 then c4 else
    SlotCompare(a.unsampledContinuationCount, b.unsampledContinuationCount)
  }

  /** The sort key of one field: absent is below every present value, and
      present fields are ordered by value. */
  function Rank(s: Slot): int {
    if s.isSet then s.value as int + 0x8000_0000_0000_0001 else 0
  }

  lemma SlotCompareIsRankOrder(a: Slot, b: Slot)
    ensures SlotCompare(a, b) == CompareInt(Rank(a), Rank(b))
  {
  }

  /** `compareTo` returns 0 exactly when `equals` holds. */
  lemma CompareToZeroIffEquals(a: TFTransaction, b: TFTransaction)
    ensures CompareTo(a, b) == 0 <==> Equals(a, b)
  {
    SlotCompareIsRankOrder(a.sampledNewCount, b.sampledNewCount);
    SlotCompareIsRankOrder(a.sampledContinuationCount, b.sampledContinuationCount);
    SlotCompareIsRankOrder(a.unsampledNewCount, b.unsampledNewCount);
    SlotCompareIsRankOrder(a.unsampledContinuationCount, b.unsampledContinuationCount);
  }

  /** Swapping the operands of `compareTo` negates the result. */
  lemma CompareToAntisymmetric(a: TFTransaction, b: TFTransaction)
    ensures CompareTo(a, b) == -CompareTo(b, a)
  {
    SlotCompareIsRankOrder(a.sampledNewCount, b.sampledNewCount);
    SlotCompareIsRankOrder(a.sampledContinuationCount, b.sampledContinuationCount);
    SlotCompareIsRankOrder(a.unsampledNewCount, b.unsampledNewCount);
    SlotCompareIsRankOrder(a.unsampledContinuationCount, b.unsampledContinuationCount);
    SlotCompareIsRankOrder(b.sampledNewCount, a.sampledNewCount);
    SlotCompareIsRankOrder(b.sampledContinuationCount, a.sampledContinuationCount);
    SlotCompareIsRankOrder(b.unsampledNewCount, a.unsampledNewCount);
    SlotCompareIsRankOrder(b.unsampledContinuationCount, a.unsampledContinuationCount);
  }

  /** The field ranks in declared order. */
  function Ranks(t: TFTransaction): seq<int> {
    [Rank(t.sampledNewCount), Rank(t.sampledContinuationCount), Rank(t.unsampledNewCount), Rank(t.unsampledContinuationCount)]
  }

  /** `compareTo` is the lexicographic order of the field ranks: some field
      decides, and every field before it ties. */
  lemma CompareToIsLexicographic(a: TFTransaction, b: TFTransaction)
    ensures CompareTo(a, b) < 0 <==>
      exists i :: 0 <= i < 4 && Ranks(a)[..i] == Ranks(b)[..i] && Ranks(a)[i] < Ranks(b)[i]
  {
    var ra, rb := Ranks(a), Ranks(b);
    SlotCompareIsRankOrder(a.sampledNewCount, b.sampledNewCount);
    SlotCompareIsRankOrder(a.sampledContinuationCount, b.sampledContinuationCount);
    SlotCompareIsRankOrder(a.unsampledNewCount, b.unsampledNewCount);
    SlotCompareIsRankOrder(a.unsampledContinuationCount, b.unsampledContinuationCount);
    if CompareTo(a, b) < 0 {
      if ra[0] < rb[0] {
        assert ra[..0] == rb[..0];
      } else if ra[1] < rb[1] {
        assert ra[..1] == rb[..1];
      } else if ra[2] < rb[2] {
        assert ra[..2] == rb[..2];
      } else {
        assert ra[..3] == rb[..3];
      }
    }
    if exists i :: 0 <= i < 4 && ra[..i] == rb[..i] && ra[i] < rb[i] {
      var i :| 0 <= i < 4 && ra[..i] == rb[..i] && ra[i] < rb[i];
      assert forall j | 0 <= j < i :: ra[j] == ra[..i][j] == rb[..i][j] == rb[j];
      if i == 0 {
      } else if i == 1 {
        assert ra[0] == rb[0];
      } else if i == 2 {
        assert ra[0] == rb[0] && ra[1] == rb[1];
      } else {
        assert ra[0] == rb[0] && ra[1] == rb[1] && ra[2] == rb[2];
      }
    }
  }

  /** `compareTo` orders structs transitively. */
  lemma CompareToTransitive(a: TFTransaction, b: TFTransaction, c: TFTransaction)
    requires CompareTo(a, b) < 0 && CompareTo(b, c) < 0
    ensures CompareTo(a, c) < 0
  {
    SlotCompareIsRankOrder(a.sampledNewCount, b.sampledNewCount);
    SlotCompareIsRankOrder(a.sampledContinuationCount, b.sampledContinuationCount);
    SlotCompareIsRankOrder(a.unsampledNewCount, b.unsampledNewCount);
    SlotCompareIsRankOrder(a.unsampledContinuationCount, b.unsampledContinuationCount);
    SlotCompareIsRankOrder(b.sampledNewCount, c.sampledNewCount);
    SlotCompareIsRankOrder(b.sampledContinuationCount, c.sampledContinuationCount);
    SlotCompareIsRankOrder(b.unsampledNewCount, c.unsampledNewCount);
    SlotCompareIsRankOrder(b.unsampledContinuationCount, c.unsampledContinuationCount);
    SlotCompareIsRankOrder(a.sampledNewCount, c.sampledNewCount);
    SlotCompareIsRankOrder(a.sampledContinuationCount, c.sampledContinuationCount);
    SlotCompareIsRankOrder(a.unsampledNewCount, c.unsampledNewCount);
    SlotCompareIsRankOrder(a.unsampledContinuationCount, c.unsampledContinuationCount);
  }

  // ------------------------------------------------------ present fields

  /** The fields of `fs` that are set in `t`, in the order of `fs`. */
  function PresentIn(t: TFTransaction, fs: seq<Field>): seq<Field> {
    if fs == [] then [] else (if IsSet(t, fs[0]) then [fs[0]] else []) + PresentIn(t, fs[1..])
  }

  lemma {:induction false} PresentInMembers(t: TFTransaction, fs: seq<Field>)
    ensures forall f :: f in PresentIn(t, fs) <==> f in fs && IsSet(t, f)
  {
    if fs != [] {
      PresentInMembers(t, fs[1..]);
      assert fs == [fs[0]] + fs[1..];
    }
  }

  /** `PresentIn` keeps the relative order of `fs`. */
  lemma {:induction false} PresentInSorted(t: TFTransaction, fs: seq<Field>)
    requires forall i, j | 0 <= i < j < |fs| :: ThriftId(fs[i]) < ThriftId(fs[j])
    ensures forall i, j | 0 <= i < j < |PresentIn(t, fs)| :: ThriftId(PresentIn(t, fs)[i]) < ThriftId(PresentIn(t, fs)[j])
  {
    if fs != [] {
      var tail := PresentIn(t, fs[1..]);
      PresentInSorted(t, fs[1..]);
      PresentInMembers(t, fs[1..]);
      forall j | 0 <= j < |tail| ensures ThriftId(fs[0]) < ThriftId(tail[j]) {
        assert tail[j] in tail;
        assert tail[j] in fs[1..];
        var k :| 0 <= k < |fs[1..]| && fs[1..][k] == tail[j];
        assert fs[k + 1] == tail[j];
      }
    }
  }

  /** The set fields in declared order, which is increasing thrift-id order. */
  function Present(t: TFTransaction): (r: seq<Field>)
    ensures forall f :: f in r <==> IsSet(t, f)
    ensures forall i, j | 0 <= i < j < |r| :: ThriftId(r[i]) < ThriftId(r[j])
  {
    PresentInMembers(t, DeclaredFields);
    PresentInSorted(t, DeclaredFields);
    PresentIn(t, DeclaredFields)
  }

  /** The struct `into` with every field that is set in `t` copied over it:
      what reading a serialized `t` into `into` produces. */
  function Overlay(into: TFTransaction, t: TFTransaction): (r: TFTransaction)
    ensures forall f :: Get(r, f) == if IsSet(t, f) then Get(t, f) else Get(into, f)
  {
    var o := (x: Slot, y: Slot) => if y.isSet then y else x;
    TFTransaction(
      o(into.sampledNewCount, t.sampledNewCount),
      o(into.sampledContinuationCount, t.sampledContinuationCount),
      o(into.unsampledNewCount, t.unsampledNewCount),
      o(into.unsampledContinuationCount, t.unsampledContinuationCount))
  }

  /** Copying a struct over a fresh one keeps exactly what `equals` sees. */
  lemma OverlayOnNewIsCanonical(t: TFTransaction)
    ensures Overlay(New(), t) == Canonical(t)
    ensures Equals(Canonical(t), t)
  {
    EqualsIffSamePresenceAndValues(Canonical(t), t);
    assert Canonical(Canonical(t)) == Canonical(t);
  }

  // ----------------------------------------------------- standard scheme

  /** The standard writer's block for one field: header and value when the
      field is set, nothing otherwise. */
  function StandardField(f: Field, s: Slot): seq<Token> {
    if s.isSet then [FieldBegin(ThriftId(f), TI64), Val(I64Value(s.value))] else []
  }

  /** `TFTransactionStandardScheme.write`. `validate()` checks nothing, as no
      field is REQUIRED, so writing never fails. */
  function WriteStandard(t: TFTransaction): seq<Token> {
    StandardField(SampledNewCount, t.sampledNewCount)
    + StandardField(SampledContinuationCount, t.sampledContinuationCount)
    + StandardField(UnsampledNewCount, t.unsampledNewCount)
    + StandardField(UnsampledContinuationCount, t.unsampledContinuationCount)
    + [FieldStop]
  }

  /** A header and value for each field of `ps`, in order. */
  function StandardEntries(t: TFTransaction, ps: seq<Field>): seq<Token> {
    if ps == [] then []
    else [FieldBegin(ThriftId(ps[0]), TI64), Val(I64Value(GetValue(t, ps[0])))] + StandardEntries(t, ps[1..])
  }

  lemma {:induction false} StandardEntriesAppend(t: TFTransaction, xs: seq<Field>, ys: seq<Field>)
    ensures StandardEntries(t, xs + ys) == StandardEntries(t, xs) + StandardEntries(t, ys)
  {
    if xs == [] {
      assert xs + ys == ys;
    } else {
      var h := [FieldBegin(ThriftId(xs[0]), TI64), Val(I64Value(GetValue(t, xs[0])))];
      StandardEntriesAppend(t, xs[1..], ys);
      assert (xs + ys)[1..] == xs[1..] + ys;
      calc {
        StandardEntries(t, xs + ys);
        h + StandardEntries(t, xs[1..] + ys);
        h + (StandardEntries(t, xs[1..]) + StandardEntries(t, ys));
        (h + StandardEntries(t, xs[1..])) + StandardEntries(t, ys);
      }
    }
  }

  lemma {:induction false} StandardEntriesLayout(t: TFTransaction, ps: seq<Field>)
    ensures |StandardEntries(t, ps)| == 2 * |ps|
    ensures forall k | 0 <= k < |ps| ::
      && StandardEntries(t, ps)[2 * k] == FieldBegin(ThriftId(ps[k]), TI64)
      && StandardEntries(t, ps)[2 * k + 1] == Val(I64Value(GetValue(t, ps[k])))
  {
    if ps != [] {
      StandardEntriesLayout(t, ps[1..]);
      var e := StandardEntries(t, ps);
      forall k | 1 <= k < |ps|
        ensures e[2 * k] == FieldBegin(ThriftId(ps[k]), TI64)
        ensures e[2 * k + 1] == Val(I64Value(GetValue(t, ps[k])))
      {
        assert e[2 * k] == StandardEntries(t, ps[1..])[2 * (k - 1)];
        assert e[2 * k + 1] == StandardEntries(t, ps[1..])[2 * (k - 1) + 1];
      }
    }
  }

  lemma StandardFieldIsEntry(t: TFTransaction, f: Field)
    ensures StandardField(f, Get(t, f)) == StandardEntries(t, IfSet(t, f))
  {
    if IsSet(t, f) {
      assert StandardEntries(t, [f]) == [FieldBegin(ThriftId(f), TI64), Val(I64Value(GetValue(t, f)))] + StandardEntries(t, []);
    }
  }

  /** A one-element list of `f` when it is set, empty otherwise. */
  function IfSet(t: TFTransaction, f: Field): seq<Field> {
    if IsSet(t, f) then [f] else []
  }

  lemma PresentUnrolled(t: TFTransaction)
    ensures Present(t) == IfSet(t, SampledNewCount) + (IfSet(t, SampledContinuationCount)
      + (IfSet(t, UnsampledNewCount) + (IfSet(t, UnsampledContinuationCount) + [])))
  {
    var df := DeclaredFields;
    var d1, d2, d3 := df[1..], df[1..][1..], df[1..][1..][1..];
    assert d1 == [SampledContinuationCount, UnsampledNewCount, UnsampledContinuationCount];
    assert d2 == [UnsampledNewCount, UnsampledContinuationCount];
    assert d3 == [UnsampledContinuationCount];
    assert d3[1..] == [];
    assert PresentIn(t, d3) == IfSet(t, UnsampledContinuationCount) + PresentIn(t, []);
    assert PresentIn(t, d2) == IfSet(t, UnsampledNewCount) + PresentIn(t, d3);
    assert PresentIn(t, d1) == IfSet(t, SampledContinuationCount) + PresentIn(t, d2);
    assert PresentIn(t, df) == IfSet(t, SampledNewCount) + PresentIn(t, d1);
  }

  lemma StandardEntriesOfIfSets(t: TFTransaction)
    ensures StandardEntries(t, IfSet(t, SampledNewCount) + (IfSet(t, SampledContinuationCount)
      + (IfSet(t, UnsampledNewCount) + (IfSet(t, UnsampledContinuationCount) + []))))
      == StandardField(SampledNewCount, t.sampledNewCount) + (StandardField(SampledContinuationCount, t.sampledContinuationCount)
      + (StandardField(UnsampledNewCount, t.unsampledNewCount) + (StandardField(UnsampledContinuationCount, t.unsampledContinuationCount) + [])))
  {
    var o0, o1, o2, o3 := IfSet(t, SampledNewCount), IfSet(t, SampledContinuationCount), IfSet(t, UnsampledNewCount), IfSet(t, UnsampledContinuationCount);
    StandardEntriesAppend(t, o0, o1 + (o2 + (o3 + [])));
    StandardEntriesAppend(t, o1, o2 + (o3 + []));
    StandardEntriesAppend(t, o2, o3 + []);
    StandardEntriesAppend(t, o3, []);
    StandardFieldIsEntry(t, SampledNewCount);
    StandardFieldIsEntry(t, SampledContinuationCount);
    StandardFieldIsEntry(t, UnsampledNewCount);
    StandardFieldIsEntry(t, UnsampledContinuationCount);
    assert StandardEntries(t, []) == [];
  }

  /** The written stream is the present fields, each as an I64 header and its
      value, followed by STOP. */
  lemma WriteStandardIsPresentEntries(t: TFTransaction)
    ensures WriteStandard(t) == StandardEntries(t, Present(t)) + [FieldStop]
  {
    PresentUnrolled(t);
    StandardEntriesOfIfSets(t);
  }

  /** The standard writer emits exactly the present fields, in id order, each
      tagged I64 and followed by its value, and then STOP. */
  lemma WriteStandardLayout(t: TFTransaction)
    ensures var w, ps := WriteStandard(t), Present(t);
      && |w| == 2 * |ps| + 1
      && w[|w| - 1] == FieldStop
      && (forall k | 0 <= k < |ps| ::
            w[2 * k] == FieldBegin(ThriftId(ps[k]), TI64) && w[2 * k + 1] == Val(I64Value(GetValue(t, ps[k]))))
  {
    WriteStandardIsPresentEntries(t);
    StandardEntriesLayout(t, Present(t));
    var e := StandardEntries(t, Present(t));
    assert forall i | 0 <= i < |e| :: WriteStandard(t)[i] == e[i];
  }

  /** `TFTransactionStandardScheme.read` into `into`: fields up to STOP.
      Ids 2 to 5 under the I64 tag are stored and marked present; any other
      field, an unknown id or a known id under another tag, is skipped. */
  function ReadStandard(toks: seq<Token>, into: TFTransaction): Result<(TFTransaction, seq<Token>)>
    decreases |toks|
  {
    if |toks| == 0 then Err(EndOfStream)
    else match toks[0]
      case FieldStop => Ok((into, toks[1..]))
      case FieldBegin(id, ty) =>
        var f := FindByThriftId(id as int);
        if f.Some? && ty == TI64 then
          (match ReadI64(toks[1..])
           case Ok((v, rest)) => ReadStandard(rest, SetValue(into, f.value, v))
           case Err(e) => Err(e))
        else
          (match Skip(toks[1..], ty)
           case Ok(rest) => ReadStandard(rest, into)
           case Err(e) => Err(e))
      case _ => Err(UnexpectedToken(toks[0]))
  }

  /** Reading one written field block applies it to the target. */
  lemma ReadStandardField(f: Field, s: Slot, toks: seq<Token>, into: TFTransaction)
    ensures ReadStandard(StandardField(f, s) + toks, into)
         == ReadStandard(toks, if s.isSet then SetValue(into, f, s.value) else into)
  {
    var w := StandardField(f, s) + toks;
    if s.isSet {
      assert w[0] == FieldBegin(ThriftId(f), TI64);
      assert w[1..] == [Val(I64Value(s.value))] + toks;
      assert FindByThriftId(ThriftId(f) as int) == Some(f);
    } else {
      assert w == toks;
    }
  }

  /** Reading what the standard writer wrote, into any struct, copies the
      present fields over it and stops right after STOP. */
  lemma ReadStandardOfWrite(t: TFTransaction, rest: seq<Token>, into: TFTransaction)
    ensures ReadStandard(WriteStandard(t) + rest, into) == Ok((Overlay(into, t), rest))
  {
    var a, b, c, d := t.sampledNewCount, t.sampledContinuationCount, t.unsampledNewCount, t.unsampledContinuationCount;
    var sa, sb := StandardField(SampledNewCount, a), StandardField(SampledContinuationCount, b);
    var sc, sd := StandardField(UnsampledNewCount, c), StandardField(UnsampledContinuationCount, d);
    assert WriteStandard(t) + rest == sa + (sb + (sc + (sd + ([FieldStop] + rest))));
    var i1 := if a.isSet then SetValue(into, SampledNewCount, a.value) else into;
    var i2 := if b.isSet then SetValue(i1, SampledContinuationCount, b.value) else i1;
    var i3 := if c.isSet then SetValue(i2, UnsampledNewCount, c.value) else i2;
    var i4 := if d.isSet then SetValue(i3, UnsampledContinuationCount, d.value) else i3;
    ReadStandardField(SampledNewCount, a, sb + (sc + (sd + ([FieldStop] + rest))), into);
    ReadStandardField(SampledContinuationCount, b, sc + (sd + ([FieldStop] + rest)), i1);
    ReadStandardField(UnsampledNewCount, c, sd + ([FieldStop] + rest), i2);
    ReadStandardField(UnsampledContinuationCount, d, [FieldStop] + rest, i3);
    assert ([FieldStop] + rest)[1..] == rest;
    assert i4 == Overlay(into, t);
  }

  /** Standard round trip: reading the written stream into a fresh struct
      gives back the struct, up to the stored values of absent fields, and
      the result `equals` the original. */
  lemma StandardRoundTrip(t: TFTransaction, rest: seq<Token>)
    ensures ReadStandard(WriteStandard(t) + rest, New()) == Ok((Canonical(t), rest))
    ensures Equals(ReadStandard(WriteStandard(t) + rest, New()).value.0, t)
  {
    ReadStandardOfWrite(t, rest, New());
    OverlayOnNewIsCanonical(t);
  }

  /** A field the standard reader does not decode: an unknown id, or a known
      id written under a tag other than I64. */
  predicate Ignored(id: Int16, ty: TType) {
    FindByThriftId(id as int).None? || ty != TI64
  }

  /** Forward compatibility: any run of fields the reader does not decode is
      skipped and leaves the target unchanged. */
  lemma {:induction false} ReadStandardSkipsIgnored(es: seq<(Int16, Value)>, toks: seq<Token>, into: TFTransaction)
    requires forall i | 0 <= i < |es| :: Ignored(es[i].0, TypeOf(es[i].1))
    ensures ReadStandard(FieldBlocks(es) + toks, into) == ReadStandard(toks, into)
  {
    if es != [] {
      var w := FieldBlocks(es) + toks;
      var tail := FieldBlocks(es[1..]) + toks;
      assert w == [FieldBegin(es[0].0, TypeOf(es[0].1)), Val(es[0].1)] + tail;
      assert w[1..] == [Val(es[0].1)] + tail;
      assert Skip(w[1..], TypeOf(es[0].1)) == Ok(tail);
      assert ReadStandard(w, into) == ReadStandard(tail, into);
      ReadStandardSkipsIgnored(es[1..], toks, into);
    } else {
      assert FieldBlocks(es) + toks == toks;
    }
  }

  /** Reading stops right after STOP, whatever follows, and leaves the
      target as it was. */
  lemma ReadStandardStopsAtStop(es: seq<(Int16, Value)>, toks: seq<Token>, into: TFTransaction)
    requires forall i | 0 <= i < |es| :: Ignored(es[i].0, TypeOf(es[i].1))
    ensures ReadStandard(FieldBlocks(es) + ([FieldStop] + toks), into) == Ok((into, toks))
  {
    ReadStandardSkipsIgnored(es, [FieldStop] + toks, into);
    assert ([FieldStop] + toks)[1..] == toks;
  }

  /** Without a STOP marker the standard reader fails: it never returns a
      struct from a stream that ends before the struct does. */
  lemma {:induction false} ReadStandardNeedsStop(toks: seq<Token>, into: TFTransaction)
    requires FieldStop !in toks
    ensures ReadStandard(toks, into).Err?
    decreases |toks|
  {
    if |toks| > 0 && toks[0].FieldBegin? {
      var f := FindByThriftId(toks[0].id as int);
      if f.Some? && toks[0].ttype == TI64 {
        match ReadI64(toks[1..])
        case Ok((v, rest)) =>
          assert toks[1..] == [toks[1]] + rest;
          ReadStandardNeedsStop(rest, SetValue(into, f.value, v));
        case Err(_) =>
      } else {
        match Skip(toks[1..], toks[0].ttype)
        case Ok(rest) =>
          assert toks[1..] == [toks[1]] + rest;
          ReadStandardNeedsStop(rest, into);
        case Err(_) =>
      }
    }
  }

  /** A truncated standard stream is rejected. */
  lemma StandardTruncatedFails(t: TFTransaction, n: nat, into: TFTransaction)
    requires n < |WriteStandard(t)|
    ensures ReadStandard(WriteStandard(t)[..n], into).Err?
  {
    WriteStandardIsPresentEntries(t);
    StandardEntriesLayout(t, Present(t));
    var w := WriteStandard(t);
    assert forall i | 0 <= i < n :: w[..n][i] == w[i] && w[i] != FieldStop by {
      forall i | 0 <= i < n ensures w[i] != FieldStop {
        var k := i / 2;
        assert i == 2 * k || i == 2 * k + 1;
      }
    }
    ReadStandardNeedsStop(w[..n], into);
  }

  // -------------------------------------------------------- tuple scheme

  /** The tuple writer's value for one field: present fields only. */
  function TupleField(s: Slot): seq<Token> {
    if s.isSet then [Val(I64Value(s.value))] else []
  }

  /** The four isset bits, bit i for the i-th declared field. */
  function PresenceBits(t: TFTransaction): (r: seq<bool>)
    ensures |r| == 4
    ensures forall i | 0 <= i < 4 :: r[i] == IsSet(t, DeclaredFields[i])
  {
    [t.sampledNewCount.isSet, t.sampledContinuationCount.isSet, t.unsampledNewCount.isSet, t.unsampledContinuationCount.isSet]
  }

  /** `TFTransactionTupleScheme.write`: a 4-bit presence bit set, then the
      values of the present fields in declared order, with no ids or tags. */
  function WriteTuple(t: TFTransaction): seq<Token> {
    [BitSet(PresenceBits(t))]
    + TupleField(t.sampledNewCount)
    + TupleField(t.sampledContinuationCount)
    + TupleField(t.unsampledNewCount)
    + TupleField(t.unsampledContinuationCount)
  }

  /** The tuple stream after the bit set: one value per present field. */
  lemma WriteTupleLayout(t: TFTransaction)
    ensures var w, ps := WriteTuple(t), Present(t);
      && |w| == |ps| + 1
      && w[0] == BitSet(PresenceBits(t))
      && (forall k | 0 <= k < |ps| :: w[k + 1] == Val(I64Value(GetValue(t, ps[k]))))
  {
    PresentUnrolled(t);
  }

  /** One step of `TFTransactionTupleScheme.read`: when the bit is set, read
      an I64 into the field and mark it present. */
  function ReadTupleField(present: bool, f: Field, toks: seq<Token>, into: TFTransaction): (r: Result<(TFTransaction, seq<Token>)>)
    ensures r.Ok? <==> !present || (|toks| > 0 && toks[0].Val? && toks[0].v.I64Value?)
    ensures r.Ok? ==> |toks| == (if present then 1 else 0) + |r.value.1|
  {
    if !present then Ok((into, toks))
    else match ReadI64(toks)
      case Ok((v, rest)) => Ok((SetValue(into, f, v), rest))
      case Err(e) => Err(e)
  }

  /** `TFTransactionTupleScheme.read` into `into`. */
  function ReadTuple(toks: seq<Token>, into: TFTransaction): Result<(TFTransaction, seq<Token>)> {
    var b :- ReadBitSet(toks, 4);
    var bits := b.0;
    var r1 :- ReadTupleField(bits[0], SampledNewCount, b.1, into);
    var r2 :- ReadTupleField(bits[1], SampledContinuationCount, r1.1, r1.0);
    var r3 :- ReadTupleField(bits[2], UnsampledNewCount, r2.1, r2.0);
    ReadTupleField(bits[3], UnsampledContinuationCount, r3.1, r3.0)
  }

  lemma ReadTupleFieldOfWrite(f: Field, s: Slot, toks: seq<Token>, into: TFTransaction)
    ensures ReadTupleField(s.isSet, f, TupleField(s) + toks, into)
         == Ok((if s.isSet then SetValue(into, f, s.value) else into, toks))
  {
    var w := TupleField(s) + toks;
    if s.isSet {
      assert w == [Val(I64Value(s.value))] + toks;
      assert w[1..] == toks;
      assert ReadI64(w) == Ok((s.value, toks));
    } else {
      assert w == toks;
    }
  }

  /** Reading what the tuple writer wrote, into any struct, copies the
      present fields over it and consumes exactly the written tokens. */
  lemma ReadTupleOfWrite(t: TFTransaction, rest: seq<Token>, into: TFTransaction)
    ensures ReadTuple(WriteTuple(t) + rest, into) == Ok((Overlay(into, t), rest))
  {
    var a, b, c, d := t.sampledNewCount, t.sampledContinuationCount, t.unsampledNewCount, t.unsampledContinuationCount;
    var ta, tb, tc, td := TupleField(a), TupleField(b), TupleField(c), TupleField(d);
    assert WriteTuple(t) + rest == [BitSet(PresenceBits(t))] + (ta + (tb + (tc + (td + rest))));
    var i1 := if a.isSet then SetValue(into, SampledNewCount, a.value) else into;
    var i2 := if b.isSet then SetValue(i1, SampledContinuationCount, b.value) else i1;
    var i3 := if c.isSet then SetValue(i2, UnsampledNewCount, c.value) else i2;
    ReadTupleFieldOfWrite(SampledNewCount, a, tb + (tc + (td + rest)), into);
    ReadTupleFieldOfWrite(SampledContinuationCount, b, tc + (td + rest), i1);
    ReadTupleFieldOfWrite(UnsampledNewCount, c, td + rest, i2);
    ReadTupleFieldOfWrite(UnsampledContinuationCount, d, rest, i3);
  }

  /** Tuple round trip into a fresh struct; the result `equals` the original. */
  lemma TupleRoundTrip(t: TFTransaction, rest: seq<Token>)
    ensures ReadTuple(WriteTuple(t) + rest, New()) == Ok((Canonical(t), rest))
    ensures Equals(ReadTuple(WriteTuple(t) + rest, New()).value.0, t)
  {
    ReadTupleOfWrite(t, rest, New());
    OverlayOnNewIsCanonical(t);
  }

  /** A successful tuple read consumes the bit set and then one I64 value
      per set bit, and leaves the tokens after those unread. */
  lemma ReadTupleConsumes(toks: seq<Token>, into: TFTransaction)
    requires ReadTuple(toks, into).Ok?
    ensures |toks| > 0 && toks[0].BitSet? && |toks[0].bits| == 4
    ensures var bits := toks[0].bits;
      |toks| == 1 + (if bits[0] then 1 else 0) + (if bits[1] then 1 else 0)
                  + (if bits[2] then 1 else 0) + (if bits[3] then 1 else 0)
                  + |ReadTuple(toks, into).value.1|
    ensures var n := |toks| - |ReadTuple(toks, into).value.1|;
      && toks[n..] == ReadTuple(toks, into).value.1
      && forall k | 1 <= k < n :: toks[k].Val? && toks[k].v.I64Value?
  {
  }

  /** A tuple stream cut short, whether inside the bit set or among the
      values, is rejected. */
  lemma TupleTruncatedFails(t: TFTransaction, n: nat, into: TFTransaction)
    requires n < |WriteTuple(t)|
    ensures ReadTuple(WriteTuple(t)[..n], into).Err?
  {
    var w := WriteTuple(t);
    if ReadTuple(w[..n], into).Ok? {
      ReadTupleConsumes(w[..n], into);
      assert false;
    }
  }
}
