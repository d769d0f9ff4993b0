/**
 Which structs the encoder accepts, and which it writes as nothing (pb_encode.c:147-426), told from
 the struct alone.
 */
module Encodable {
  import opened Wrappers
  import opened Varint
  import opened Integers
  import opened Schema
  import opened Encoding

  // ----- what encodes -----

  /** A byte array fits its member behind its size, and the members of a submessage encode. Memory
      whose contents are not known does not count as encodable. */
  predicate EncodesVal(f: Field, v: Val)
    decreases f, 0
  {
    match f.ltype
    case Bytes => v.Blob? && |v.bytes| + SIZE_WIDTH <= f.dataSize
    case Submessage(fs) => v.Msg? && Encodes(fs, v.cells)
    case _ => !v.Stale?
  }

  /** Nothing is asked of what is not written; a _count is at most the size of its array. */
  predicate EncodesCell(f: Field, c: Cell)
    decreases f, 1
  {
    match f.rule
    case Required => EncodesVal(f, Item(c))
    case Optional => Has(c) ==> EncodesVal(f, Item(c))
    case Singular => IsZeroVal(f, Item(c)) || EncodesVal(f, Item(c))
    case Repeated(max) => |Items(c)| <= max && forall k :: 0 <= k < |Items(c)| ==> EncodesVal(f, Items(c)[k])
    case FixedCount(n) => forall k :: 0 <= k < n ==> EncodesVal(f, Slots(c, n)[k])
    case Oneof => Which(c) == f.tag ==> EncodesVal(f, Item(c))
  }

  predicate Encodes(fs: seq<Field>, m: Cells)
    decreases fs
  {
    forall i :: 0 <= i < |fs| ==> EncodesCell(fs[i], At(m, fs[i].addr))
  }

  ghost predicate TypedOrStale(f: Field, v: Val) {
    v.Stale? || TypedVal(f, v)
  }

  lemma ScalarEncodes(f: Field, v: Val)
    requires WellFormedField(f) && TypedOrStale(f, v) && !f.ltype.Submessage?
    ensures EncodeScalar(f, v).Some? <==> EncodesVal(f, v)
  {
    if f.ltype.Integer? && v.Num? {
      IntegerRoundTrip(f.ltype.kind, f.dataSize, v.n);
    }
  }

  lemma {:induction false} ValEncodes(f: Field, v: Val)
    requires WellFormedField(f) && TypedOrStale(f, v)
    ensures EncodeVal(f, v).Some? <==> EncodesVal(f, v)
    decreases f, 0
  {
    if f.ltype.Submessage? {
      if v.Msg? {
        FieldsEncode(f.ltype.fields, 0, v.cells);
      }
    } else {
      ScalarEncodes(f, v);
    }
  }

  lemma {:induction false} PackedEncodes(f: Field, vs: seq<Val>)
    requires WellFormedField(f) && !f.ltype.Submessage? && forall k :: 0 <= k < |vs| ==> TypedOrStale(f, vs[k])
    ensures EncodePacked(f, vs).Some? <==> forall k :: 0 <= k < |vs| ==> EncodesVal(f, vs[k])
    decreases |vs|
  {
    hide EncodeScalar, EncodesVal, WellFormedField, TypedOrStale;
    if vs != [] {
      ScalarEncodes(f, vs[0]);
      PackedEncodes(f, vs[1..]);
      assert forall k :: 0 < k < |vs| ==> vs[k] == vs[1..][k - 1];
      assert forall k :: 0 <= k < |vs| - 1 ==> vs[1..][k] == vs[k + 1];
    }
  }

  lemma {:induction false} RecordsEncode(f: Field, vs: seq<Val>)
    requires WellFormedField(f) && forall k :: 0 <= k < |vs| ==> TypedOrStale(f, vs[k])
    ensures EncodeRecords(f, vs).Some? <==> forall k :: 0 <= k < |vs| ==> EncodesVal(f, vs[k])
    decreases f, 1, |vs|
  {
    hide EncodeVal, EncodesVal, WellFormedField, TypedOrStale;
    if vs != [] {
      ValEncodes(f, vs[0]);
      RecordsEncode(f, vs[1..]);
      assert forall k :: 0 < k < |vs| ==> vs[k] == vs[1..][k - 1];
      assert forall k :: 0 <= k < |vs| - 1 ==> vs[1..][k] == vs[k + 1];
    }
  }

  lemma {:induction false} ArrayEncodes(f: Field, vs: seq<Val>, max: nat)
    requires WellFormedField(f) && forall k :: 0 <= k < |vs| ==> TypedOrStale(f, vs[k])
    ensures EncodeArray(f, vs, max).Some? <==> |vs| <= max && forall k :: 0 <= k < |vs| ==> EncodesVal(f, vs[k])
    decreases f, 2
  {
    hide EncodesVal, WellFormedField, TypedOrStale, EncodePacked, EncodeRecords;
    if f.ltype.Packable() {
      PackedEncodes(f, vs);
    } else {
      RecordsEncode(f, vs);
    }
  }

  lemma {:induction false} FieldEncodes(f: Field, c: Cell)
    requires WellFormedField(f) && TypedCell(f, c)
    ensures EncodeField(f, c).Some? <==> EncodesCell(f, c)
    decreases f, 3
  {
    hide EncodesVal, EncodeVal, IsZeroVal, TypedVal, EncodeArray;
    match f.rule
    case Repeated(max) => ArrayEncodes(f, Items(c), max);
    case FixedCount(n) => ArrayEncodes(f, Slots(c, n), n);
    case Oneof => if Which(c) == f.tag { ValEncodes(f, Item(c)); }
    case _ => ValEncodes(f, Item(c));
  }

  lemma {:induction false} FieldsEncode(fs: seq<Field>, i: nat, m: Cells)
    requires WellFormed(fs) && Typed(fs, m) && i <= |fs|
    ensures EncodeFrom(fs, i, m).Some? <==> forall j :: i <= j < |fs| ==> EncodesCell(fs[j], At(m, fs[j].addr))
    decreases fs, |fs| - i
  {
    hide EncodesCell, EncodeField, TypedCell, WellFormedField;
    if i < |fs| {
      FieldEncodes(fs[i], At(m, fs[i].addr));
      FieldsEncode(fs, i + 1, m);
    }
  }

  /** Encoding succeeds exactly when, in all that is written, at every depth, no count is above the
      size of its array and no byte array above that of its member. */
  lemma EncodesExact(fs: seq<Field>, m: Cells)
    requires WellFormed(fs) && Typed(fs, m)
    ensures EncodeMsg(fs, m).Some? <==> Encodes(fs, m)
  {
    FieldsEncode(fs, 0, m);
  }

  // ----- what is zero -----

  /** No member of a union is selected. */
  predicate NoneSelected(fs: seq<Field>, i: nat, m: Cells) {
    forall j :: i <= j < |fs| && fs[j].rule.Oneof? ==> Which(At(m, fs[j].addr)) == 0
  }

  lemma RecordNotEmpty(f: Field, v: Val)
    ensures EncodeRecord(f, v) != Some([])
  {
  }

  lemma ArrayNotEmpty(f: Field, vs: seq<Val>, max: nat)
    ensures EncodeArray(f, vs, max) == Some([]) <==> vs == []
  {
    hide EncodePacked;
    if vs != [] {
      RecordNotEmpty(f, vs[0]);
    }
  }

  /** A field is zero exactly when nothing is written for it, unless it is in a union: then the
      whole union must be unselected. */
  lemma ZeroCellExact(f: Field, c: Cell)
    requires WellFormedField(f)
    ensures IsZeroCell(f, c) <==> EncodeField(f, c) == Some([]) && (f.rule.Oneof? ==> Which(c) == 0)
  {
    hide EncodeRecord, EncodeArray, IsZeroVal;
    match f.rule
    case Repeated(max) => ArrayNotEmpty(f, Items(c), max);
    case FixedCount(n) => ArrayNotEmpty(f, Slots(c, n), n);
    case _ => RecordNotEmpty(f, Item(c));
  }

  lemma {:induction false} ZeroFieldsExact(fs: seq<Field>, i: nat, m: Cells)
    requires WellFormed(fs) && i <= |fs|
    ensures AllZero(fs, i, m) <==> EncodeFrom(fs, i, m) == Some([]) && NoneSelected(fs, i, m)
    decreases |fs| - i
  {
    hide EncodeField, IsZeroCell, WellFormedField, Which, At;
    if i < |fs| {
      ZeroCellExact(fs[i], At(m, fs[i].addr));
      ZeroFieldsExact(fs, i + 1, m);
      var first, others := EncodeField(fs[i], At(m, fs[i].addr)), EncodeFrom(fs, i + 1, m);
      if first.Some? && others.Some? {
        assert |first.value + others.value| == |first.value| + |others.value|;
      }
    }
  }

  /** The values a proto3 field holds without being written: the number 0, empty bytes, a string that
      starts with its NUL, and a submessage in which nothing would be written and no member of a
      union is selected. */
  lemma ZeroExact(f: Field, v: Val)
    requires WellFormedField(f) && TypedVal(f, v)
    ensures f.ltype.Bool? || f.ltype.Integer? || f.ltype.Fixed32? || f.ltype.Fixed64? ==>
              (IsZeroVal(f, v) <==> v.n == 0)
    ensures f.ltype.Bytes? || f.ltype.FixedLengthBytes? ==> (IsZeroVal(f, v) <==> |v.bytes| == 0)
    ensures f.ltype.String? ==> (IsZeroVal(f, v) <==> |v.bytes| == 0 || v.bytes[0] == 0)
    ensures f.ltype.Submessage? ==>
              (IsZeroVal(f, v) <==>
               EncodeMsg(f.ltype.fields, v.cells) == Some([]) && NoneSelected(f.ltype.fields, 0, v.cells))
  {
    if f.ltype.Submessage? {
      ZeroFieldsExact(f.ltype.fields, 0, v.cells);
    }
  }
}
