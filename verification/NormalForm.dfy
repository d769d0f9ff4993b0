/**
 The normal form of RoundTrip, field by field: what a decoded field holds, compared with the
 field that was encoded.
 */
module NormalForm {
  import opened Wrappers
  import opened Varint
  import opened Integers
  import opened Schema
  import opened Encoding
  import opened Decoding
  import opened RoundTrip
  import opened Initial

  /** The value a field has when its default is zero or not given. */
  function ZeroVal(f: Field): Val {
    match f.ltype
    case Bytes => Blob([])
    case String => Blob([])
    case FixedLengthBytes => Blob(Zeros(f.dataSize))
    case Submessage(fs) => Msg(Defaults(fs, |fs|))
    case _ => Num(0)
  }

  predicate DefaultIsZero(f: Field) {
    f.default.None? || f.default.value == ZeroVal(f)
  }

  /** In a message without anything to write, every field decodes to its default. */
  lemma {:induction false} NothingPresent(fs: seq<Field>, k: nat, m: Cells)
    requires WellFormed(fs) && k <= |fs| && AllZero(fs, 0, m)
    ensures NormalFrom(fs, k, m) == Defaults(fs, |fs|)
    decreases k
  {
    if k > 0 {
      NothingPresent(fs, k - 1, m);
      ZeroAt(fs, 0, k - 1, m);
    }
  }

  lemma {:induction false} ZeroAt(fs: seq<Field>, i: nat, k: nat, m: Cells)
    requires i <= k < |fs| && AllZero(fs, i, m)
    ensures IsZeroCell(fs[k], At(m, fs[k].addr))
    decreases k - i
  {
    if i < k {
      ZeroAt(fs, i + 1, k, m);
    }
  }

  lemma ZeroNormal(f: Field, v: Val)
    requires WellFormedField(f) && TypedVal(f, v) && IsZeroVal(f, v)
    ensures Normal(f, v) == ZeroVal(f)
  {
    match f.ltype
    case Submessage(fs) => NothingPresent(fs, |fs|, v.cells);
    case _ =>
  }

  /** A field keeps what it was given when its turn came: no later field writes its memory. */
  lemma {:induction false} KeptAfter(fs: seq<Field>, k: nat, m: Cells, i: nat)
    requires WellFormed(fs) && i < k <= |fs|
    requires fs[i].rule.Oneof? ==> Present(fs[i], At(m, fs[i].addr))
    ensures At(NormalFrom(fs, k, m), fs[i].addr) ==
            if Present(fs[i], At(m, fs[i].addr)) then NormalCell(fs[i], At(m, fs[i].addr)) else DefaultCell(fs[i])
    decreases k
  {
    hide NormalCell, DefaultCell, WellFormedField;
    if k - 1 == i {
      Untouched(fs, i, m, i);
    } else {
      KeptAfter(fs, k - 1, m, i);
    }
  }

  lemma {:induction false} NothingSelected(fs: seq<Field>, k: nat, m: Cells, i: nat)
    requires WellFormed(fs) && k <= |fs| && i < |fs| && fs[i].rule.Oneof?
    requires forall j :: 0 <= j < |fs| && fs[j].addr == fs[i].addr ==> fs[j].tag != Which(At(m, fs[i].addr))
    ensures At(NormalFrom(fs, k, m), fs[i].addr) == Union(0, Stale)
    decreases k
  {
    hide NormalCell, WellFormedField;
    if k == 0 {
      DefaultsAt(fs, |fs|, i);
    } else {
      NothingSelected(fs, k - 1, m, i);
    }
  }

  /** A decoded cell d against the encoded cell c. A union is looked at by its selected member. */
  predicate ComesBack(f: Field, c: Cell, d: Cell) {
    match f.rule
    case Required => d == One(Normal(f, Item(c)))
    case Singular => d == One(Normal(f, Item(c)))
    case Optional =>
      if Has(c) then d == Opt(true, Normal(f, Item(c))) else d.Opt? && !d.has && IsInitialVal(f, d.v)
    case Repeated(_) => d == Arr(NormalItems(f, Items(c)))
    case FixedCount(n) => d == Fixed(NormalItems(f, Slots(c, n)))
    case Oneof => Which(c) == f.tag ==> d == Union(f.tag, Normal(f, Item(c)))
  }

  /** The union at the i-th field has no member with the number in which_. */
  predicate Unselected(fs: seq<Field>, i: nat, m: Cells)
    requires i < |fs|
  {
    && fs[i].rule.Oneof?
    && forall j :: 0 <= j < |fs| && fs[j].addr == fs[i].addr ==> fs[j].tag != Which(At(m, fs[i].addr))
  }

  /** What every field decodes to. Values come back in all cases but one: a proto3 singular field
      holding zero is not written, and so decodes to its default, which may be something else. */
  lemma FieldComesBack(fs: seq<Field>, m: Cells, i: nat)
    requires WellFormed(fs) && Typed(fs, m) && i < |fs|
    requires EncodeMsg(fs, m).Some? && |EncodeMsg(fs, m).value| < TWO63 && Fits(fs, m)
    ensures DecodeMsg(fs, EncodeMsg(fs, m).value).Some?
    ensures var f := fs[i];
            var c := At(m, f.addr);
            var d := At(DecodeMsg(fs, EncodeMsg(fs, m).value).value.0, f.addr);
            && (ComesBack(f, c, d) <==> !(f.rule.Singular? && IsZeroVal(f, Item(c)) && !DefaultIsZero(f)))
            && (f.rule.Singular? && IsZeroVal(f, Item(c)) ==> d.One? && IsInitialVal(f, d.v))
            && (Unselected(fs, i, m) ==> d == Union(0, Stale))
  {
    hide WellFormed, Typed, DecodeMsg, EncodeMsg, Fits, NormalMsg, Unselected;
    RoundTripExact(fs, m);
    NormalField(fs, m, i);
  }

  lemma NormalField(fs: seq<Field>, m: Cells, i: nat)
    requires WellFormed(fs) && Typed(fs, m) && i < |fs|
    ensures var f := fs[i];
            var c := At(m, f.addr);
            var d := At(NormalMsg(fs, m), f.addr);
            && (ComesBack(f, c, d) <==> !(f.rule.Singular? && IsZeroVal(f, Item(c)) && !DefaultIsZero(f)))
            && (f.rule.Singular? && IsZeroVal(f, Item(c)) ==> d.One? && IsInitialVal(f, d.v))
            && (Unselected(fs, i, m) ==> d == Union(0, Stale))
  {
    hide NormalFrom, Normal;
    var f := fs[i];
    var c := At(m, f.addr);
    assert WellFormedField(f) && TypedCell(f, c);
    if Unselected(fs, i, m) {
      NothingSelected(fs, |fs|, m, i);
    }
    if f.rule.Oneof? ==> Which(c) == f.tag {
      KeptAfter(fs, |fs|, m, i);
      CellComesBack(f, c);
      DefaultIsInitial(f);
    }
  }

  lemma CellComesBack(f: Field, c: Cell)
    requires WellFormedField(f) && TypedCell(f, c) && (f.rule.Oneof? ==> Which(c) == f.tag)
    ensures ComesBack(f, c, if Present(f, c) then NormalCell(f, c) else DefaultCell(f)) <==>
              !(f.rule.Singular? && IsZeroVal(f, Item(c)) && !DefaultIsZero(f))
  {
    DefaultIsInitial(f);
    if f.rule.Singular? && IsZeroVal(f, Item(c)) {
      ZeroNormal(f, Item(c));
    }
  }

  function FiveByDefault(): Field {
    Field(1, Singular, Integer(Signed), Static, 0, 0, 4, Some(Num(5)))
  }

  /** Zero in an int32 field whose default is 5 decodes to 5. */
  lemma ZeroBecomesDefault()
    ensures var fs := [FiveByDefault()];
            var m: Cells := map[0 := One(Num(0))];
            && WellFormed(fs) && Typed(fs, m) && EncodeMsg(fs, m) == Some([])
            && DecodeMsg(fs, []) == Some((map[0 := One(Num(5))], []))
  {
    hide DecodeMsg, EncodeMsg, WellFormedField, TypedCell;
    FiveIsFine();
    FiveIsNotWritten();
    FiveDecodes();
  }

  lemma FiveIsFine()
    ensures WellFormedField(FiveByDefault()) && TypedCell(FiveByDefault(), One(Num(0)))
  {
    Pow2Words();
  }

  lemma FiveIsNotWritten()
    ensures EncodeMsg([FiveByDefault()], map[0 := One(Num(0))]) == Some([])
  {
    var f := FiveByDefault();
    var fs, m := [f], map[0 := One(Num(0))];
    assert fs[0] == f && At(m, f.addr) == m[0] && EncodeField(f, m[0]) == Some([]);
    var nothing: seq<byte> := [];
    assert nothing + nothing == nothing && EncodeFrom(fs, 1, m) == Some(nothing);
    assert EncodeFrom(fs, 0, m) == Some(nothing);
  }

  lemma FiveDecodes()
    ensures DecodeMsg([FiveByDefault()], []) == Some((map[0 := One(Num(5))], []))
  {
    var fs := [FiveByDefault()];
    assert Defaults(fs, 0) == map[] && Defaults(fs, 1) == map[0 := One(Num(5))];
    assert RequiredBefore(fs, 0) == 0 && RequiredBefore(fs, 1) == 0;
    assert Run(fs, Start(Defaults(fs, 1)), []).Some?;
  }

  function OneByteString(): Field {
    Field(1, Required, String, Static, 0, 0, 1, None)
  }

  /** A string that fills its member and has no NUL: it is encoded, to 0A 01 41, and those bytes are
      refused. */
  lemma UnterminatedString()
    ensures var fs := [OneByteString()];
            var m: Cells := map[0 := One(Blob([0x41]))];
            && WellFormed(fs) && Typed(fs, m) && EncodeMsg(fs, m) == Some([0x0A, 0x01, 0x41])
            && DecodeMsg(fs, [0x0A, 0x01, 0x41]).None?
  {
    hide DecodeMsg, EncodeMsg, WellFormed, Typed, Fits;
    var fs := [OneByteString()];
    var m: Cells := map[0 := One(Blob([0x41]))];
    OneByteFine();
    OneByteWritten();
    RoundTripExact(fs, m);
  }

  lemma OneByteFine()
    ensures var fs := [OneByteString()];
            var m: Cells := map[0 := One(Blob([0x41]))];
            WellFormed(fs) && Typed(fs, m) && !Fits(fs, m)
  {
    var f := OneByteString();
    var s: seq<byte> := [0x41];
    assert s[1..] == [] && CString(s) == s;
    assert WellFormedField(f) && TypedCell(f, One(Blob(s)));
    assert !FitsCell(f, One(Blob(s)));
  }

  lemma OneByteWritten()
    ensures EncodeMsg([OneByteString()], map[0 := One(Blob([0x41]))]) == Some([0x0A, 0x01, 0x41])
  {
    var f := OneByteString();
    var fs, m := [f], map[0 := One(Blob([0x41]))];
    var s: seq<byte> := [0x41];
    assert s[1..] == [] && CString(s) == s;
    assert Encode(10) == [0x0A] && Encode(1) == [0x01];
    assert |s| % TWO64 == 1 && Encode(1) + s == [0x01, 0x41];
    assert EncodeScalar(f, Blob(s)) == Some(WithLength(s)) == Some([0x01, 0x41]);
    assert TagBytes(WT_STRING, 1) == Encode(10) && Encode(10) + [0x01, 0x41] == [0x0A, 0x01, 0x41];
    assert fs[0] == f && At(m, f.addr) == m[0] && EncodeField(f, m[0]) == Some([0x0A, 0x01, 0x41]);
    var nothing: seq<byte> := [];
    assert EncodeFrom(fs, 1, m) == Some(nothing) && [0x0A, 0x01, 0x41] + nothing == [0x0A, 0x01, 0x41];
    assert EncodeFrom(fs, 0, m) == Some([0x0A, 0x01, 0x41]);
  }
}
