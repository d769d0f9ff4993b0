/**
 Decoding keeps structs well-typed: after any successful decode of any bytes every number is in
 the range of its member, every string has its NUL and every byte array its bytes inside the
 member, no array has more items than entries, and the selected member of every union holds a
 value of its type.
 */
module Typing {
  import opened Wrappers
  import opened Varint
  import opened Integers
  import opened Schema
  import opened Encoding
  import opened Decoding
  import RoundTrip

  // ----- values inside their members -----

  /** A string leaves room for its NUL, a byte array for its size. */
  ghost predicate BoundedVal(f: Field, v: Val)
    decreases f, 0
  {
    && (f.ltype.Submessage? && v.Msg? ==> Bounded(f.ltype.fields, v.cells))
    && (f.ltype.String? && v.Blob? ==> |v.bytes| < f.dataSize)
    && (f.ltype.Bytes? && v.Blob? ==> |v.bytes| + SIZE_WIDTH <= f.dataSize)
  }

  ghost predicate BoundedCell(f: Field, c: Cell)
    decreases f, 1
  {
    && (f.rule.Repeated? ==> |Items(c)| <= f.rule.max)
    && (forall k :: 0 <= k < |Items(c)| ==> BoundedVal(f, Items(c)[k]))
    && ((f.rule.Oneof? ==> Which(c) == f.tag) ==> BoundedVal(f, Item(c)))
  }

  /** No value is larger than its member and no array has more items than entries, at any depth. */
  ghost predicate Bounded(fs: seq<Field>, m: Cells)
    decreases fs
  {
    forall i :: 0 <= i < |fs| ==> BoundedCell(fs[i], At(m, fs[i].addr))
  }

  /** Every member has room for its default value. */
  ghost predicate DefaultFits(f: Field)
    decreases f
  {
    if f.ltype.Submessage? then DefaultsFit(f.ltype.fields) else BoundedVal(f, DefaultVal(f))
  }

  ghost predicate DefaultsFit(fs: seq<Field>)
    decreases fs
  {
    forall i :: 0 <= i < |fs| ==> DefaultFits(fs[i])
  }

  ghost predicate GoodVal(f: Field, v: Val) {
    TypedVal(f, v) && BoundedVal(f, v)
  }

  ghost predicate GoodCell(f: Field, c: Cell) {
    TypedCell(f, c) && BoundedCell(f, c)
  }

  ghost predicate Good(fs: seq<Field>, m: Cells) {
    Typed(fs, m) && Bounded(fs, m)
  }

  // ----- decoding keeps them -----

  ghost predicate TypedPayload(f: Field, p: Payload) {
    p.Vals? ==> forall k :: 0 <= k < |p.vs| ==> GoodVal(f, p.vs[k])
  }

  lemma TakeWordTyped(n: nat, s: seq<byte>)
    requires TakeWord(n, s).Got? && n <= 8
    ensures TakeWord(n, s).val.Num? && 0 <= TakeWord(n, s).val.n < Pow2(8 * n)
  {
    FromLittleEndianBound(s[..n]);
  }

  lemma TakeScalarTyped(f: Field, s: seq<byte>)
    requires WellFormedField(f) && TakeScalar(f, s).Got?
    ensures GoodVal(f, TakeScalar(f, s).val)
  {
    match f.ltype
    case Integer(kind) => IntegerAccepts(kind, f.dataSize, Decode64(s).val);
    case Fixed32 =>
      Pow2Words();
      TakeWordTyped(4, s);
    case Fixed64 =>
      Pow2Words();
      TakeWordTyped(8, s);
    case _ =>
  }

  lemma {:induction false} TakeAllTyped(f: Field, s: seq<byte>)
    requires WellFormedField(f) && TakeAll(f, s).Some?
    ensures forall k :: 0 <= k < |TakeAll(f, s).value| ==> GoodVal(f, TakeAll(f, s).value[k])
    decreases |s|
  {
    if s != [] {
      TakeScalarTyped(f, s);
      TakeAllTyped(f, TakeScalar(f, s).rest);
    }
  }

  lemma TakePayloadTyped(f: Field, wt: nat, s: seq<byte>)
    requires WellFormedField(f) && TakePayload(f, wt, s).Got?
    ensures TypedPayload(f, TakePayload(f, wt, s).val)
  {
    if TakeScalar(f, s).Got? { TakeScalarTyped(f, s); }
    var b := TakeString(s);
    if b.Got? && TakeAll(f, b.val).Some? { TakeAllTyped(f, b.val); }
  }

  lemma DefaultTyped(f: Field)
    requires WellFormedField(f) && DefaultFits(f)
    ensures GoodVal(f, DefaultVal(f)) && GoodCell(f, DefaultCell(f))
    decreases f, 0
  {
    if f.ltype.Submessage? {
      DefaultsTyped(f.ltype.fields);
    }
  }

  lemma {:induction false} DefaultsTyped(fs: seq<Field>)
    requires WellFormed(fs) && DefaultsFit(fs)
    ensures Good(fs, Defaults(fs, |fs|))
    decreases fs
  {
    forall i | 0 <= i < |fs|
      ensures fs[i].addr in Defaults(fs, |fs|) && GoodCell(fs[i], At(Defaults(fs, |fs|), fs[i].addr))
    {
      DefaultTyped(fs[i]);
      RoundTrip.DefaultsAt(fs, |fs|, i);
    }
  }

  lemma ReplaceTyped(f: Field, was: Val, p: Payload)
    requires WellFormedField(f) && DefaultFits(f) && TypedPayload(f, p)
    requires GoodVal(f, was) || p.Vals?
    requires Replace(f, was, p).Some?
    ensures GoodVal(f, Replace(f, was, p).value)
    decreases f, 0
  {
    if p.Body? {
      DecodeTyped(f.ltype.fields, was.cells, p.bytes);
    }
  }

  lemma NewItemsTyped(f: Field, p: Payload)
    requires WellFormedField(f) && DefaultFits(f) && TypedPayload(f, p) && NewItems(f, p).Some?
    ensures forall k :: 0 <= k < |NewItems(f, p).value| ==> GoodVal(f, NewItems(f, p).value[k])
    decreases f, 1
  {
    if p.Body? {
      DefaultTyped(f);
      ReplaceTyped(f, DefaultVal(f), p);
    }
  }

  lemma FilledSlots(f: Field, c: Cell, filled: nat, vs: seq<Val>)
    requires f.rule.FixedCount? && GoodCell(f, c) && filled + |vs| <= f.rule.size
    requires forall k :: 0 <= k < |vs| ==> GoodVal(f, vs[k])
    ensures var was := Slots(c, f.rule.size);
            GoodCell(f, Fixed(was[..filled] + vs + was[filled + |vs|..]))
  {
    var was := Slots(c, f.rule.size);
    var items := was[..filled] + vs + was[filled + |vs|..];
    forall k | 0 <= k < |items|
      ensures items[k].Stale? || TypedVal(f, items[k])
      ensures BoundedVal(f, items[k])
    {
      if filled <= k < filled + |vs| {
        assert GoodVal(f, vs[k - filled]);
      } else {
        assert items[k] == Items(c)[k];
      }
    }
  }

  lemma StoreTyped(f: Field, c: Cell, filled: nat, p: Payload)
    requires WellFormedField(f) && DefaultFits(f) && TypedPayload(f, p) && GoodCell(f, c)
    requires Store(f, c, filled, p).Some?
    ensures GoodCell(f, Store(f, c, filled, p).value)
    decreases f, 2
  {
    match f.rule
    case Repeated(_) => NewItemsTyped(f, p);
    case FixedCount(n) =>
      NewItemsTyped(f, p);
      FilledSlots(f, c, filled, NewItems(f, p).value);
    case Oneof =>
      DefaultTyped(f);
      var was := if f.ltype.Submessage? && Which(c) != f.tag then DefaultVal(f) else Item(c);
      if f.ltype.Submessage? || p.Vals? {
        ReplaceTyped(f, was, p);
      }
    case _ => ReplaceTyped(f, Item(c), p);
  }

  lemma ApplyTyped(fs: seq<Field>, st: State, i: nat, p: Payload)
    requires WellFormed(fs) && DefaultsFit(fs) && i < |fs| && TypedPayload(fs[i], p) && Good(fs, st.m)
    requires Apply(fs, st, Known(i, p)).Some?
    ensures Good(fs, Apply(fs, st, Known(i, p)).value.m)
    decreases fs, 0
  {
    var f := fs[i];
    assert WellFormedField(f);
    var st1 := OpenArray(fs, st, i).value;
    var c := At(st.m, f.addr);
    StoreTyped(f, c, st1.filled, p);
    var c' := Store(f, c, st1.filled, p).value;
    var m := Apply(fs, st, Known(i, p)).value.m;
    assert m == st.m[f.addr := c'];
    forall j | 0 <= j < |fs|
      ensures fs[j].addr in m && GoodCell(fs[j], At(m, fs[j].addr))
    {
      if j != i && fs[j].addr == f.addr {
        assert fs[j].rule.Oneof? && f.rule.Oneof? && fs[j].tag != f.tag;
        assert c'.Union? && c'.which == f.tag;
      }
    }
  }

  lemma {:induction false} RunTyped(fs: seq<Field>, st: State, s: seq<byte>)
    requires WellFormed(fs) && DefaultsFit(fs) && Good(fs, st.m) && Run(fs, st, s).Some?
    ensures Good(fs, Run(fs, st, s).value.0.m)
    decreases fs, 1, |s|
  {
    if s != [] {
      var h := TakeRecord(fs, s);
      if h.Next? {
        if h.rec.Known? {
          var d := Decode32(s);
          assert WellFormedField(fs[h.rec.i]);
          TakePayloadTyped(fs[h.rec.i], d.val % 8, d.rest);
          ApplyTyped(fs, st, h.rec.i, h.rec.p);
        }
        RunTyped(fs, Apply(fs, st, h.rec).value, h.rest);
      }
    }
  }

  /** pb_decode_noinit keeps a well-typed struct with counts inside the arrays that way, whatever
      the bytes. */
  lemma DecodeTyped(fs: seq<Field>, m: Cells, s: seq<byte>)
    requires WellFormed(fs) && DefaultsFit(fs) && Good(fs, m) && Decode(fs, m, s).Some?
    ensures Good(fs, Decode(fs, m, s).value.0)
    decreases fs, 2
  {
    RunTyped(fs, Start(m), s);
  }

  /** pb_decode always makes one. */
  lemma DecodeMsgTyped(fs: seq<Field>, s: seq<byte>)
    requires WellFormed(fs) && DefaultsFit(fs) && DecodeMsg(fs, s).Some?
    ensures Good(fs, DecodeMsg(fs, s).value.0)
  {
    DefaultsTyped(fs);
    DecodeTyped(fs, Defaults(fs, |fs|), s);
  }
}
