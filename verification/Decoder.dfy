/**
 The decoder itself (pb_decode.c:402-484, 850-1090, 1339-1565, with PB_ENABLE_MALLOC, static
 fields): methods over a stream, an iterator and the destination struct, each shown to do what
 Decoding says. All submessage recursion goes through substreams.
 */
module Decoder {
  import opened Wrappers
  import opened Varint
  import opened Integers
  import opened Schema
  import opened Encoding
  import opened Decoding
  import opened InputStream
  import opened FieldIter
  import opened Bitset
  import RoundTrip
  import FieldRuns
  import Initial

  /** Layouts the descriptor macros can express, nested ones included. */
  ghost predicate LaidOutDeep(fs: seq<Field>)
    decreases fs
  {
    LaidOut(fs) && forall i :: 0 <= i < |fs| ==> LaidOutField(fs[i])
  }

  ghost predicate LaidOutField(f: Field)
    decreases f
  {
    f.ltype.Submessage? ==> LaidOutDeep(f.ltype.fields)
  }

  /** What the decoder requires of a description. */
  ghost predicate Usable(fs: seq<Field>) {
    WellFormed(fs) && LaidOutDeep(fs)
  }

  ghost predicate UsableField(f: Field) {
    WellFormedField(f) && (f.ltype.Submessage? ==> Usable(f.ltype.fields))
  }

  lemma FieldUsable(fs: seq<Field>, i: nat)
    requires Usable(fs) && i < |fs|
    ensures UsableField(fs[i])
  {
    assert WellFormedField(fs[i]) && LaidOutField(fs[i]);
  }

  /** A destination struct. */
  class Struct {
    var cells: Cells

    constructor (m: Cells)
      ensures cells == m
    {
      cells := m;
    }
  }

  // ----- scalar decoders -----

  method DecBool(stream: IStream) returns (ok: bool, v: Val)
    requires stream.Valid()
    modifies stream
    ensures stream.Valid() && stream.End() == old(stream.End())
    ensures ok <==> Decode32(old(stream.Rest())).Got?
    ensures ok ==> Decode32(old(stream.Rest())).rest == stream.Rest()
    ensures ok ==> v == Num(if Decode32(old(stream.Rest())).val != 0 then 1 else 0)
  {
    var got, value := stream.DecodeVarint32();
    return got, Num(if value != 0 then 1 else 0);
  }

  /** pb_dec_varint, pb_dec_uvarint and pb_dec_svarint */
  method DecInteger(stream: IStream, kind: IntKind, dataSize: nat) returns (ok: bool, v: Val)
    requires stream.Valid()
    modifies stream
    ensures stream.Valid() && stream.End() == old(stream.End())
    ensures ok <==>
            && Decode64(old(stream.Rest())).Got?
            && IntegerOf(kind, dataSize, Decode64(old(stream.Rest())).val).Some?
    ensures ok ==> Decode64(old(stream.Rest())).rest == stream.Rest()
    ensures ok ==> v == Num(IntegerOf(kind, dataSize, Decode64(old(stream.Rest())).val).value)
  {
    var got, value := stream.DecodeVarint();
    if !got {
      return false, Stale;
    }
    var svalue := match kind
      case Signed => if dataSize == 8 then ToSigned(value, 8) else ToSigned(value, 4)
      case Unsigned => value
      case ZigZag => UnZigZag(value);
    if !IsWidth(dataSize) {
      return false, Stale;
    }
    var clamped := if kind.Unsigned? then ToUnsigned(svalue, dataSize) else ToSigned(svalue, dataSize);
    if clamped != svalue {
      return false, Stale;
    }
    return true, Num(clamped);
  }

  /** pb_decode_fixed32 and pb_decode_fixed64: the bytes put together, lowest first. */
  method DecFixed(stream: IStream, n: nat) returns (ok: bool, v: Val)
    requires stream.Valid()
    modifies stream
    ensures stream.Valid() && stream.End() == old(stream.End())
    ensures ok <==> TakeWord(n, old(stream.Rest())).Got?
    ensures ok ==> TakeWord(n, old(stream.Rest())) == Got(v, stream.Rest())
  {
    var got, bytes := stream.Read(n);
    if !got {
      return false, Stale;
    }
    var w: nat := 0;
    var i := n;
    while i > 0
      invariant 0 <= i <= n
      invariant w == FromLittleEndian(bytes[i..])
    {
      i := i - 1;
      assert bytes[i..][1..] == bytes[i + 1..];
      w := bytes[i] + 256 * w;
    }
    assert bytes[0..] == bytes;
    return true, Num(w);
  }

  /** The end of pb_dec_bytes, pb_dec_string and pb_dec_fixed_length_bytes. */
  method DecBlob(stream: IStream, size: nat) returns (ok: bool, v: Val)
    requires stream.Valid()
    modifies stream
    ensures stream.Valid() && stream.End() == old(stream.End())
    ensures ok <==> TakeBlob(size, old(stream.Rest())).Got?
    ensures ok ==> TakeBlob(size, old(stream.Rest())) == Got(v, stream.Rest())
  {
    var got, bytes := stream.Read(size);
    return got, Blob(bytes);
  }

  /** The decoder of the PB_DECODERS table for the field's type, submessages excepted. */
  method DecScalar(stream: IStream, f: Field) returns (ok: bool, v: Val)
    requires stream.Valid() && !f.ltype.Submessage?
    modifies stream
    ensures stream.Valid() && stream.End() == old(stream.End())
    ensures ok <==> TakeScalar(f, old(stream.Rest())).Got?
    ensures ok ==> TakeScalar(f, old(stream.Rest())) == Got(v, stream.Rest())
  {
    if f.ltype.Bool? {
      ok, v := DecBool(stream);
    } else if f.ltype.Integer? {
      ok, v := DecInteger(stream, f.ltype.kind, f.dataSize);
    } else if f.ltype.Fixed32? {
      ok, v := DecFixed(stream, 4);
    } else if f.ltype.Fixed64? {
      ok, v := DecFixed(stream, 8);
    } else if f.ltype.Bytes? {
      ok, v := DecBytes(stream, f);
    } else if f.ltype.String? {
      ok, v := DecString(stream, f);
    } else if f.ltype.FixedLengthBytes? {
      ok, v := DecFixedLengthBytes(stream, f);
    } else {
      return false, Stale;
    }
  }

  method DecBytes(stream: IStream, f: Field) returns (ok: bool, v: Val)
    requires stream.Valid() && f.ltype.Bytes?
    modifies stream
    ensures stream.Valid() && stream.End() == old(stream.End())
    ensures ok <==> TakeScalar(f, old(stream.Rest())).Got?
    ensures ok ==> TakeScalar(f, old(stream.Rest())) == Got(v, stream.Rest())
  {
    var got, size := stream.DecodeVarint32();
    if !got || size > PbSizeMax() || size + SIZE_WIDTH > f.dataSize {
      return false, Stale;
    }
    ok, v := DecBlob(stream, size);
  }

  method DecString(stream: IStream, f: Field) returns (ok: bool, v: Val)
    requires stream.Valid() && f.ltype.String?
    modifies stream
    ensures stream.Valid() && stream.End() == old(stream.End())
    ensures ok <==> TakeScalar(f, old(stream.Rest())).Got?
    ensures ok ==> TakeScalar(f, old(stream.Rest())) == Got(v, stream.Rest())
  {
    var got, size := stream.DecodeVarint32();
    if !got || size + 1 > f.dataSize {
      return false, Stale;
    }
    ok, v := DecBlob(stream, size);
  }

  method DecFixedLengthBytes(stream: IStream, f: Field) returns (ok: bool, v: Val)
    requires stream.Valid() && f.ltype.FixedLengthBytes?
    modifies stream
    ensures stream.Valid() && stream.End() == old(stream.End())
    ensures ok <==> TakeScalar(f, old(stream.Rest())).Got?
    ensures ok ==> TakeScalar(f, old(stream.Rest())) == Got(v, stream.Rest())
  {
    var got, size := stream.DecodeVarint32();
    if !got || size > PbSizeMax() {
      return false, Stale;
    }
    if size == 0 {
      return true, Blob(Zeros(f.dataSize));
    }
    if size != f.dataSize {
      return false, Stale;
    }
    ok, v := DecBlob(stream, size);
  }

  // ----- defaults -----

  /** pb_message_set_to_defaults */
  method SetToDefaults(fs: seq<Field>, dest: Struct)
    requires Usable(fs)
    modifies dest
    ensures dest.cells == Defaults(fs, |fs|)
    ensures Initial.IsInitial(fs, dest.cells)
    decreases fs, 2
  {
    hide LaidOut, Descriptors, WellFormed;
    Initial.DefaultsAreInitial(fs);
    dest.cells := map[];
    var iter := new FieldIter(fs, Descriptors(fs), 0);
    var more := iter.Begin();
    ghost var k: nat := 0;
    while more
      invariant fresh(iter) && iter.Valid() && iter.fs == fs && iter.destStruct == 0 && k <= |fs|
      invariant if more then k < |fs| && iter.pos == k else k == |fs|
      invariant dest.cells == Defaults(fs, k)
      decreases |fs| - k
    {
      FieldUsable(fs, iter.pos);
      var c := FieldDefault(fs[iter.pos]);
      dest.cells := dest.cells[iter.pData := c];
      more := iter.Next();
      k := k + 1;
    }
  }

  /** pb_field_set_to_default */
  method FieldDefault(f: Field) returns (c: Cell)
    requires UsableField(f)
    ensures c == DefaultCell(f)
    decreases f, 1
  {
    match f.rule
    case Repeated(_) => c := Arr([]);
    case FixedCount(n) => c := Fixed(seq(n, _ => Stale));
    case Oneof => c := Union(0, Stale);
    case _ =>
      var v: Val;
      if f.ltype.Submessage? {
        var sub := new Struct(map[]);
        SetToDefaults(f.ltype.fields, sub);
        v := Msg(sub.cells);
      } else if f.default.Some? {
        v := f.default.value;
      } else {
        v := ZeroedVal(f);
      }
      c := if f.rule.Optional? then Opt(false, v) else One(v);
  }

  /** memset of a member */
  function ZeroedVal(f: Field): (v: Val)
    ensures Initial.IsZeroOf(f, v)
  {
    match f.ltype
    case Bytes => Blob([])
    case String => Blob([])
    case FixedLengthBytes => Blob(Zeros(f.dataSize))
    case _ => Num(0)
  }

  // ----- a single field -----

  /** The value an item decoder works on: array entries start from the defaults. */
  function Target(f: Field, was: Val): Val {
    if f.rule.Repeated? || f.rule.FixedCount? then DefaultVal(f) else was
  }

  /** What reading one item makes of the value in place. */
  function ItemResult(f: Field, was: Val, s: seq<byte>): Parsed<Val> {
    match TakeItem(f, s)
    case Bad => Bad
    case Got(p, rest) =>
      var v := Replace(f, Target(f, was), p);
      if v.Some? then Got(v.value, rest) else Bad
  }

  /** The call func(stream, field, dest) through the PB_DECODERS table. */
  method DecodeItem(stream: IStream, f: Field, was: Val) returns (ok: bool, v: Val)
    requires stream.Valid() && UsableField(f)
    modifies stream
    ensures stream.Valid() && stream.End() <= old(stream.End()) && (ok ==> stream.End() == old(stream.End()))
    ensures ok <==> ItemResult(f, was, old(stream.Rest())).Got?
    ensures ok ==> ItemResult(f, was, old(stream.Rest())) == Got(v, stream.Rest())
    decreases f, 1
  {
    if f.ltype.Submessage? {
      ok, v := DecSubmessage(stream, f, was);
    } else {
      ok, v := DecScalar(stream, f);
    }
  }

  lemma SubmessageResult(f: Field, was: Val, s: seq<byte>)
    requires f.ltype.Submessage?
    ensures var t := TakeString(s);
            var m := if f.rule.Repeated? || f.rule.FixedCount?
                     then DecodeMsg(f.ltype.fields, if t.Got? then t.val else [])
                     else Decode(f.ltype.fields, SubCells(was), if t.Got? then t.val else []);
            ItemResult(f, was, s) == if t.Bad? || m.None? then Bad else Got(Msg(m.value.0), t.rest)
  {
    assert SubCells(DefaultVal(f)) == Defaults(f.ltype.fields, |f.ltype.fields|);
  }

  /** pb_dec_submessage */
  method DecSubmessage(stream: IStream, f: Field, was: Val) returns (ok: bool, v: Val)
    requires stream.Valid() && UsableField(f) && f.ltype.Submessage?
    modifies stream
    ensures stream.Valid() && stream.End() <= old(stream.End()) && (ok ==> stream.End() == old(stream.End()))
    ensures ok <==> ItemResult(f, was, old(stream.Rest())).Got?
    ensures ok ==> ItemResult(f, was, old(stream.Rest())) == Got(v, stream.Rest())
    decreases f, 0
  {
    hide WellFormed, LaidOut, Decode, DecodeMsg, ItemResult, TakeString;
    ghost var end := stream.End();
    SubmessageResult(f, was, stream.Rest());
    var made, substream := stream.MakeSubstream();
    if !made {
      return false, Stale;
    }
    ghost var stop := substream.End();
    var fs := f.ltype.fields;
    var dest := new Struct(SubCells(was));
    var status: bool;
    if f.rule.Repeated? || f.rule.FixedCount? {
      status := DecodeMessage(substream, fs, dest);
    } else {
      status := DecodeNoinit(substream, fs, dest);
    }
    var closed := stream.CloseSubstream(substream);
    if !closed || !status {
      return false, Stale;
    }
    assert stream.Rest() == stream.buf[stop..end];
    return true, Msg(dest.cells);
  }

  /** What a record makes of a field's cell and of the count of an array without _count, and
      what it leaves. */
  function FieldResult(f: Field, c: Cell, count: nat, wireType: nat, s: seq<byte>): Option<(Cell, nat, seq<byte>)> {
    match TakePayload(f, wireType, s)
    case Bad => None
    case Got(p, rest) =>
      var c' :- Store(f, c, count, p);
      Some((c', if f.rule.FixedCount? then count + Count(p) else count, rest))
  }

  /** The entries of an array and how many of them are in use: the items up to _count, or all
      entries and the local counter. */
  function Entries(f: Field, c: Cell): seq<Val> {
    if f.rule.FixedCount? then Slots(c, f.rule.size) else Items(c)
  }

  function InUse(f: Field, c: Cell, count: nat): nat {
    if f.rule.FixedCount? then count else |Items(c)|
  }

  function ArraySize(f: Field): nat {
    match f.rule
    case Repeated(max) => max
    case FixedCount(n) => n
    case _ => 0
  }

  function ArrayCell(f: Field, entries: seq<Val>): Cell {
    if f.rule.FixedCount? then Fixed(entries) else Arr(entries)
  }

  /** Entries after items were stored from position k on. */
  function Put(entries: seq<Val>, k: nat, vs: seq<Val>): seq<Val>
    requires k <= |entries|
  {
    entries[..k] + vs + if k + |vs| <= |entries| then entries[k + |vs|..] else []
  }

  lemma PutMore(entries: seq<Val>, k: nat, vs: seq<Val>, v: Val)
    requires k <= |entries|
    ensures k + |vs| <= |Put(entries, k, vs)| && k + |vs| + 1 <= |Put(entries, k, vs + [v])|
    ensures Put(entries, k, []) == entries
    ensures Put(Put(entries, k, vs), k + |vs|, [v]) == Put(entries, k, vs + [v])
  {
  }

  /** Storing items in an array is putting them after those in use. */
  lemma StorePut(f: Field, c: Cell, count: nat, vs: seq<Val>)
    requires f.rule.Repeated? || f.rule.FixedCount?
    requires InUse(f, c, count) <= |Entries(f, c)|
    requires InUse(f, c, count) + |vs| <= ArraySize(f) || vs == []
    ensures Store(f, c, count, Vals(vs)) == Some(ArrayCell(f, Put(Entries(f, c), InUse(f, c, count), vs)))
  {
    RoundTrip.StoreItems(f, c, count, vs);
    var entries, k := Entries(f, c), InUse(f, c, count);
    if f.rule.Repeated? {
      assert entries[..k] == entries;
      assert Put(entries, k, vs) == entries + vs;
    } else {
      assert Put(entries, k, vs) == entries[..k] + vs + entries[k + |vs|..];
    }
  }

  lemma StoreFull(f: Field, c: Cell, count: nat, vs: seq<Val>)
    requires f.rule.Repeated? || f.rule.FixedCount?
    requires InUse(f, c, count) + |vs| > ArraySize(f) && vs != []
    ensures Store(f, c, count, Vals(vs)).None?
  {
    RoundTrip.StoreItems(f, c, count, vs);
  }

  lemma PackedResult(f: Field, c: Cell, count: nat, s: seq<byte>)
    requires IsPacked(f, WT_STRING)
    ensures var t := TakeString(s);
            var vs := TakeAll(f, if t.Got? then t.val else []);
            var c' := Store(f, c, count, Vals(if vs.Some? then vs.value else []));
            FieldResult(f, c, count, WT_STRING, s) ==
            if t.Bad? || vs.None? || c'.None? then None
            else Some((c'.value, if f.rule.FixedCount? then count + |vs.value| else count, t.rest))
  {
    hide TakeAll, Store, TakeString;
  }

  /** The loop over a packed array: items while there are bytes and free entries. */
  method DecodeItems(substream: IStream, f: Field, before: seq<Val>, k: nat)
    returns (status: bool, entries: seq<Val>, size: nat, ghost done: seq<Val>)
    requires substream.Valid() && f.ltype.Packable() && k <= |before|
    modifies substream
    ensures substream.Valid() && substream.End() == old(substream.End())
    ensures entries == Put(before, k, done) && size == k + |done|
    ensures done != [] ==> k + |done| <= ArraySize(f)
    ensures status ==> TakeAll(f, old(substream.Rest())) == Prepend(done, TakeAll(f, substream.Rest()))
    ensures status ==> substream.left == 0 || k + |done| >= ArraySize(f)
    ensures !status ==> TakeAll(f, old(substream.Rest())).None?
  {
    hide TakeScalar, Put, TakeAll;
    ghost var body := substream.Rest();
    entries, size, status, done := before, k, true, [];
    PutMore(before, k, [], Stale);
    PrependNone(TakeAll(f, body));
    while status && substream.left > 0 && size < ArraySize(f)
      invariant substream.Valid() && substream.End() == old(substream.End())
      invariant size == k + |done| && (done != [] ==> size <= ArraySize(f))
      invariant entries == Put(before, k, done) && size <= |entries|
      invariant status ==> TakeAll(f, body) == Prepend(done, TakeAll(f, substream.Rest()))
      invariant !status ==> TakeAll(f, body).None?
      decreases status, substream.left
    {
      TakeAllStep(f, substream.Rest());
      var got, v := DecScalar(substream, f);
      if !got {
        status := false;
      } else {
        assert done + [v] != [];
        PrependMore(done, v, TakeAll(f, substream.Rest()));
        PutMore(before, k, done, v);
        entries := Put(entries, size, [v]);
        done := done + [v];
        size := size + 1;
      }
    }
  }

  /** The packed case of decode_static_field. */
  method DecodePacked(stream: IStream, f: Field, c: Cell, count: nat) returns (ok: bool, c': Cell, newCount: nat)
    requires stream.Valid() && UsableField(f) && IsPacked(f, WT_STRING) && InUse(f, c, count) <= |Entries(f, c)|
    modifies stream
    ensures stream.Valid() && stream.End() <= old(stream.End()) && (ok ==> stream.End() == old(stream.End()))
    ensures ok <==> FieldResult(f, c, count, WT_STRING, old(stream.Rest())).Some?
    ensures ok ==> FieldResult(f, c, count, WT_STRING, old(stream.Rest())) == Some((c', newCount, stream.Rest()))
  {
    hide WellFormed, LaidOutDeep, TakeScalar, Store, Put;
    hide TakeAll, FieldResult, TakeString, Entries, ArraySize, ArrayCell;
    ghost var end := stream.End();
    PackedResult(f, c, count, stream.Rest());
    c', newCount := c, count;
    var made, substream := stream.MakeSubstream();
    if !made {
      return false, c', newCount;
    }
    ghost var body := substream.Rest();
    ghost var stop := substream.End();
    var k := InUse(f, c, count);
    var status, entries, size;
    ghost var done;
    status, entries, size, done := DecodeItems(substream, f, Entries(f, c), k);
    if status {
      PackedOutcome(f, c, count, body, done, substream.Rest());
    }
    if substream.left != 0 {
      return false, c', newCount;
    }
    var closed := stream.CloseSubstream(substream);
    if !closed || !status {
      return false, c', newCount;
    }
    assert stream.Rest() == stream.buf[stop..end];
    return true, ArrayCell(f, entries), if f.rule.FixedCount? then size else count;
  }

  function Prepend(vs: seq<Val>, more: Option<seq<Val>>): Option<seq<Val>> {
    if more.None? then None else Some(vs + more.value)
  }

  lemma TakeAllStep(f: Field, s: seq<byte>)
    requires s != []
    ensures TakeAll(f, s) ==
            if TakeScalar(f, s).Bad? then None else Prepend([TakeScalar(f, s).val], TakeAll(f, TakeScalar(f, s).rest))
  {
  }

  lemma PrependNone(more: Option<seq<Val>>)
    ensures Prepend([], more) == more
  {
    if more.Some? {
      assert [] + more.value == more.value;
    }
  }

  lemma PrependMore(done: seq<Val>, v: Val, more: Option<seq<Val>>)
    ensures Prepend(done, Prepend([v], more)) == Prepend(done + [v], more)
  {
    if more.Some? {
      assert done + ([v] + more.value) == done + [v] + more.value;
    }
  }

  /** When the loop stops, either everything was read or the entries ran out. */
  lemma PackedOutcome(f: Field, c: Cell, count: nat, body: seq<byte>, done: seq<Val>, rest: seq<byte>)
    requires f.rule.Repeated? || f.rule.FixedCount?
    requires InUse(f, c, count) <= |Entries(f, c)|
    requires TakeAll(f, body) == Prepend(done, TakeAll(f, rest))
    requires rest == [] || InUse(f, c, count) + |done| >= ArraySize(f)
    requires done != [] ==> InUse(f, c, count) + |done| <= ArraySize(f)
    ensures rest == [] ==> TakeAll(f, body) == Some(done)
    ensures rest == [] ==>
              Store(f, c, count, Vals(done)) == Some(ArrayCell(f, Put(Entries(f, c), InUse(f, c, count), done)))
    ensures rest != [] ==> TakeAll(f, body).None? || Store(f, c, count, Vals(TakeAll(f, body).value)).None?
  {
    if rest == [] {
      assert done + [] == done;
      StorePut(f, c, count, done);
    } else if TakeAll(f, body).Some? {
      StoreFull(f, c, count, TakeAll(f, body).value);
    }
  }

  /** The cell of a field with a single item after a record. */
  function SingleCell(f: Field, v: Val): Cell {
    match f.rule
    case Optional => Opt(true, v)
    case Oneof => Union(f.tag, v)
    case _ => One(v)
  }

  /** What the record of a single item is decoded over. */
  function SingleBase(f: Field, c: Cell): Val {
    if f.rule.Oneof? && f.ltype.Submessage? && Which(c) != f.tag then DefaultVal(f) else Item(c)
  }

  lemma SingleOutcome(f: Field, c: Cell, count: nat, wireType: nat, s: seq<byte>)
    requires !f.rule.Repeated? && !f.rule.FixedCount?
    ensures FieldResult(f, c, count, wireType, s) ==
            if ItemResult(f, SingleBase(f, c), s).Bad? then None
            else Some((SingleCell(f, ItemResult(f, SingleBase(f, c), s).val), count,
                ItemResult(f, SingleBase(f, c), s).rest))
  {
    var t := TakeItem(f, s);
    assert !IsPacked(f, wireType);
    if t.Got? {
      var v := Replace(f, SingleBase(f, c), t.val);
      assert Store(f, c, count, t.val) == if v.Some? then Some(SingleCell(f, v.value)) else None;
    }
  }

  /** decode_static_field, as far as one cell goes. */
  method DecodeStaticField(stream: IStream, wireType: nat, iter: FieldIter, f: Field, c: Cell, count: nat)
    returns (ok: bool, c': Cell, newCount: nat)
    requires stream.Valid() && UsableField(f)
    requires iter.Valid() && iter.fs != [] && iter.fs[iter.pos] == f && (f.rule.FixedCount? ==> count <= f.rule.size)
    modifies stream
    ensures stream.Valid() && stream.End() <= old(stream.End()) && (ok ==> stream.End() == old(stream.End()))
    ensures ok <==> FieldResult(f, c, count, wireType, old(stream.Rest())).Some?
    ensures ok ==> FieldResult(f, c, count, wireType, old(stream.Rest())) == Some((c', newCount, stream.Rest()))
    decreases f, 3
  {
    hide LaidOut, TakeScalar, Decode, Defaults, RequiredBefore, Store, ItemResult;
    var d := iter.Pos();
    var v: Val;
    c', newCount := c, count;
    if !d.htype.REPEATED? {
      SingleOutcome(f, c, count, wireType, stream.Rest());
    }
    match d.htype
    case REQUIRED =>
      ok, v := DecodeItem(stream, f, Item(c));
      c' := One(v);
    case OPTIONAL =>
      ok, v := DecodeItem(stream, f, Item(c));
      c' := if iter.pSize != iter.pData then Opt(true, v) else One(v);
    case REPEATED =>
      if wireType == WT_STRING && d.ltype.Packable() {
        ok, c', newCount := DecodePacked(stream, f, c, count);
      } else {
        ok, c', newCount := DecodeEntry(stream, f, c, count);
      }
    case ONEOF =>
      var was := Item(c);
      if d.ltype.Submessage? && Which(c) != d.tag {
        was := DefaultSubmessage(f);
      }
      ok, v := DecodeItem(stream, f, was);
      c' := Union(d.tag, v);
  }

  /** A submessage with its default contents. */
  method DefaultSubmessage(f: Field) returns (v: Val)
    requires UsableField(f) && f.ltype.Submessage?
    ensures v == DefaultVal(f)
  {
    var sub := new Struct(map[]);
    SetToDefaults(f.ltype.fields, sub);
    v := Msg(sub.cells);
  }

  /** The unpacked case of an array: one more entry. */
  method DecodeEntry(stream: IStream, f: Field, c: Cell, count: nat) returns (ok: bool, c': Cell, newCount: nat)
    requires stream.Valid() && UsableField(f) && (f.rule.Repeated? || f.rule.FixedCount?)
    requires InUse(f, c, count) <= |Entries(f, c)|
    modifies stream
    ensures stream.Valid() && stream.End() <= old(stream.End()) && (ok ==> stream.End() == old(stream.End()))
    ensures ok <==> EntryResult(f, c, count, old(stream.Rest())).Some?
    ensures ok ==> EntryResult(f, c, count, old(stream.Rest())) == Some((c', newCount, stream.Rest()))
    decreases f, 2
  {
    hide WellFormed, LaidOutDeep, TakeScalar, Store;
    ghost var s := stream.Rest();
    var size := InUse(f, c, count);
    EntryOutcome(f, c, count, s);
    if size >= ArraySize(f) {
      return false, c, count;
    }
    var got, v := DecodeItem(stream, f, Stale);
    if !got {
      return false, c, count;
    }
    return true, ArrayCell(f, Put(Entries(f, c), size, [v])), if f.rule.FixedCount? then count + 1 else count;
  }

  /** FieldResult for a record with a single item. */
  function EntryResult(f: Field, c: Cell, count: nat, s: seq<byte>): Option<(Cell, nat, seq<byte>)> {
    match TakeItem(f, s)
    case Bad => None
    case Got(p, rest) =>
      var c' :- Store(f, c, count, p);
      Some((c', if f.rule.FixedCount? then count + Count(p) else count, rest))
  }

  lemma EntryOutcome(f: Field, c: Cell, count: nat, s: seq<byte>)
    requires f.rule.Repeated? || f.rule.FixedCount?
    requires InUse(f, c, count) <= |Entries(f, c)|
    ensures EntryResult(f, c, count, s) ==
            if ItemResult(f, Stale, s).Bad? || InUse(f, c, count) >= ArraySize(f) then None
            else
              Some((ArrayCell(f, Put(Entries(f, c), InUse(f, c, count), [ItemResult(f, Stale, s).val])),
                    if f.rule.FixedCount? then count + 1 else count, ItemResult(f, Stale, s).rest))
  {
    hide TakeScalar, Decode, Slots, Items;
    var t := TakeItem(f, s);
    if t.Got? {
      var p := t.val;
      var v := Replace(f, DefaultVal(f), p);
      assert p.Vals? ==> |p.vs| == 1 && p.vs == [p.vs[0]];
      assert NewItems(f, p) == if v.Some? then Some([v.value]) else None;
      if v.Some? {
        assert Store(f, c, count, p) == Store(f, c, count, Vals([v.value])) by {
          assert NewItems(f, Vals([v.value])) == Some([v.value]);
        }
        if InUse(f, c, count) >= ArraySize(f) {
          StoreFull(f, c, count, [v.value]);
        } else {
          StorePut(f, c, count, [v.value]);
        }
      }
    }
  }

  /** pb_release_union_field, with nothing to release in static members: the old which_ value
      must be zero or the number of some field. */
  method ReleaseUnionField(iter: FieldIter, fs: seq<Field>, which: nat) returns (ok: bool)
    requires Usable(fs) && iter.Valid() && iter.fs == fs && fs != [] && fs[iter.pos].rule.Oneof?
    modifies iter
    ensures iter.Valid() && (ok ==> iter.pos == old(iter.pos))
    ensures ok <==> which == 0 || FieldRuns.TagKnown(fs, which)
    ensures ok <==> UnionTagOk(fs, fs[old(iter.pos)], which)
  {
    ghost var i := iter.pos;
    FieldUsable(fs, i);
    var newTag := iter.Pos().tag;
    if which == 0 || which == newTag {
      return true;
    }
    var found := iter.Find(which);
    if !found {
      NoSuchTag(fs, which);
      return false;
    }
    found := iter.Find(newTag);
    if !found {
      assert Matches(fs[i], newTag);
      return false;
    }
    SameTag(fs, i, iter.pos);
    return true;
  }

  lemma NoSuchTag(fs: seq<Field>, tag: nat)
    requires Usable(fs) && forall i :: 0 <= i < |fs| ==> !Matches(fs[i], tag)
    ensures FindTag(fs, tag).None?
  {
    var r := FindTag(fs, tag);
    if r.Some? {
      FieldUsable(fs, r.value);
    }
  }

  lemma SameTag(fs: seq<Field>, i: nat, j: nat)
    requires WellFormed(fs) && i < |fs| && j < |fs| && fs[i].tag == fs[j].tag
    ensures i == j
  {
    if i < j {
    } else if j < i {
    }
  }

  // ----- the message loop -----

  /** The local variables of pb_decode_noinit stand for a loop state. */
  ghost predicate Stands(fs: seq<Field>, st: State, cells: Cells, field: Option<nat>, size: nat, words: seq<nat>) {
    && st.m == cells && st.open == field && st.filled == size
    && (fs != [] ==> Holds(words, st.seen))
    && |words| == 2
    && (forall r :: r in st.seen ==> r < RequiredBefore(fs, |fs|) && r < MAX_REQUIRED)
    && (field.Some? ==> field.value < |fs| && fs[field.value].rule.FixedCount? && size <= fs[field.value].rule.size)
  }

  /** Reading a record of the i-th field and applying it. */
  function RunPayloadStep(fs: seq<Field>, st: State, i: nat, wireType: nat, s: seq<byte>): Option<(State, seq<byte>)>
    requires i < |fs|
  {
    match TakePayload(fs[i], wireType, s)
    case Bad => None
    case Got(p, rest) =>
      var st' :- Apply(fs, st, Known(i, p));
      Some((st', rest))
  }

  /** The step in terms of the field's cell. */
  lemma StepOutcome(fs: seq<Field>, st: State, i: nat, wireType: nat, s: seq<byte>)
    requires i < |fs|
    ensures var f := fs[i];
            var c := At(st.m, f.addr);
            var st1 := OpenArray(fs, st, i);
            RunPayloadStep(fs, st, i, wireType, s) ==
            if st1.None? || !UnionTagOk(fs, f, Which(c)) then None
            else
              var r := FieldResult(f, c, st1.value.filled, wireType, s);
              if r.None? then None
              else Some((State(st.m[f.addr := r.value.0], st1.value.open, r.value.1, MarkSeen(fs, i, st.seen)),
                  r.value.2))
  {
  }

  /** An array without _count never gets more items than it has entries. */
  lemma CountWithin(f: Field, c: Cell, count: nat, wireType: nat, s: seq<byte>)
    requires f.rule.FixedCount? && FieldResult(f, c, count, wireType, s).Some?
    ensures FieldResult(f, c, count, wireType, s).value.1 <= f.rule.size
  {
    var p := TakePayload(f, wireType, s).val;
    var vs := NewItems(f, p);
    assert vs.Some? ==> |vs.value| == Count(p);
    assert Store(f, c, count, p).Some?;
  }

  lemma CountKept(f: Field, c: Cell, count: nat, wireType: nat, s: seq<byte>)
    requires !f.rule.FixedCount? && FieldResult(f, c, count, wireType, s).Some?
    ensures FieldResult(f, c, count, wireType, s).value.1 == count
  {
  }

  /** Sets the bit of a REQUIRED field, if it is among those tracked. */
  method MarkRequired(iter: FieldIter, fs: seq<Field>, fieldsSeen: array<nat>, ghost seen: set<nat>)
    requires iter.Valid() && iter.fs == fs && fs != [] && fieldsSeen.Length == 2
    requires Holds(fieldsSeen[..], seen)
    requires forall r :: r in seen ==> r < RequiredBefore(fs, |fs|) && r < MAX_REQUIRED
    modifies fieldsSeen
    ensures Holds(fieldsSeen[..], MarkSeen(fs, iter.pos, seen))
    ensures forall r :: r in MarkSeen(fs, iter.pos, seen) ==> r < RequiredBefore(fs, |fs|) && r < MAX_REQUIRED
  {
    hide LaidOut, Holds;
    if iter.Pos().htype.REQUIRED? && iter.requiredFieldIndex < MAX_REQUIRED {
      var k := iter.requiredFieldIndex;
      Mark(fieldsSeen[..], seen, k);
      ghost var words := fieldsSeen[..];
      fieldsSeen[k / 32] := SetBit(fieldsSeen[k / 32], k % 32);
      assert fieldsSeen[..] == words[k / 32 := SetBit(words[k / 32], k % 32)];
      FieldRuns.RankGrows(fs, iter.pos, |fs|);
    }
  }

  /** The loop body once the field is found: the fixed-count tracker, the fields_seen bit and
      the field decoder. */
  method HandleField(stream: IStream, fs: seq<Field>, iter: FieldIter, wireType: nat, dest: Struct,
                     fieldsSeen: array<nat>, field: Option<nat>, size: nat, ghost st: State)
    returns (ok: bool, newField: Option<nat>, newSize: nat)
    requires stream.Valid() && Usable(fs) && iter.Valid() && iter.fs == fs && fs != [] && iter.destStruct == 0
    requires fieldsSeen.Length == 2 && Stands(fs, st, dest.cells, field, size, fieldsSeen[..])
    modifies stream, iter, dest, fieldsSeen
    ensures stream.Valid() && stream.End() <= old(stream.End()) && (ok ==> stream.End() == old(stream.End()))
            && iter.Valid()
    ensures ok <==> RunPayloadStep(fs, st, old(iter.pos), wireType, old(stream.Rest())).Some?
    ensures ok ==>
              var r := RunPayloadStep(fs, st, old(iter.pos), wireType, old(stream.Rest()));
              r.value.1 == stream.Rest() && Stands(fs, r.value.0, dest.cells, newField, newSize, fieldsSeen[..])
    decreases fs, 1
  {
    hide WellFormed, LaidOut, Holds, Apply, TakePayload, FieldResult, MarkSeen, RunPayloadStep;
    var i := iter.pos;
    var f := fs[i];
    FieldUsable(fs, i);
    StepOutcome(fs, st, i, wireType, stream.Rest());
    newField, newSize := field, size;
    if iter.Pos().htype.REPEATED? && iter.pSize == iter.pData {
      if field != Some(i) {
        if field.Some? && size != fs[field.value].rule.size {
          return false, newField, newSize;
        }
        newField, newSize := Some(i), 0;
      }
    }
    MarkRequired(iter, fs, fieldsSeen, st.seen);
    var addr := iter.pData;
    var c := At(dest.cells, addr);
    if iter.Pos().htype.ONEOF? {
      var released := ReleaseUnionField(iter, fs, Which(c));
      if !released {
        return false, newField, newSize;
      }
    }
    var c';
    ghost var s := stream.Rest();
    ghost var count := newSize;
    ok, c', newSize := DecodeStaticField(stream, wireType, iter, f, c, newSize);
    if ok {
      if f.rule.FixedCount? {
        CountWithin(f, c, count, wireType, s);
      } else {
        CountKept(f, c, count, wireType, s);
      }
      dest.cells := dest.cells[addr := c'];
    }
  }

  /** The number of REQUIRED fields, by advancing the iterator to the end of the field array. */
  method CountRequired(fs: seq<Field>, iter: FieldIter) returns (count: nat)
    requires iter.Valid() && iter.fs == fs
    modifies iter
    ensures count == RequiredBefore(fs, |fs|)
  {
    hide LaidOut;
    count := 0;
    var lastType := REQUIRED;
    var more := true;
    while more
      invariant iter.Valid() && iter.fs == fs
      invariant !more && fs != [] ==> count == RequiredBefore(fs, |fs| - 1) && lastType == HTypeOf(fs[|fs| - 1].rule)
      invariant !more ==> iter.pos == 0
      invariant !more && fs == [] ==> count == 0
      decreases more, |fs| - iter.pos
    {
      count := iter.requiredFieldIndex;
      lastType := iter.Pos().htype;
      more := iter.Next();
    }
    if fs != [] {
      LaidOutAt(fs, 0);
    }
    if lastType.REQUIRED? && iter.Pos().tag != 0 {
      count := count + 1;
    }
  }

  /** The comparison of the fields_seen words. */
  method CompareWords(fieldsSeen: array<nat>, n: nat) returns (ok: bool)
    requires fieldsSeen.Length == 2 && n <= MAX_REQUIRED
    ensures ok <==> FirstSeen(fieldsSeen[..], n)
  {
    var i := 0;
    while i < n / 32
      invariant 0 <= i <= n / 32
      invariant forall k :: 0 <= k < i ==> fieldsSeen[k] == TWO32 - 1
    {
      if fieldsSeen[i] != TWO32 - 1 {
        return false;
      }
      i := i + 1;
    }
    if n % 32 != 0 {
      return fieldsSeen[n / 32] == (TWO32 - 1) / Pow2(32 - n % 32);
    }
    return true;
  }

  /** The check of the REQUIRED fields. */
  method CheckRequired(fs: seq<Field>, iter: FieldIter, fieldsSeen: array<nat>, ghost seen: set<nat>) returns (ok: bool)
    requires iter.Valid() && iter.fs == fs && fieldsSeen.Length == 2
    requires fs != [] ==> Holds(fieldsSeen[..], seen)
    requires forall r :: r in seen ==> r < RequiredBefore(fs, |fs|) && r < MAX_REQUIRED
    modifies iter
    ensures ok <==> forall r :: 0 <= r < RequiredBefore(fs, |fs|) && r < MAX_REQUIRED ==> r in seen
  {
    hide LaidOut, Holds, FirstSeen;
    var count := CountRequired(fs, iter);
    if count > MAX_REQUIRED {
      count := MAX_REQUIRED;
    }
    if count == 0 {
      return true;
    }
    FirstSeenExact(fieldsSeen[..], seen, count);
    ok := CompareWords(fieldsSeen, count);
  }

  /** What the record at the front makes of the state, in the words of the loop. */
  ghost predicate RecordDone(fs: seq<Field>, st: State, s: seq<byte>, verdict: Verdict, st': State, rest: seq<byte>)
    requires s != []
  {
    match TakeRecord(fs, s)
    case Malformed => verdict == Failed
    case Stop(r) => verdict == Finished && st' == st && rest == r
    case Next(rec, r) =>
      var a := Apply(fs, st, rec);
      if a.None? then verdict == Failed else verdict == Continue && st' == a.value && rest == r
  }

  /** The loop body of pb_decode_noinit. */
  method DecodeRecord(stream: IStream, fs: seq<Field>, iter: FieldIter, dest: Struct,
                      fieldsSeen: array<nat>, field: Option<nat>, size: nat, ghost st: State)
    returns (verdict: Verdict, newField: Option<nat>, newSize: nat, ghost st': State)
    requires stream.Valid() && stream.left > 0 && Usable(fs) && iter.Valid() && iter.fs == fs && iter.destStruct == 0
    requires fieldsSeen.Length == 2 && Stands(fs, st, dest.cells, field, size, fieldsSeen[..])
    modifies stream, iter, dest, fieldsSeen
    ensures stream.Valid() && stream.End() <= old(stream.End()) && iter.Valid()
    ensures !verdict.Failed? ==> stream.End() == old(stream.End())
    ensures verdict.Failed? ==> RecordDone(fs, st, old(stream.Rest()), verdict, st, [])
    ensures !verdict.Failed? ==>
              && RecordDone(fs, st, old(stream.Rest()), verdict, st', stream.Rest())
              && Stands(fs, st', dest.cells, newField, newSize, fieldsSeen[..])
    decreases fs, 2
  {
    hide WellFormed, LaidOut, Skip, TakePayload, Apply, Holds, FindTag, Decode32, RequiredBefore;
    newField, newSize, st' := field, size, st;
    var tagged, wireType, tag, eof := stream.DecodeTag();
    if !tagged {
      return if eof then Finished else Failed, newField, newSize, st;
    }
    ghost var body := stream.Rest();
    assert (8 * tag + wireType) / 8 == tag && (8 * tag + wireType) % 8 == wireType;
    var found := iter.Find(tag);
    if !found {
      NoSuchTag(fs, tag);
      ApplyUnknown(fs, st);
      var skipped := stream.SkipField(wireType);
      return if skipped then Continue else Failed, newField, newSize, st;
    }
    if fs != [] {
      LaidOutAt(fs, iter.pos);
    }
    if iter.Pos().tag == 0 {
      ApplyUnknown(fs, st);
      // The terminator of an empty message; its type bits say REQUIRED BOOL. The byte stored lies
      // outside the struct and is not represented.
      fieldsSeen[0] := SetBit(fieldsSeen[0], 0);
      var read, _ := stream.DecodeVarint32();
      return if read then Continue else Failed, newField, newSize, st;
    }
    ghost var i := iter.pos;
    FoundIsFirst(fs, i, tag);
    var handled;
    handled, newField, newSize := HandleField(stream, fs, iter, wireType, dest, fieldsSeen, field, size, st);
    if !handled {
      return Failed, newField, newSize, st;
    }
    return Continue, newField, newSize, RunPayloadStep(fs, st, i, wireType, body).value.0;
  }

  lemma ApplyUnknown(fs: seq<Field>, st: State)
    ensures Apply(fs, st, Unknown) == Some(st)
  {
  }

  lemma FoundIsFirst(fs: seq<Field>, i: nat, tag: nat)
    requires Usable(fs) && i < |fs| && fs[i].tag == tag
    ensures FindTag(fs, tag) == Some(i) && tag > 0
  {
    FieldUsable(fs, i);
    var r := FindTag(fs, tag);
    if r.Some? {
      SameTag(fs, i, r.value);
    }
  }

  /** pb_decode_noinit */
  method DecodeNoinit(stream: IStream, fs: seq<Field>, dest: Struct) returns (ok: bool)
    requires stream.Valid() && Usable(fs)
    modifies stream, dest
    ensures stream.Valid() && stream.End() <= old(stream.End()) && (ok ==> stream.End() == old(stream.End()))
    ensures ok <==> Decode(fs, old(dest.cells), old(stream.Rest())).Some?
    ensures ok ==> Decode(fs, old(dest.cells), old(stream.Rest())) == Some((dest.cells, stream.Rest()))
    decreases fs, 3
  {
    hide WellFormed, LaidOut, TakeRecord, Apply, Holds;
    ghost var whole := Run(fs, Start(dest.cells), stream.Rest());
    var fieldsSeen := new nat[2](_ => 0);
    var fixedCountField: Option<nat> := None;
    var fixedCountSize := 0;
    var iter := new FieldIter(fs, Descriptors(fs), 0);
    ghost var st := Start(dest.cells);
    EmptyWords(fieldsSeen[..]);
    var more := true;
    while more && stream.left > 0
      invariant stream.Valid() && stream.End() == old(stream.End())
      invariant fresh(iter) && fresh(fieldsSeen) && fieldsSeen.Length == 2
      invariant iter.Valid() && iter.fs == fs && iter.destStruct == 0
      invariant Stands(fs, st, dest.cells, fixedCountField, fixedCountSize, fieldsSeen[..])
      invariant whole == if more then Run(fs, st, stream.Rest()) else Some((st, stream.Rest()))
      decreases stream.left, more
    {
      ghost var s := stream.Rest();
      var verdict;
      ghost var next;
      verdict, fixedCountField, fixedCountSize, next :=
        DecodeRecord(stream, fs, iter, dest, fieldsSeen, fixedCountField, fixedCountSize, st);
      if verdict.Failed? {
        return false;
      }
      st := next;
      more := verdict.Continue?;
    }
    if fixedCountField.Some? && fixedCountSize != fs[fixedCountField.value].rule.size {
      return false;
    }
    ok := CheckRequired(fs, iter, fieldsSeen, st.seen);
  }

  lemma EmptyWords(words: seq<nat>)
    requires words == [0, 0]
    ensures Holds(words, {})
  {
    WordShort({}, 0, 0, 32);
    WordShort({}, 32, 0, 32);
  }

  /** pb_decode */
  method DecodeMessage(stream: IStream, fs: seq<Field>, dest: Struct) returns (ok: bool)
    requires stream.Valid() && Usable(fs)
    modifies stream, dest
    ensures stream.Valid() && stream.End() <= old(stream.End()) && (ok ==> stream.End() == old(stream.End()))
    ensures ok <==> DecodeMsg(fs, old(stream.Rest())).Some?
    ensures ok ==> DecodeMsg(fs, old(stream.Rest())) == Some((dest.cells, stream.Rest()))
    decreases fs, 4
  {
    SetToDefaults(fs, dest);
    ok := DecodeNoinit(stream, fs, dest);
  }
}
