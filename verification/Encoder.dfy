/**
 The encoder itself (pb_encode.c, static fields): methods over an output stream and the field
 iterator, each shown to write what Encoding says. A stream without a callback only counts; a
 submessage is encoded twice, first to count and then to write.
 */
module Encoder {
  import opened Wrappers
  import opened Varint
  import opened Integers
  import opened Schema
  import opened Encoding
  import opened FieldIter
  import opened Decoder
  import RoundTrip

  /** A byte string with a part overwritten. */
  function Splice(b: seq<byte>, at: nat, r: seq<byte>): seq<byte>
    requires at + |r| <= |b|
  {
    b[..at] + r + b[at + |r|..]
  }

  lemma SpliceTwice(b: seq<byte>, at: nat, r: seq<byte>, q: seq<byte>)
    requires at + |r| + |q| <= |b|
    ensures |Splice(b, at, r)| == |b|
    ensures Splice(Splice(b, at, r), at + |r|, q) == Splice(b, at, r + q)
  {
  }

  lemma SpliceOne(b: seq<byte>, at: nat, r: seq<byte>)
    requires at + |r| <= |b| && |r| <= 1
    ensures Splice(b, at, r) == if r == [] then b else b[at := r[0]]
  {
  }

  class OStream {
    /** No callback: a sizing stream. */
    const sizing: bool
    /** The memory behind `state`, which points at buf[pos]. */
    const buf: array<byte>
    var pos: nat
    const maxSize: nat
    var bytesWritten: nat

    predicate Valid()
      reads this
    {
      sizing || (bytesWritten <= maxSize && pos + (maxSize - bytesWritten) <= buf.Length)
    }

    /** pb_ostream_from_buffer */
    constructor FromBuffer(memory: array<byte>)
      ensures Valid() && !sizing && buf == memory && pos == 0 && maxSize == memory.Length && bytesWritten == 0
    {
      sizing := false;
      buf := memory;
      pos := 0;
      maxSize := memory.Length;
      bytesWritten := 0;
    }

    /** PB_OSTREAM_SIZING */
    constructor Sizing()
      ensures Valid() && sizing && bytesWritten == 0 && fresh(buf)
    {
      sizing := true;
      buf := new byte[0];
      pos := 0;
      maxSize := 0;
      bytesWritten := 0;
    }

    /** The substream a submessage is written to. */
    constructor Sub(parent: OStream, size: nat)
      requires parent.Valid() && !parent.sizing && parent.bytesWritten + size <= parent.maxSize
      ensures Valid() && !sizing && buf == parent.buf && pos == parent.pos && maxSize == size && bytesWritten == 0
    {
      sizing := false;
      buf := parent.buf;
      pos := parent.pos;
      maxSize := size;
      bytesWritten := 0;
    }

    /** buf_write */
    method BufWrite(data: seq<byte>)
      requires pos + |data| <= buf.Length
      modifies this`pos, buf
      ensures pos == old(pos) + |data|
      ensures buf[..] == Splice(old(buf[..]), old(pos), data)
    {
      hide Splice;
      ghost var before := buf[..];
      var i := 0;
      SpliceOne(before, pos, []);
      while i < |data|
        invariant 0 <= i <= |data| && pos == old(pos)
        invariant buf[..] == Splice(before, pos, data[..i])
      {
        ghost var now := buf[..];
        assert data[..i + 1] == data[..i] + [data[i]];
        SpliceTwice(before, pos, data[..i], [data[i]]);
        SpliceOne(now, pos + i, [data[i]]);
        buf[pos + i] := data[i];
        assert buf[..] == now[pos + i := data[i]];
        i := i + 1;
      }
      assert data[..|data|] == data;
      pos := pos + |data|;
    }

    /** pb_write */
    method Write(data: seq<byte>) returns (ok: bool)
      requires Valid()
      modifies this, buf
      ensures ok <==> Accepts(sizing, maxSize, old(bytesWritten), Some(data))
      ensures ok ==> Wrote(this, old(bytesWritten), old(pos), old(buf[..]), data)
    {
      hide Splice;
      if |data| > 0 && !sizing {
        if bytesWritten + |data| > maxSize {
          return false;
        }
        BufWrite(data);
      } else if !sizing {
        SpliceOne(buf[..], pos, data);
      }
      bytesWritten := bytesWritten + |data|;
      return true;
    }

    /** pb_write of NULL to a sizing stream */
    method CountOnly(size: nat) returns (ok: bool)
      requires sizing
      modifies this
      ensures ok && bytesWritten == old(bytesWritten) + size && pos == old(pos)
    {
      bytesWritten := bytesWritten + size;
      return true;
    }
  }

  /** When a stream takes the bytes of a successful encode: always when sizing, otherwise when
      they fit below max_size. */
  predicate Accepts(sizing: bool, maxSize: nat, written: nat, r: Option<seq<byte>>) {
    r.Some? && (sizing || written + |r.value| <= maxSize)
  }

  /** The stream after taking the bytes: counted, and for a buffer stream stored behind those
      already written, nothing else changed. */
  ghost predicate Wrote(s: OStream, written: nat, pos: nat, memory: seq<byte>, data: seq<byte>)
    reads s, s.buf
  {
    && s.Valid()
    && s.bytesWritten == written + |data|
    && (!s.sizing ==>
        && s.pos == pos + |data|
        && pos + |data| <= |memory|
        && s.buf[..] == Splice(memory, pos, data))
  }

  lemma WroteTwice(s: OStream, written: nat, pos: nat, memory: seq<byte>, r: seq<byte>, mid: seq<byte>, q: seq<byte>)
    requires !s.sizing ==> pos + |r| <= |memory| && mid == Splice(memory, pos, r)
    requires Wrote(s, written + |r|, pos + |r|, mid, q)
    ensures Wrote(s, written, pos, memory, r + q)
  {
    if !s.sizing {
      SpliceTwice(memory, pos, r, q);
    }
  }

  // ----- scalars -----

  /** After i bytes with their top bits set, v is what is left of the value. */
  ghost predicate Encoding7(value: nat, head: seq<byte>, v: nat) {
    if v > 0 then Encode(value) == head + Encode(v)
    else head != [] && head[|head| - 1] >= 128 && Encode(value) == head[..|head| - 1] + [head[|head| - 1] - 128]
  }

  lemma EncodingStep(value: nat, head: seq<byte>, v: nat)
    requires 0 < value < TWO64 && v > 0 && Encoding7(value, head, v)
    ensures |head| < 10 && Encoding7(value, head + [128 + v % 128], v / 128)
  {
    EncodeFits(value);
    var next := head + [128 + v % 128];
    assert next[..|next| - 1] == head;
    if v >= 128 {
      assert Encode(v) == [128 + v % 128] + Encode(v / 128);
      assert head + ([128 + v % 128] + Encode(v / 128)) == next + Encode(v / 128);
    }
  }

  /** The loop of pb_encode_varint: seven bits a byte into a ten-byte buffer, top bits set but
      for the last. */
  method VarintBytes(value: nat) returns (bytes: seq<byte>)
    requires 0 < value < TWO64
    ensures bytes == Encode(value)
  {
    hide Encode, Encoding7;
    var buffer := new byte[10](_ => 0);
    var i := 0;
    var v: nat := value;
    EncodingStart(value);
    while v > 0
      invariant 0 <= i <= 10
      invariant Encoding7(value, buffer[..i], v)
      decreases v
    {
      ghost var head := buffer[..i];
      EncodingStep(value, head, v);
      buffer[i] := 128 + v % 128;
      assert buffer[..i + 1] == head + [128 + v % 128];
      v := v / 128;
      i := i + 1;
    }
    EncodingEnd(value, buffer[..i]);
    ghost var all := buffer[..i];
    buffer[i - 1] := buffer[i - 1] - 128;
    assert buffer[..i] == all[..i - 1] + [all[i - 1] - 128];
    return buffer[..i];
  }

  lemma EncodingStart(value: nat)
    requires value > 0
    ensures Encoding7(value, [], value)
  {
    assert [] + Encode(value) == Encode(value);
  }

  lemma EncodingEnd(value: nat, head: seq<byte>)
    requires Encoding7(value, head, 0)
    ensures head != [] && head[|head| - 1] >= 128
    ensures Encode(value) == head[..|head| - 1] + [head[|head| - 1] - 128]
  {
  }

  /** pb_encode_varint */
  method EncodeVarint(stream: OStream, value: nat) returns (ok: bool)
    requires stream.Valid() && value < TWO64
    modifies stream, stream.buf
    ensures ok <==> Accepts(stream.sizing, stream.maxSize, old(stream.bytesWritten), Some(Encode(value)))
    ensures ok ==> Wrote(stream, old(stream.bytesWritten), old(stream.pos), old(stream.buf[..]), Encode(value))
  {
    if value <= 0x7F {
      ok := stream.Write([value]);
    } else {
      var bytes := VarintBytes(value);
      ok := stream.Write(bytes);
    }
  }

  /** pb_encode_tag */
  method EncodeTag(stream: OStream, wireType: nat, tag: nat) returns (ok: bool)
    requires stream.Valid() && wireType < 8 && tag < 0x2000_0000
    modifies stream, stream.buf
    ensures ok <==> Accepts(stream.sizing, stream.maxSize, old(stream.bytesWritten), Some(TagBytes(wireType, tag)))
    ensures ok ==> Wrote(stream, old(stream.bytesWritten), old(stream.pos), old(stream.buf[..]),
            TagBytes(wireType, tag))
  {
    ok := EncodeVarint(stream, 8 * tag + wireType);
  }

  /** pb_encode_string */
  method EncodeString(stream: OStream, data: seq<byte>) returns (ok: bool)
    requires stream.Valid()
    modifies stream, stream.buf
    ensures ok <==> Accepts(stream.sizing, stream.maxSize, old(stream.bytesWritten), Some(WithLength(data)))
    ensures ok ==> Wrote(stream, old(stream.bytesWritten), old(stream.pos), old(stream.buf[..]), WithLength(data))
  {
    ok := EncodeVarint(stream, |data| % TWO64);
    if ok {
      ghost var mid := stream.buf[..];
      ok := stream.Write(data);
      if ok {
        WroteTwice(stream, old(stream.bytesWritten), old(stream.pos), old(stream.buf[..]), Encode(|data| % TWO64), mid,
            data);
      }
    }
  }

  /** The bytes of a fixed-width word: n shifts and masks. */
  method WordBytes(value: nat, n: nat) returns (bytes: seq<byte>)
    ensures bytes == LittleEndian(value, n)
  {
    bytes := [];
    var v := value;
    var i := 0;
    while i < n
      invariant 0 <= i <= n
      invariant LittleEndian(value, n) == bytes + LittleEndian(v, n - i)
    {
      assert bytes + ([v % 256] + LittleEndian(v / 256, n - i - 1)) ==
             bytes + [v % 256] + LittleEndian(v / 256, n - i - 1);
      bytes := bytes + [v % 256];
      v := v / 256;
      i := i + 1;
    }
    assert bytes + [] == bytes;
  }

  /** The length loop of pb_enc_string. */
  method StringLength(memory: seq<byte>, maxSize: nat) returns (size: nat)
    requires |memory| <= maxSize
    ensures size == |CString(memory)|
  {
    size := 0;
    assert memory[0..] == memory;
    while size < |memory| && memory[size] != 0
      invariant size <= |memory|
      invariant |CString(memory)| == size + |CString(memory[size..])|
    {
      assert memory[size..][1..] == memory[size + 1..];
      size := size + 1;
    }
  }

  /** pb_enc_varint, pb_enc_uvarint and pb_enc_svarint */
  method EncInteger(stream: OStream, f: Field, n: int) returns (ok: bool)
    requires stream.Valid() && f.ltype.Integer? && IsWidth(f.dataSize)
    modifies stream, stream.buf
    ensures ok <==> Accepts(stream.sizing, stream.maxSize, old(stream.bytesWritten), EncodeScalar(f, Num(n)))
    ensures ok ==> Wrote(stream, old(stream.bytesWritten), old(stream.pos), old(stream.buf[..]),
            EncodeScalar(f, Num(n)).value)
  {
    if f.ltype.kind.ZigZag? {
      ok := EncodeVarint(stream, ZigZagOf(n));
    } else {
      ok := EncodeVarint(stream, ToUnsigned(n, 8));
    }
  }

  /** The encoder of the PB_ENCODERS table for the field's type, submessages excepted. */
  method EncScalar(stream: OStream, f: Field, v: Val) returns (ok: bool)
    requires stream.Valid() && WellFormedField(f) && TypedVal(f, v) && !f.ltype.Submessage?
    modifies stream, stream.buf
    ensures ok <==> Accepts(stream.sizing, stream.maxSize, old(stream.bytesWritten), EncodeScalar(f, v))
    ensures ok ==> Wrote(stream, old(stream.bytesWritten), old(stream.pos), old(stream.buf[..]),
            EncodeScalar(f, v).value)
  {
    if f.ltype.Bool? {
      ok := EncodeVarint(stream, if v.n != 0 then 1 else 0);
    } else if f.ltype.Integer? {
      ok := EncInteger(stream, f, v.n);
    } else if f.ltype.Fixed32? {
      var bytes := WordBytes(ToUnsigned(v.n, 4), 4);
      ok := stream.Write(bytes);
    } else if f.ltype.Fixed64? {
      var bytes := WordBytes(ToUnsigned(v.n, 8), 8);
      ok := stream.Write(bytes);
    } else if f.ltype.Bytes? {
      if |v.bytes| + SIZE_WIDTH > f.dataSize {
        return false;
      }
      ok := EncodeString(stream, v.bytes);
    } else if f.ltype.String? {
      var size := StringLength(v.bytes, f.dataSize);
      ok := EncodeString(stream, v.bytes[..size]);
    } else {
      ok := EncodeString(stream, v.bytes);
    }
  }

  // ----- initialized structs -----

  /** No part the encoder reads is stale. */
  ghost predicate FreshVal(f: Field, v: Val)
    decreases f, 0
  {
    !v.Stale? && (f.ltype.Submessage? && v.Msg? ==> Fresh(f.ltype.fields, v.cells))
  }

  ghost predicate FreshCell(f: Field, c: Cell)
    decreases f, 1
  {
    match f.rule
    case Repeated(_) => forall k :: 0 <= k < |Items(c)| ==> FreshVal(f, Items(c)[k])
    case FixedCount(n) => forall k :: 0 <= k < n ==> FreshVal(f, Slots(c, n)[k])
    case Oneof => Which(c) == f.tag ==> FreshVal(f, Item(c))
    case _ => FreshVal(f, Item(c))
  }

  ghost predicate Fresh(fs: seq<Field>, m: Cells)
    decreases fs
  {
    forall i :: 0 <= i < |fs| ==> FreshCell(fs[i], At(m, fs[i].addr))
  }

  ghost predicate ReadyVal(f: Field, v: Val) {
    TypedVal(f, v) && FreshVal(f, v)
  }

  ghost predicate ReadyItems(f: Field, items: seq<Val>) {
    forall k :: 0 <= k < |items| ==> ReadyVal(f, items[k])
  }

  /** What the encoder requires: a well-typed, initialized struct. */
  ghost predicate Ready(fs: seq<Field>, m: Cells) {
    Typed(fs, m) && Fresh(fs, m)
  }

  // ----- the zero test -----

  /** pb_check_proto3_default_value */
  method CheckDefaultValue(f: Field, c: Cell) returns (zero: bool)
    requires UsableField(f)
    ensures zero == IsZeroCell(f, c)
    decreases f, 1
  {
    match f.rule
    case Required => return false;
    case Repeated(_) => return Items(c) == [];
    case FixedCount(_) => return false;
    case Oneof => return Which(c) == 0;
    case Optional => return !Has(c);
    case Singular =>
      var v := Item(c);
      match f.ltype
      case Bytes => return v == Blob([]);
      case String => return v.Blob? && (v.bytes == [] || v.bytes[0] == 0);
      case FixedLengthBytes => return f.dataSize == 0;
      case Submessage(sub) => zero := CheckAllFields(sub, SubCells(v));
      case _ => return v == Num(0);
  }

  method CheckAllFields(fs: seq<Field>, m: Cells) returns (zero: bool)
    requires Usable(fs)
    ensures zero == AllZero(fs, 0, m)
    decreases fs, 2
  {
    hide LaidOut, WellFormed;
    var iter := new FieldIter(fs, Descriptors(fs), 0);
    var more := iter.Begin();
    ghost var k: nat := 0;
    while more
      invariant fresh(iter) && iter.Valid() && iter.fs == fs && iter.destStruct == 0 && k <= |fs|
      invariant if more then k < |fs| && iter.pos == k else k == |fs|
      invariant AllZero(fs, 0, m) == AllZero(fs, k, m)
      decreases |fs| - k
    {
      FieldUsable(fs, iter.pos);
      var z := CheckDefaultValue(fs[iter.pos], At(m, iter.pData));
      if !z {
        return false;
      }
      more := iter.Next();
      k := k + 1;
    }
    return true;
  }

  // ----- items, arrays, fields, messages -----

  /** The call func(stream, field, src) through the PB_ENCODERS table. */
  method EncodeItem(stream: OStream, f: Field, v: Val) returns (ok: bool)
    requires stream.Valid() && UsableField(f) && ReadyVal(f, v)
    modifies stream, stream.buf
    ensures ok <==> Accepts(stream.sizing, stream.maxSize, old(stream.bytesWritten), EncodeVal(f, v))
    ensures ok ==> Wrote(stream, old(stream.bytesWritten), old(stream.pos), old(stream.buf[..]), EncodeVal(f, v).value)
    decreases f, 1
  {
    if f.ltype.Submessage? {
      ok := EncodeSubmessage(stream, f.ltype.fields, v.cells);
    } else {
      ok := EncScalar(stream, f, v);
    }
  }

  /** pb_encode_submessage. The branch for a size that changed between the two passes is
      unreachable. */
  method EncodeSubmessage(stream: OStream, fs: seq<Field>, m: Cells) returns (ok: bool)
    requires stream.Valid() && Usable(fs) && Ready(fs, m)
    modifies stream, stream.buf
    ensures ok <==> Accepts(stream.sizing, stream.maxSize, old(stream.bytesWritten), Lengthened(EncodeMsg(fs, m)))
    ensures ok ==> Wrote(stream, old(stream.bytesWritten), old(stream.pos), old(stream.buf[..]),
            WithLength(EncodeMsg(fs, m).value))
    decreases fs, 3
  {
    hide WellFormed, LaidOut, LaidOutDeep, Typed, Fresh, EncodeFrom, Splice, EncodeMsg;
    ghost var body := EncodeMsg(fs, m);
    var sizing := new OStream.Sizing();
    var sized := EncodeMessage(sizing, fs, m);
    if !sized {
      return false;
    }
    var size := sizing.bytesWritten;
    ok := EncodeVarint(stream, size % TWO64);
    if !ok {
      return false;
    }
    ghost var mid := stream.buf[..];
    if stream.sizing {
      ok := stream.CountOnly(size);
      return;
    }
    if stream.bytesWritten + size > stream.maxSize {
      return false;
    }
    var sub := new OStream.Sub(stream, size);
    var status := EncodeMessage(sub, fs, m);
    stream.bytesWritten := stream.bytesWritten + sub.bytesWritten;
    stream.pos := sub.pos;
    if sub.bytesWritten != size {
      assert false;
    }
    WroteTwice(stream, old(stream.bytesWritten), old(stream.pos), old(stream.buf[..]), Encode(size % TWO64), mid,
        body.value);
    return status;
  }

  function Lengthened(body: Option<seq<byte>>): Option<seq<byte>> {
    if body.None? then None else Some(WithLength(body.value))
  }

  /** Bytes put before those of a further encode. */
  function After(p: seq<byte>, r: Option<seq<byte>>): Option<seq<byte>> {
    if r.None? then None else Some(p + r.value)
  }

  lemma AfterTwice(p: seq<byte>, q: seq<byte>, r: Option<seq<byte>>)
    ensures After(p, After(q, r)) == After(p + q, r)
    ensures After([], r) == r
    ensures After(p, Some([])) == Some(p)
  {
    if r.Some? {
      assert p + (q + r.value) == p + q + r.value;
      assert [] + r.value == r.value;
    }
    assert p + [] == p;
  }

  /** pb_encode_tag_for_field and the item */
  method EncodeTagged(stream: OStream, f: Field, v: Val) returns (ok: bool)
    requires stream.Valid() && UsableField(f) && ReadyVal(f, v)
    modifies stream, stream.buf
    ensures ok <==> Accepts(stream.sizing, stream.maxSize, old(stream.bytesWritten), EncodeRecord(f, v))
    ensures ok ==> Wrote(stream, old(stream.bytesWritten), old(stream.pos), old(stream.buf[..]),
            EncodeRecord(f, v).value)
    decreases f, 2
  {
    hide LaidOut, EncodeVal, Splice, Fresh, Typed, TypedVal, TagBytes;
    ok := EncodeTag(stream, WireType(f.ltype), f.tag);
    if ok {
      ghost var mid := stream.buf[..];
      ok := EncodeItem(stream, f, v);
      if ok {
        WroteTwice(stream, old(stream.bytesWritten), old(stream.pos), old(stream.buf[..]),
                   TagBytes(WireType(f.ltype), f.tag), mid, EncodeVal(f, v).value);
      }
    }
  }

  lemma PackedStep(f: Field, items: seq<Val>)
    requires WellFormedField(f) && f.ltype.Packable() && ReadyItems(f, items)
    ensures EncodePacked(f, items).Some?
    ensures items != [] ==>
              && EncodeScalar(f, items[0]).Some?
              && EncodePacked(f, items) == After(EncodeScalar(f, items[0]).value, EncodePacked(f, items[1..]))
    decreases |items|
  {
    if items != [] {
      assert ReadyVal(f, items[0]);
      RoundTrip.TakeEncodedNumber(f, items[0], []);
      PackedStep(f, items[1..]);
    }
  }

  /** The loop of encode_array over the items of a packed array. */
  method EncodePackedItems(stream: OStream, f: Field, items: seq<Val>) returns (ok: bool)
    requires stream.Valid() && UsableField(f) && f.ltype.Packable() && ReadyItems(f, items)
    modifies stream, stream.buf
    ensures ok <==> Accepts(stream.sizing, stream.maxSize, old(stream.bytesWritten), EncodePacked(f, items))
    ensures ok ==> Wrote(stream, old(stream.bytesWritten), old(stream.pos), old(stream.buf[..]),
            EncodePacked(f, items).value)
  {
    hide LaidOut, EncodeScalar, Splice, EncodePacked, TypedVal, FreshVal, WellFormedField;
    ghost var p: seq<byte> := [];
    var i := 0;
    assert items[0..] == items;
    AfterTwice([], [], EncodePacked(f, items));
    WroteNothing(stream);
    while i < |items|
      invariant 0 <= i <= |items|
      invariant Wrote(stream, old(stream.bytesWritten), old(stream.pos), old(stream.buf[..]), p)
      invariant EncodePacked(f, items) == After(p, EncodePacked(f, items[i..]))
    {
      var rest := items[i..];
      assert ReadyItems(f, rest) by {
        forall k | 0 <= k < |rest| ensures ReadyVal(f, rest[k]) { assert rest[k] == items[i + k]; }
      }
      PackedStep(f, rest);
      assert rest[0] == items[i] && rest[1..] == items[i + 1..];
      ghost var first := EncodeScalar(f, items[i]).value;
      AfterTwice(p, first, EncodePacked(f, items[i + 1..]));
      PackedStep(f, rest[1..]);
      ghost var mid := stream.buf[..];
      ok := EncScalar(stream, f, items[i]);
      if !ok {
        return false;
      }
      WroteTwice(stream, old(stream.bytesWritten), old(stream.pos), old(stream.buf[..]), p, mid, first);
      p := p + first;
      i := i + 1;
    }
    PackedStep(f, []);
    assert items[i..] == [];
    EmptyPacked(f);
    AfterTwice(p, [], Some([]));
    return true;
  }

  lemma EmptyPacked(f: Field)
    ensures EncodePacked(f, []) == Some([])
  {
  }

  lemma WroteNothing(s: OStream)
    requires s.Valid()
    ensures Wrote(s, s.bytesWritten, s.pos, s.buf[..], [])
  {
    assert !s.sizing ==> Splice(s.buf[..], s.pos, []) == s.buf[..];
  }

  /** The loop of encode_array over the items of an unpacked array. */
  method EncodeEach(stream: OStream, f: Field, items: seq<Val>) returns (ok: bool)
    requires stream.Valid() && UsableField(f) && ReadyItems(f, items)
    modifies stream, stream.buf
    ensures ok <==> Accepts(stream.sizing, stream.maxSize, old(stream.bytesWritten), EncodeRecords(f, items))
    ensures ok ==> Wrote(stream, old(stream.bytesWritten), old(stream.pos), old(stream.buf[..]),
            EncodeRecords(f, items).value)
    decreases f, 3
  {
    hide LaidOut, EncodeRecord, EncodeRecords, Splice, TypedVal, FreshVal, WellFormedField;
    ghost var p: seq<byte> := [];
    var i := 0;
    assert items[0..] == items;
    AfterTwice([], [], EncodeRecords(f, items));
    WroteNothing(stream);
    while i < |items|
      invariant 0 <= i <= |items|
      invariant Wrote(stream, old(stream.bytesWritten), old(stream.pos), old(stream.buf[..]), p)
      invariant EncodeRecords(f, items) == After(p, EncodeRecords(f, items[i..]))
    {
      RecordsStep(f, items[i..]);
      assert items[i..][0] == items[i] && items[i..][1..] == items[i + 1..];
      ghost var first := EncodeRecord(f, items[i]);
      if first.Some? {
        AfterTwice(p, first.value, EncodeRecords(f, items[i + 1..]));
      }
      ghost var mid := stream.buf[..];
      ok := EncodeTagged(stream, f, items[i]);
      if !ok {
        return false;
      }
      WroteTwice(stream, old(stream.bytesWritten), old(stream.pos), old(stream.buf[..]), p, mid, first.value);
      p := p + first.value;
      i := i + 1;
    }
    assert items[i..] == [];
    EmptyRecords(f);
    AfterTwice(p, [], Some([]));
    return true;
  }

  lemma RecordsStep(f: Field, items: seq<Val>)
    requires items != []
    ensures EncodeRecords(f, items) ==
            if EncodeRecord(f, items[0]).None? then None
            else After(EncodeRecord(f, items[0]).value, EncodeRecords(f, items[1..]))
  {
  }

  lemma EmptyRecords(f: Field)
    ensures EncodeRecords(f, []) == Some([])
  {
  }

  /** The size of a packed array of fixed-width words without measuring it. */
  lemma {:induction false} PackedWordsSize(f: Field, items: seq<Val>)
    requires (f.ltype.Fixed32? || f.ltype.Fixed64?) && EncodePacked(f, items).Some?
    ensures |EncodePacked(f, items).value| == (if f.ltype.Fixed32? then 4 else 8) * |items|
    decreases |items|
  {
    if items != [] {
      PackedWordsSize(f, items[1..]);
    }
  }

  /** The packed size: four or eight times the count for fixed-width words, measured otherwise. */
  method PackedSize(f: Field, items: seq<Val>) returns (size: nat)
    requires UsableField(f) && f.ltype.Packable() && ReadyItems(f, items)
    ensures EncodePacked(f, items).Some? && size == |EncodePacked(f, items).value|
  {
    PackedStep(f, items);
    if f.ltype.Fixed32? {
      PackedWordsSize(f, items);
      return 4 * |items|;
    }
    if f.ltype.Fixed64? {
      PackedWordsSize(f, items);
      return 8 * |items|;
    }
    var sizing := new OStream.Sizing();
    var ok := EncodePackedItems(sizing, f, items);
    return sizing.bytesWritten;
  }

  /** encode_array, with packing */
  method EncodeItems(stream: OStream, f: Field, items: seq<Val>, arraySize: nat) returns (ok: bool)
    requires stream.Valid() && UsableField(f) && ReadyItems(f, items)
    modifies stream, stream.buf
    ensures ok <==> Accepts(stream.sizing, stream.maxSize, old(stream.bytesWritten), EncodeArray(f, items, arraySize))
    ensures ok ==> Wrote(stream, old(stream.bytesWritten), old(stream.pos), old(stream.buf[..]),
            EncodeArray(f, items, arraySize).value)
    decreases f, 4
  {
    hide LaidOut, EncodePacked, EncodeRecords, Splice, TypedVal, FreshVal, TagBytes;
    if |items| == 0 {
      WroteNothing(stream);
      return true;
    }
    if |items| > arraySize {
      return false;
    }
    if !f.ltype.Packable() {
      ok := EncodeEach(stream, f, items);
      return;
    }
    ok := EncodeTag(stream, WT_STRING, f.tag);
    if !ok {
      return false;
    }
    ghost var mid := stream.buf[..];
    var size := PackedSize(f, items);
    ghost var body := EncodePacked(f, items).value;
    ok := EncodeVarint(stream, size % TWO64);
    if !ok {
      return false;
    }
    WroteTwice(stream, old(stream.bytesWritten), old(stream.pos), old(stream.buf[..]), TagBytes(WT_STRING, f.tag), mid,
        Encode(size % TWO64));
    ghost var head := TagBytes(WT_STRING, f.tag) + Encode(size % TWO64);
    assert TagBytes(WT_STRING, f.tag) + WithLength(body) == head + body;
    if stream.sizing {
      ok := stream.CountOnly(size);
      return;
    }
    ghost var now := stream.buf[..];
    ok := EncodePackedItems(stream, f, items);
    if ok {
      WroteTwice(stream, old(stream.bytesWritten), old(stream.pos), old(stream.buf[..]), head, now, body);
    }
  }

  lemma ReadyField(fs: seq<Field>, i: nat, m: Cells)
    requires Usable(fs) && Ready(fs, m) && i < |fs|
    ensures var f := fs[i];
            var c := At(m, f.addr);
            && UsableField(f)
            && (f.rule.Repeated? ==> ReadyItems(f, Items(c)))
            && (f.rule.FixedCount? ==> ReadyItems(f, Slots(c, f.rule.size)))
            && (!f.rule.Repeated? && !f.rule.FixedCount? && (f.rule.Oneof? ==> Which(c) == f.tag) ==>
                ReadyVal(f, Item(c)))
  {
    FieldUsable(fs, i);
    var f := fs[i];
    var c := At(m, f.addr);
    assert TypedCell(f, c) && FreshCell(f, c);
    if f.rule.FixedCount? {
      forall k | 0 <= k < f.rule.size
        ensures ReadyVal(f, Slots(c, f.rule.size)[k])
      {
        assert FreshVal(f, Slots(c, f.rule.size)[k]);
      }
    }
  }

  /** encode_basic_field for static fields */
  method EncodeBasicField(stream: OStream, fs: seq<Field>, iter: FieldIter, m: Cells) returns (ok: bool)
    requires stream.Valid() && Usable(fs) && Ready(fs, m)
    requires iter.Valid() && iter.fs == fs && fs != [] && iter.destStruct == 0
    modifies stream, stream.buf
    ensures ok <==> Accepts(stream.sizing, stream.maxSize, old(stream.bytesWritten),
            EncodeField(fs[iter.pos], At(m, fs[iter.pos].addr)))
    ensures ok ==> Wrote(stream, old(stream.bytesWritten), old(stream.pos), old(stream.buf[..]),
            EncodeField(fs[iter.pos], At(m, fs[iter.pos].addr)).value)
    decreases fs, 0
  {
    hide LaidOut, Typed, Fresh, LaidOutDeep, EncodeRecord, EncodeArray, Splice, TypedVal, FreshVal, IsZeroVal;
    var f := fs[iter.pos];
    var d := iter.Pos();
    var c := At(m, iter.pData);
    ReadyField(fs, iter.pos, m);
    WroteNothing(stream);
    match d.htype
    case REQUIRED =>
      ok := EncodeTagged(stream, f, Item(c));
    case OPTIONAL =>
      var has := Has(c);
      if d.sizeOffset == 0 {
        var zero := CheckDefaultValue(f, c);
        has := !zero;
      }
      if has {
        ok := EncodeTagged(stream, f, Item(c));
      } else {
        ok := true;
      }
    case REPEATED =>
      var items := if d.sizeOffset != 0 then Items(c) else Slots(c, d.arraySize);
      ok := EncodeItems(stream, f, items, d.arraySize);
    case ONEOF =>
      if Which(c) == d.tag {
        ok := EncodeTagged(stream, f, Item(c));
      } else {
        ok := true;
      }
  }

  /** pb_encode */
  method EncodeMessage(stream: OStream, fs: seq<Field>, m: Cells) returns (ok: bool)
    requires stream.Valid() && Usable(fs) && Ready(fs, m)
    modifies stream, stream.buf
    ensures ok <==> Accepts(stream.sizing, stream.maxSize, old(stream.bytesWritten), EncodeMsg(fs, m))
    ensures ok ==> Wrote(stream, old(stream.bytesWritten), old(stream.pos), old(stream.buf[..]), EncodeMsg(fs, m).value)
    decreases fs, 2
  {
    hide LaidOut, WellFormed, Typed, Fresh, EncodeField, EncodeFrom, Splice;
    var iter := new FieldIter(fs, Descriptors(fs), 0);
    var more := iter.Begin();
    ghost var p: seq<byte> := [];
    ghost var k: nat := 0;
    AfterTwice([], [], EncodeFrom(fs, 0, m));
    WroteNothing(stream);
    while more
      invariant fresh(iter) && iter.Valid() && iter.fs == fs && iter.destStruct == 0 && k <= |fs|
      invariant if more then k < |fs| && iter.pos == k else k == |fs|
      invariant Wrote(stream, old(stream.bytesWritten), old(stream.pos), old(stream.buf[..]), p)
      invariant EncodeFrom(fs, 0, m) == After(p, EncodeFrom(fs, k, m))
      decreases |fs| - k
    {
      FromStep(fs, k, m);
      ghost var first := EncodeField(fs[k], At(m, fs[k].addr));
      if first.Some? {
        AfterTwice(p, first.value, EncodeFrom(fs, k + 1, m));
      }
      ghost var mid := stream.buf[..];
      ok := EncodeBasicField(stream, fs, iter, m);
      if !ok {
        return false;
      }
      WroteTwice(stream, old(stream.bytesWritten), old(stream.pos), old(stream.buf[..]), p, mid, first.value);
      p := p + first.value;
      more := iter.Next();
      k := k + 1;
    }
    FromEnd(fs, m);
    AfterTwice(p, [], Some([]));
    return true;
  }

  lemma FromStep(fs: seq<Field>, k: nat, m: Cells)
    requires k < |fs|
    ensures var first := EncodeField(fs[k], At(m, fs[k].addr));
            EncodeFrom(fs, k, m) == if first.None? then None else After(first.value, EncodeFrom(fs, k + 1, m))
  {
  }

  lemma FromEnd(fs: seq<Field>, m: Cells)
    ensures EncodeFrom(fs, |fs|, m) == Some([])
  {
  }

  /** pb_get_encoded_size: exactly the number of bytes encoding writes. */
  method GetEncodedSize(fs: seq<Field>, m: Cells) returns (ok: bool, size: nat)
    requires Usable(fs) && Ready(fs, m)
    ensures ok <==> EncodeMsg(fs, m).Some?
    ensures ok ==> size == |EncodeMsg(fs, m).value|
  {
    var stream := new OStream.Sizing();
    ok := EncodeMessage(stream, fs, m);
    size := stream.bytesWritten;
  }

  /** The size predicts the outcome: after pb_get_encoded_size, encoding into a buffer succeeds
      exactly when the size fits, and writes exactly that many bytes at its start. */
  method SizeThenEncode(fs: seq<Field>, m: Cells, memory: array<byte>)
    returns (sized: bool, size: nat, ok: bool, written: nat)
    requires Usable(fs) && Ready(fs, m)
    modifies memory
    ensures sized <==> EncodeMsg(fs, m).Some?
    ensures sized ==> size == |EncodeMsg(fs, m).value|
    ensures ok <==> sized && size <= memory.Length
    ensures ok ==> written == size && memory[..size] == EncodeMsg(fs, m).value && memory[size..] == old(memory[size..])
  {
    sized, size := GetEncodedSize(fs, m);
    var stream := new OStream.FromBuffer(memory);
    ghost var before := memory[..];
    ok := EncodeMessage(stream, fs, m);
    written := stream.bytesWritten;
    if ok {
      ghost var body := EncodeMsg(fs, m).value;
      assert memory[..] == Splice(before, 0, body);
      assert memory[..size] == memory[..][..size] == body;
      assert memory[size..] == memory[..][size..] == before[size..];
    }
  }
}
