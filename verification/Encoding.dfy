/**
 What the encoder writes (pb_encode.c), as a function of the struct. None is a failed encode.
 The encoder itself, with its streams and its two passes, is in Encoder.
 */
module Encoding {
  import opened Wrappers
  import opened Varint
  import opened Integers
  import opened Schema

  const WT_VARINT: nat := 0
  const WT_64BIT: nat := 1
  const WT_STRING: nat := 2
  const WT_32BIT: nat := 5

  function WireType(lt: LType): (wt: nat)
    ensures wt < 8
  {
    match lt
    case Bool => WT_VARINT
    case Integer(_) => WT_VARINT
    case Fixed32 => WT_32BIT
    case Fixed64 => WT_64BIT
    case _ => WT_STRING
  }

  function TagBytes(wt: nat, tag: nat): seq<byte> {
    Encode(8 * tag + wt)
  }

  lemma TagWordParts(tag: nat, wt: nat)
    requires wt < 8
    ensures (8 * tag + wt) / 8 == tag && (8 * tag + wt) % 8 == wt
  {
  }

  /** The bytes before the first NUL. */
  function CString(s: seq<byte>): (r: seq<byte>)
    ensures |r| <= |s| && r == s[..|r|]
    ensures forall k :: 0 <= k < |r| ==> r[k] != 0
    ensures |r| < |s| ==> s[|r|] == 0
  {
    if s == [] || s[0] == 0 then [] else [s[0]] + CString(s[1..])
  }

  /** A length, converted to a 64-bit word, and that many bytes. */
  function WithLength(s: seq<byte>): seq<byte> {
    Encode(|s| % TWO64) + s
  }

  // ----- the zero test of proto3 (pb_encode.c:210-313) -----

  predicate IsZeroVal(f: Field, v: Val)
    decreases f, 0
  {
    match f.ltype
    case Bytes => v == Blob([])
    case String => v.Blob? && (v.bytes == [] || v.bytes[0] == 0)
    case FixedLengthBytes => f.dataSize == 0
    case Submessage(fs) => AllZero(fs, 0, SubCells(v))
    case _ => v == Num(0)
  }

  predicate IsZeroCell(f: Field, c: Cell)
    decreases f, 1
  {
    match f.rule
    case Required => false
    case Repeated(_) => Items(c) == []
    case FixedCount(_) => false
    case Oneof => Which(c) == 0
    case Optional => !Has(c)
    case Singular => IsZeroVal(f, Item(c))
  }

  /** All fields from the i-th on are zero. */
  predicate AllZero(fs: seq<Field>, i: nat, m: Cells)
    requires i <= |fs|
    decreases fs, |fs| - i
  {
    i == |fs| || (IsZeroCell(fs[i], At(m, fs[i].addr)) && AllZero(fs, i + 1, m))
  }

  // ----- fields -----

  function EncodeScalar(f: Field, v: Val): Option<seq<byte>> {
    match (f.ltype, v)
    case (Bool, Num(n)) => Some(Encode(if n != 0 then 1 else 0))
    case (Integer(kind), Num(n)) =>
      var w :- VarintOf(kind, f.dataSize, n);
      Some(Encode(w))
    case (Fixed32, Num(n)) => Some(LittleEndian(ToUnsigned(n, 4), 4))
    case (Fixed64, Num(n)) => Some(LittleEndian(ToUnsigned(n, 8), 8))
    case (Bytes, Blob(b)) => if |b| + SIZE_WIDTH > f.dataSize then None else Some(WithLength(b))
    case (String, Blob(b)) => Some(WithLength(CString(b)))
    case (FixedLengthBytes, Blob(b)) => Some(WithLength(b))
    case _ => None
  }

  function EncodeVal(f: Field, v: Val): Option<seq<byte>>
    decreases f, 0
  {
    match f.ltype
    case Submessage(fs) =>
      if !v.Msg? then None
      else
        var body :- EncodeFrom(fs, 0, v.cells);
        Some(WithLength(body))
    case _ => EncodeScalar(f, v)
  }

  /** The items of a packed array, one after the other. */
  function EncodePacked(f: Field, items: seq<Val>): Option<seq<byte>> {
    if items == [] then Some([])
    else
      var first :- EncodeScalar(f, items[0]);
      var others :- EncodePacked(f, items[1..]);
      Some(first + others)
  }

  /** One item with its tag. */
  function EncodeRecord(f: Field, v: Val): Option<seq<byte>>
    decreases f, 1
  {
    var body :- EncodeVal(f, v);
    Some(TagBytes(WireType(f.ltype), f.tag) + body)
  }

  /** The items of an unpacked array, each with the tag. */
  function EncodeRecords(f: Field, items: seq<Val>): Option<seq<byte>>
    decreases f, 2, |items|
  {
    if items == [] then Some([])
    else
      var first :- EncodeRecord(f, items[0]);
      var others :- EncodeRecords(f, items[1..]);
      Some(first + others)
  }

  function EncodeArray(f: Field, items: seq<Val>, max: nat): Option<seq<byte>>
    decreases f, 3
  {
    if items == [] then Some([])
    else if |items| > max then None
    else if f.ltype.Packable() then
      var body :- EncodePacked(f, items);
      Some(TagBytes(WT_STRING, f.tag) + WithLength(body))
    else EncodeRecords(f, items)
  }

  function EncodeField(f: Field, c: Cell): Option<seq<byte>>
    decreases f, 4
  {
    match f.rule
    case Required => EncodeRecord(f, Item(c))
    case Optional => if Has(c) then EncodeRecord(f, Item(c)) else Some([])
    case Singular => if IsZeroVal(f, Item(c)) then Some([]) else EncodeRecord(f, Item(c))
    case Repeated(max) => EncodeArray(f, Items(c), max)
    case FixedCount(n) => EncodeArray(f, Slots(c, n), n)
    case Oneof => if Which(c) == f.tag then EncodeRecord(f, Item(c)) else Some([])
  }

  /** The fields from the i-th on. */
  function EncodeFrom(fs: seq<Field>, i: nat, m: Cells): Option<seq<byte>>
    requires i <= |fs|
    decreases fs, |fs| - i
  {
    if i == |fs| then Some([])
    else
      var first :- EncodeField(fs[i], At(m, fs[i].addr));
      var others :- EncodeFrom(fs, i + 1, m);
      Some(first + others)
  }

  /** The whole message. */
  function EncodeMsg(fs: seq<Field>, m: Cells): Option<seq<byte>> {
    EncodeFrom(fs, 0, m)
  }
}
