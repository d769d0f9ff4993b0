/**
 Message descriptions and message structs.

 A description is the field list that nanopb's generator emits, stated by where the C compiler
 put each struct member (the delta-encoded form is in FieldIter). A struct is a map from member
 offset to cell. A cell joins a member with its has_, _count or which_ companion; the members of
 a union share one offset and so one cell.
 */
module Schema {
  import opened Wrappers
  import opened Varint
  import opened Integers

  /** sizeof(pb_size_t): 1, 2 or 4, by build option (pb.h:226-236). */
  type SizeWidth = w: nat | w == 1 || w == 2 || w == 4 witness 1
  const SIZE_WIDTH: SizeWidth

  function PbSizeMax(): (n: nat)
    ensures 0xFF <= n < TWO32
  {
    Span(SIZE_WIDTH) - 1
  }

  /** PB_LTYPE (pb.h:156-190). Integer stands for VARINT, UVARINT and SVARINT. */
  datatype LType =
    | Bool
    | Integer(kind: IntKind)
    | Fixed32
    | Fixed64
    | Bytes
    | String
    | Submessage(fields: seq<Field>)
    | Extension
    | FixedLengthBytes
  {
    /** LTYPE <= PB_LTYPE_LAST_PACKABLE */
    predicate Packable() {
      Bool? || Integer? || Fixed32? || Fixed64?
    }
  }

  /** Repetition rule together with what the size_offset of the descriptor tells: OPTIONAL with
      and without a has_ member, REPEATED with and without a _count member. */
  datatype Rule =
    | Required
    | Optional
    | Singular
    | Repeated(max: nat)
    | FixedCount(size: nat)
    | Oneof

  datatype Alloc = Static | Pointer | Callback

  /** One field: its number, rule and type; the offset of its member (addr) and of the has_,
      _count or which_ member (sizeAddr, equal to addr when there is none); the size of one
      item; and the default value, if the descriptor points to one. */
  datatype Field = Field(tag: nat, rule: Rule, ltype: LType, alloc: Alloc,
                         addr: nat, sizeAddr: nat, dataSize: nat, default: Option<Val>)

  /** Contents of one item. Stale is memory whose contents are not tracked. A string is its
      memory up to some NUL or, when as long as the member, all of it. */
  datatype Val =
    | Num(n: int)
    | Blob(bytes: seq<byte>)
    | Msg(cells: Cells)
    | Stale

  /** Arr holds the first _count items; Fixed all items of an array without _count. */
  datatype Cell =
    | One(v: Val)
    | Opt(has: bool, v: Val)
    | Arr(items: seq<Val>)
    | Fixed(items: seq<Val>)
    | Union(which: nat, v: Val)

  type Cells = map<nat, Cell>

  /** The member at an offset. */
  function At(m: Cells, addr: nat): Cell {
    if addr in m then m[addr] else One(Stale)
  }

  // Contents of a cell, read under the rule of the field it belongs to.

  function Item(c: Cell): Val {
    if c.One? || c.Opt? || c.Union? then c.v else Stale
  }

  function Items(c: Cell): seq<Val> {
    if c.Arr? || c.Fixed? then c.items else []
  }

  /** The items of an array with exactly n entries. */
  function Slots(c: Cell, n: nat): (items: seq<Val>)
    ensures |items| == n
  {
    if c.Fixed? && |c.items| == n then c.items else seq(n, _ => Stale)
  }

  predicate Has(c: Cell) {
    c.Opt? && c.has
  }

  function Which(c: Cell): nat {
    if c.Union? then c.which else 0
  }

  function SubCells(v: Val): Cells {
    if v.Msg? then v.cells else map[]
  }

  // ----- defaults (pb_decode.c:850-922) -----

  function Zeros(n: nat): (s: seq<byte>)
    ensures |s| == n && forall k :: 0 <= k < n ==> s[k] == 0
  {
    seq(n, _ => 0)
  }

  function DefaultVal(f: Field): Val
    decreases f, 0
  {
    match f.ltype
    case Submessage(fs) => Msg(Defaults(fs, |fs|))
    case _ =>
      if f.default.Some? then f.default.value
      else match f.ltype {
        case Bytes => Blob([])
        case String => Blob([])
        case FixedLengthBytes => Blob(Zeros(f.dataSize))
        case _ => Num(0)
      }
  }

  /** Setting a field to its default leaves the array or union contents as they were; for an
      array without _count it also overwrites the first bytes of the array. */
  function DefaultCell(f: Field): Cell
    decreases f, 1
  {
    match f.rule
    case Required => One(DefaultVal(f))
    case Optional => Opt(false, DefaultVal(f))
    case Singular => One(DefaultVal(f))
    case Repeated(_) => Arr([])
    case FixedCount(n) => Fixed(seq(n, _ => Stale))
    case Oneof => Union(0, Stale)
  }

  /** The struct after the first k fields were set to their defaults. */
  function Defaults(fs: seq<Field>, k: nat): Cells
    requires k <= |fs|
    decreases fs, k
  {
    if k == 0 then map[] else Defaults(fs, k - 1)[fs[k - 1].addr := DefaultCell(fs[k - 1])]
  }

  // ----- well-formed descriptions, well-typed structs -----

  ghost predicate TypedVal(f: Field, v: Val)
    decreases f, 0
  {
    match f.ltype
    case Bool => v == Num(0) || v == Num(1)
    case Integer(kind) => v.Num? && InRange(kind, f.dataSize, v.n)
    case Fixed32 => v.Num? && 0 <= v.n < TWO32
    case Fixed64 => v.Num? && 0 <= v.n < TWO64
    case Bytes => v.Blob? && |v.bytes| <= PbSizeMax()
    case String => v.Blob? && |v.bytes| <= f.dataSize
    case FixedLengthBytes => v.Blob? && |v.bytes| == f.dataSize
    case Submessage(fs) => v.Msg? && Typed(fs, v.cells)
    case Extension => false
  }

  ghost predicate TypedCell(f: Field, c: Cell)
    decreases f, 1
  {
    match f.rule
    case Required => c.One? && TypedVal(f, c.v)
    case Singular => c.One? && TypedVal(f, c.v)
    case Optional => c.Opt? && TypedVal(f, c.v)
    case Repeated(_) => c.Arr? && forall k :: 0 <= k < |c.items| ==> TypedVal(f, c.items[k])
    case FixedCount(n) =>
      c.Fixed? && |c.items| == n && forall k :: 0 <= k < n ==> c.items[k].Stale? || TypedVal(f, c.items[k])
    case Oneof => c.Union? && (c.which == f.tag ==> TypedVal(f, c.v))
  }

  /** Every member holds what its C type can hold. A _count above the size of its array is among
      that; the encoder refuses it. */
  ghost predicate Typed(fs: seq<Field>, m: Cells)
    decreases fs
  {
    forall i :: 0 <= i < |fs| ==> fs[i].addr in m && TypedCell(fs[i], m[fs[i].addr])
  }

  ghost predicate WellFormedField(f: Field)
    decreases f
  {
    && 1 <= f.tag < 0x2000_0000
    && f.tag <= PbSizeMax() && f.dataSize <= PbSizeMax()
    && f.alloc.Static? && !f.ltype.Extension?
    && (f.ltype.Integer? ==> IsWidth(f.dataSize))
    && (f.sizeAddr == f.addr <==> f.rule.Required? || f.rule.Singular? || f.rule.FixedCount?)
    && (f.rule.FixedCount? ==> 1 <= f.rule.size <= PbSizeMax())
    && (f.rule.Repeated? ==> f.rule.max <= PbSizeMax())
    && (if f.ltype.Submessage? then f.default.None? && WellFormed(f.ltype.fields)
        else f.default.Some? ==> TypedVal(f, f.default.value))
  }

  /** Field numbers are distinct and fit a tag word, and only members of a union share memory. */
  ghost predicate WellFormed(fs: seq<Field>)
    decreases fs
  {
    && (forall i :: 0 <= i < |fs| ==> WellFormedField(fs[i]))
    && (forall i, j :: 0 <= i < j < |fs| ==> fs[i].tag != fs[j].tag)
    && (forall i, j :: 0 <= i < j < |fs| && fs[i].addr == fs[j].addr ==> fs[i].rule.Oneof? && fs[j].rule.Oneof?)
  }

  // ----- lookup by field number -----

  /** Position of the first field with this number. */
  function FindTag(fs: seq<Field>, tag: nat): (r: Option<nat>)
    ensures r.Some? ==> r.value < |fs| && fs[r.value].tag == tag
    ensures r.None? ==> forall i :: 0 <= i < |fs| ==> fs[i].tag != tag
  {
    if fs == [] then None
    else if fs[0].tag == tag then Some(0)
    else
      var r := FindTag(fs[1..], tag);
      if r.None? then
        assert forall i :: 0 < i < |fs| ==> fs[i] == fs[1..][i - 1];
        None
      else Some(r.value + 1)
  }

  /** Number of REQUIRED fields among the first k. */
  function RequiredBefore(fs: seq<Field>, k: nat): (n: nat)
    requires k <= |fs|
    ensures n <= k
  {
    if k == 0 then 0 else RequiredBefore(fs, k - 1) + if fs[k - 1].rule.Required? then 1 else 0
  }
}
