/**
 Field descriptors and the iterator over them (pb.h:249-262, 390-575 and pb_common.c).

 A descriptor gives the place of a member relative to the end of the one before it. The iterator
 adds these differences up; it has to recover the true addresses from any position.
 */
module FieldIter {
  import opened Wrappers
  import opened Schema

  datatype HType = REQUIRED | OPTIONAL | REPEATED | ONEOF

  /** pb_field_t, its type byte split into its parts. The ptr member is the field list inside
      ltype for submessages and the default value otherwise. */
  datatype PbField = PbField(tag: nat, ltype: LType, htype: HType, atype: Alloc,
                             dataOffset: nat, sizeOffset: int, dataSize: nat, arraySize: nat,
                             default: Option<Val>)

  const LAST_FIELD := PbField(0, LType.Bool, REQUIRED, Static, 0, 0, 0, 0, None)

  /** sizeof(void*) */
  const POINTER_SIZE: nat := 8

  // ----- the struct layout and its descriptors -----

  /** sizeof the struct member */
  function MemberSize(f: Field): nat {
    match f.alloc
    case Static =>
      (match f.rule
       case Repeated(max) => f.dataSize * max
       case FixedCount(n) => f.dataSize * n
       case _ => f.dataSize)
    case Pointer => POINTER_SIZE
    case Callback => f.dataSize
  }

  /** The i-th field is a member of the same union as the one before it. */
  predicate SameUnion(fs: seq<Field>, i: nat)
    requires 0 < i < |fs|
  {
    fs[i].rule.Oneof? && fs[i - 1].rule.Oneof? && fs[i].addr == fs[i - 1].addr
  }

  /** A struct layout the descriptor macros can express: members in order, gaps below
      PB_SIZE_MAX, one which_ member for a union. */
  ghost predicate LaidOut(fs: seq<Field>) {
    && (forall i :: 0 <= i < |fs| ==> fs[i].tag > 0)
    && (|fs| > 0 ==> fs[0].addr <= PbSizeMax())
    && forall i :: 0 < i < |fs| ==>
         if SameUnion(fs, i) then fs[i].sizeAddr == fs[i - 1].sizeAddr
         else 0 <= fs[i].addr - fs[i - 1].addr - MemberSize(fs[i - 1]) < PbSizeMax()
  }

  function HTypeOf(r: Rule): HType {
    match r
    case Required => REQUIRED
    case Optional => OPTIONAL
    case Singular => OPTIONAL
    case Repeated(_) => REPEATED
    case FixedCount(_) => REPEATED
    case Oneof => ONEOF
  }

  /** PB_DATAOFFSET_FIRST, _UNION and _OTHER */
  function DataOffset(fs: seq<Field>, i: nat): nat
    requires i < |fs|
  {
    if i == 0 then fs[0].addr
    else if SameUnion(fs, i) then PbSizeMax()
    else
      var gap := fs[i].addr - fs[i - 1].addr - MemberSize(fs[i - 1]);
      if gap < 0 then 0 else gap
  }

  /** The descriptor the PB_FIELD and PB_ONEOF_FIELD macros make of the i-th member. */
  function Describe(fs: seq<Field>, i: nat): PbField
    requires i < |fs|
  {
    var f := fs[i];
    PbField(f.tag, f.ltype, HTypeOf(f.rule), f.alloc, DataOffset(fs, i), f.sizeAddr - f.addr, f.dataSize,
            match f.rule {
              case Repeated(max) => max
              case FixedCount(n) => n
              case _ => 0
            },
            f.default)
  }

  function Descriptors(fs: seq<Field>): (ds: seq<PbField>)
    ensures |ds| == |fs| + 1 && ds[|fs|] == LAST_FIELD
    ensures forall i :: 0 <= i < |fs| ==> ds[i] == Describe(fs, i)
  {
    seq(|fs|, i requires 0 <= i < |fs| => Describe(fs, i)) + [LAST_FIELD]
  }

  // ----- adding the differences up -----

  /** How far the data pointer moves from one field to the next. */
  function Advance(prev: PbField, cur: PbField): nat {
    if prev.htype.ONEOF? && cur.htype.ONEOF? && cur.dataOffset == PbSizeMax() then 0
    else
      var prevSize :=
        if prev.atype.Static? && prev.htype.REPEATED? then prev.dataSize * prev.arraySize
        else if prev.atype.Pointer? then POINTER_SIZE
        else prev.dataSize;
      prevSize + cur.dataOffset
  }

  /** The offset reached at the k-th descriptor. */
  function OffsetAt(ds: seq<PbField>, k: nat): nat
    requires k < |ds|
  {
    if k == 0 then ds[0].dataOffset else OffsetAt(ds, k - 1) + Advance(ds[k - 1], ds[k])
  }

  /** The differences add up to the true offsets, across arrays, pointers and unions. */
  lemma {:induction false} OffsetsInvert(fs: seq<Field>, k: nat)
    requires LaidOut(fs) && k < |fs|
    ensures OffsetAt(Descriptors(fs), k) == fs[k].addr
  {
    if k > 0 {
      OffsetsInvert(fs, k - 1);
      AdvanceExact(fs, k);
    }
  }

  lemma AdvanceExact(fs: seq<Field>, k: nat)
    requires LaidOut(fs) && 0 < k < |fs|
    ensures fs[k - 1].addr + Advance(Describe(fs, k - 1), Describe(fs, k)) == fs[k].addr
  {
    var f := fs[k - 1];
    if !SameUnion(fs, k) {
      assert Describe(fs, k).dataOffset == fs[k].addr - f.addr - MemberSize(f);
    }
  }

  lemma LaidOutAt(fs: seq<Field>, i: nat)
    requires LaidOut(fs) && i < |fs|
    ensures fs[i].tag > 0
    ensures i > 0 && SameUnion(fs, i) ==> fs[i].sizeAddr == fs[i - 1].sizeAddr
    ensures i > 0 && DataOffset(fs, i) == PbSizeMax() && fs[i].rule.Oneof? && fs[i - 1].rule.Oneof? ==> SameUnion(fs, i)
  {
  }

  /** A field pb_field_iter_find stops at. */
  predicate Matches(f: Field, tag: nat) {
    f.tag == tag && !f.ltype.Extension?
  }

  class FieldIter {
    ghost const fs: seq<Field>
    const start: seq<PbField>
    const destStruct: int
    /** Index of the current descriptor. */
    var pos: nat
    var requiredFieldIndex: nat
    var pData: int
    var pSize: int

    /** The pointers are where the struct layout has the current member and its has_, _count or
        which_ member; the index counts the REQUIRED fields before it. */
    ghost predicate Valid()
      reads this
    {
      && LaidOut(fs) && start == Descriptors(fs)
      && (if fs == [] then pos == 0 && requiredFieldIndex == 0
          else
            && pos < |fs|
            && pData == destStruct + fs[pos].addr
            && pSize == destStruct + fs[pos].sizeAddr
            && requiredFieldIndex == RequiredBefore(fs, pos))
    }

    function Pos(): PbField
      requires Valid()
      reads this
    {
      start[pos]
    }

    /** pb_field_iter_begin; the message is empty when the first descriptor is the terminator. */
    constructor (ghost layout: seq<Field>, fields: seq<PbField>, dest: int)
      requires LaidOut(layout) && fields == Descriptors(layout)
      ensures Valid() && fs == layout && destStruct == dest && pos == 0
    {
      fs := layout;
      start := fields;
      destStruct := dest;
      pos := 0;
      requiredFieldIndex := 0;
      pData := dest + fields[0].dataOffset;
      pSize := dest + fields[0].dataOffset + fields[0].sizeOffset;
    }

    method Begin() returns (nonempty: bool)
      requires LaidOut(fs) && start == Descriptors(fs)
      modifies this
      ensures Valid() && pos == 0
      ensures nonempty <==> fs != []
    {
      pos := 0;
      requiredFieldIndex := 0;
      pData := destStruct + start[0].dataOffset;
      pSize := pData + start[0].sizeOffset;
      return start[0].tag != 0;
    }

    /** pb_field_iter_next: the next field, or back to the first one. */
    method Next() returns (more: bool)
      requires Valid()
      modifies this
      ensures Valid()
      ensures more <==> old(pos) + 1 < |fs|
      ensures pos == if more then old(pos) + 1 else 0
    {
      hide LaidOut;
      var prev := start[pos];
      if fs != [] {
        LaidOutAt(fs, pos);
      }
      if prev.tag == 0 {
        return false;
      }
      pos := pos + 1;
      if pos < |fs| {
        LaidOutAt(fs, pos);
      }
      if start[pos].tag == 0 {
        var _ := Begin();
        return false;
      }
      AdvanceExact(fs, pos);
      var cur := start[pos];
      if prev.htype.ONEOF? && cur.htype.ONEOF? && cur.dataOffset == PbSizeMax() {
        return true;
      }
      var prevSize := prev.dataSize;
      if prev.atype.Static? && prev.htype.REPEATED? {
        prevSize := prevSize * prev.arraySize;
      } else if prev.atype.Pointer? {
        prevSize := POINTER_SIZE;
      }
      if prev.htype.REQUIRED? {
        requiredFieldIndex := requiredFieldIndex + 1;
      }
      pData := pData + prevSize + cur.dataOffset;
      pSize := pData + cur.sizeOffset;
      return true;
    }

    /** pb_field_iter_find: from any position, the first match within one cycle. In an empty
        message the terminator itself matches tag 0. */
    method Find(tag: nat) returns (found: bool)
      requires Valid()
      modifies this
      ensures Valid()
      ensures fs == [] ==> (found <==> tag == 0)
      ensures fs != [] && found ==> Matches(fs[pos], tag)
      ensures fs != [] && !found ==> pos == old(pos) && forall i :: 0 <= i < |fs| ==> !Matches(fs[i], tag)
    {
      var first := pos;
      ghost var n := |fs|;
      ghost var steps: nat := 0;
      while true
        invariant Valid() && first == old(pos)
        invariant n > 0 ==> steps < n && pos == if first + steps < n then first + steps else first + steps - n
        invariant n == 0 ==> steps == 0
        invariant forall i :: first <= i < n && i < first + steps ==> !Matches(fs[i], tag)
        invariant forall i :: 0 <= i < first && i < first + steps - n ==> !Matches(fs[i], tag)
        decreases n - steps
      {
        if start[pos].tag == tag && !start[pos].ltype.Extension? {
          return true;
        }
        var _ := Next();
        steps := steps + 1;
        if pos == first {
          return false;
        }
      }
    }
  }
}
