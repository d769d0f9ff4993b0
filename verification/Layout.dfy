/**
 Message structs as memory that owns blocks (pb_decode.c:486-678, 839-922, 1131-1269): message
 types, the shapes memory can have, zeroed memory, and what setting the defaults makes of memory
 that may hold anything.

 Message types are a table, so that pointer fields may be recursive. Values of fields are not
 kept; what is kept is who owns which block.
 */
module Layout {
  import opened Wrappers
  import opened Varint
  import opened Schema
  import opened Heap

  /** Optional stands for OPTIONAL with and without a has_ member. */
  datatype HRule = Required | Optional | Repeated(max: nat) | Oneof

  /** A field holds values of a type other than a submessage (described by a Field), or
      submessages of a type of the table. */
  datatype Kind = Value(f: Field) | Sub(ty: nat)

  /** slot is the place in the struct; the members of a union share that of the first. */
  datatype HField = HField(tag: nat, rule: HRule, pointer: bool, kind: Kind, dataSize: nat, slot: nat)

  type Table = seq<seq<HField>>

  predicate IsText(k: Kind) {
    k.Value? && (k.f.ltype.String? || k.f.ltype.Bytes?)
  }

  /** A field as the member decoders see it. */
  predicate MemberOk(ts: Table, f: HField) {
    && 0 < f.tag < 0x2000_0000 && f.dataSize > 0
    && (f.kind.Value? ==> !f.kind.f.ltype.Submessage?)
    && (f.kind.Sub? ==> f.kind.ty < |ts|)
    && (f.rule.Repeated? ==> f.rule.max <= PbSizeMax())
  }

  /** Embedded submessages come earlier in the table. */
  predicate FieldOk(ts: Table, ty: nat, i: nat)
    requires ty < |ts| && i < |ts[ty]|
  {
    var f := ts[ty][i];
    && MemberOk(ts, f)
    && f.slot < |ts[ty]| && ts[ty][f.slot].slot == f.slot
    && (if f.rule.Oneof? then ts[ty][f.slot].rule.Oneof? else f.slot == i)
    && (f.kind.Sub? && !f.pointer ==> f.kind.ty < ty)
  }

  /** Well-formed fields with distinct numbers. */
  predicate TableOk(ts: Table) {
    forall ty, i :: 0 <= ty < |ts| && 0 <= i < |ts[ty]| ==>
      FieldOk(ts, ty, i) && forall j :: 0 <= j < i ==> ts[ty][j].tag != ts[ty][i].tag
  }

  lemma FieldFacts(ts: Table, ty: nat, i: nat)
    requires TableOk(ts) && ty < |ts| && i < |ts[ty]|
    ensures FieldOk(ts, ty, i) && ts[ty][i].slot < |ts[ty]|
  {
  }

  function FindField(fields: seq<HField>, tag: nat): (r: Option<nat>)
    ensures r.Some? ==> r.value < |fields| && fields[r.value].tag == tag
    ensures r.None? ==> forall i :: 0 <= i < |fields| ==> fields[i].tag != tag
  {
    if fields == [] then None
    else if fields[|fields| - 1].tag == tag then Some(|fields| - 1)
    else FindField(fields[..|fields| - 1], tag)
  }

  lemma {:induction false} FindOwn(fields: seq<HField>, i: nat)
    requires i < |fields| && forall j, k :: 0 <= j < k < |fields| ==> fields[j].tag != fields[k].tag
    ensures FindField(fields, fields[i].tag) == Some(i)
    decreases |fields|
  {
    var n := |fields| - 1;
    if i < n {
      FindOwn(fields[..n], i);
    }
  }

  lemma DistinctTags(ts: Table, ty: nat)
    requires TableOk(ts) && ty < |ts|
    ensures forall j, k :: 0 <= j < k < |ts[ty]| ==> ts[ty][j].tag != ts[ty][k].tag
  {
  }

  lemma FindInTable(ts: Table, ty: nat, i: nat)
    requires TableOk(ts) && ty < |ts| && i < |ts[ty]|
    ensures FindField(ts[ty], ts[ty][i].tag) == Some(i)
  {
    DistinctTags(ts, ty);
    FindOwn(ts[ty], i);
  }

  /** Some member of the union at a slot is a pointer. */
  predicate HasPointer(fields: seq<HField>, slot: nat) {
    exists i :: 0 <= i < |fields| && fields[i].slot == slot && fields[i].pointer
  }

  // ----- required fields -----

  /** Number of REQUIRED fields among the first k. */
  function RequiredAmong(fields: seq<HField>, k: nat): nat
    requires k <= |fields|
  {
    if k == 0 then 0 else RequiredAmong(fields, k - 1) + if fields[k - 1].rule.Required? then 1 else 0
  }

  /** The final check: the first 64 REQUIRED fields came. */
  predicate AllSeen(fields: seq<HField>, seen: set<nat>) {
    forall i :: 0 <= i < |fields| && fields[i].rule.Required? && RequiredAmong(fields, i) < 64 ==> i in seen
  }

  // ----- shapes -----

  /** The memory of one member: any memory whatever or, when strict, what initialization and
      decoding make of it. Entries past the count of an embedded array are never more than
      memory. */
  predicate ShapedField(ts: Table, f: HField, c: Mem, strict: bool)
    decreases c, 1
  {
    if f.pointer then
      if f.rule.Repeated? then
        && c.PtrArray? && c.count <= PbSizeMax()
        && (c.block.None? && (strict || !IsText(f.kind)) ==> c.count == 0)
        && (c.block.Some? ==>
              var b := c.block.value;
              && (strict ==> c.count <= b.capacity <= PbSizeMax())
              && if f.kind.Sub? then
                   && c.count <= |b.items| && (strict ==> c.count == |b.items|)
                   && forall k :: 0 <= k < c.count ==> ShapedMsg(ts, f.kind.ty, b.items[k], strict)
                 else if IsText(f.kind) then
                   && c.count <= |b.items| && (strict ==> c.count == |b.items|)
                   && forall k :: 0 <= k < c.count ==> ShapedText(b.items[k])
                 else b.items == [])
      else
        c.Ptr? && (c.block.Some? ==>
          var b := c.block.value;
          if f.kind.Sub? then |b.items| == 1 && ShapedMsg(ts, f.kind.ty, b.items[0], strict)
          else b.items == [])
    else if f.kind.Value? then c.Flat?
    else if f.rule.Repeated? then
      && c.StaticArray? && |c.items| == f.rule.max && c.count <= PbSizeMax() && (strict ==> c.count <= f.rule.max)
      && forall k :: 0 <= k < |c.items| ==> ShapedMsg(ts, f.kind.ty, c.items[k], strict && k < c.count)
    else ShapedMsg(ts, f.kind.ty, c, strict)
  }

  predicate ShapedText(c: Mem) {
    c.Ptr? && (c.block.Some? ==> c.block.value.items == [])
  }

  /** A union: the memory of the selected member; or nothing selected, and then NULL if a member
      is a pointer. Where which_ is no member's number, nothing looks at the memory. */
  predicate ShapedUnion(ts: Table, fields: seq<HField>, slot: nat, c: Mem, strict: bool)
    decreases c, 2
  {
    c.OneOf? &&
    if c.which == 0 then strict && HasPointer(fields, slot) ==> c.mem == Ptr(None)
    else
      var j := FindField(fields, c.which);
      if j.Some? && fields[j.value].slot == slot && fields[j.value].rule.Oneof? then
        ShapedField(ts, fields[j.value], c.mem, strict)
      else !strict && c.mem.Flat?
  }

  predicate ShapedSlot(ts: Table, fields: seq<HField>, i: nat, c: Mem, strict: bool)
    requires i < |fields|
    decreases c, 3
  {
    if fields[i].slot != i then c.Flat?
    else if fields[i].rule.Oneof? then ShapedUnion(ts, fields, i, c, strict)
    else ShapedField(ts, fields[i], c, strict)
  }

  /** Not strict: any memory of the size of the struct. */
  predicate ShapedMsg(ts: Table, ty: nat, m: Mem, strict: bool)
    decreases m, 0
  {
    && ty < |ts| && m.Struct? && |m.cells| == |ts[ty]|
    && forall i :: 0 <= i < |m.cells| ==> ShapedSlot(ts, ts[ty], i, m.cells[i], strict)
  }

  /** An initialized struct is memory. */
  lemma {:induction false} FieldIsMemory(ts: Table, f: HField, c: Mem, strict: bool)
    requires ShapedField(ts, f, c, strict)
    ensures ShapedField(ts, f, c, false)
    decreases c, 2
  {
    if f.kind.Sub? && (f.pointer || f.rule.Repeated?) {
      var items := if f.pointer then if c.block.Some? then c.block.value.items else [] else c.items;
      forall k | 0 <= k < |items| && (ShapedMsg(ts, f.kind.ty, items[k], true)
          || ShapedMsg(ts, f.kind.ty, items[k], false))
        ensures ShapedMsg(ts, f.kind.ty, items[k], false)
      {
        if ShapedMsg(ts, f.kind.ty, items[k], true) {
          MsgIsMemory(ts, f.kind.ty, items[k], true);
        }
      }
    } else if f.kind.Sub? {
      MsgIsMemory(ts, f.kind.ty, c, strict);
    }
  }

  lemma {:induction false} MsgIsMemory(ts: Table, ty: nat, m: Mem, strict: bool)
    requires ShapedMsg(ts, ty, m, strict)
    ensures ShapedMsg(ts, ty, m, false)
    decreases m, 1
  {
    forall i | 0 <= i < |m.cells|
      ensures ShapedSlot(ts, ts[ty], i, m.cells[i], false)
    {
      SlotIsMemory(ts, ts[ty], i, m.cells[i], strict);
    }
  }

  lemma {:induction false} SlotIsMemory(ts: Table, fields: seq<HField>, i: nat, c: Mem, strict: bool)
    requires i < |fields| && ShapedSlot(ts, fields, i, c, strict)
    ensures ShapedSlot(ts, fields, i, c, false)
    decreases c, 3
  {
    if fields[i].slot != i {
    } else if fields[i].rule.Oneof? {
      var j := FindField(fields, c.which);
      if c.which != 0 && j.Some? && fields[j.value].slot == i && fields[j.value].rule.Oneof? {
        FieldIsMemory(ts, fields[j.value], c.mem, strict);
      }
    } else {
      FieldIsMemory(ts, fields[i], c, strict);
    }
  }

  lemma SlotsOf(ts: Table, ty: nat, m: Mem, strict: bool)
    requires ShapedMsg(ts, ty, m, strict)
    ensures ty < |ts| && m.Struct? && |m.cells| == |ts[ty]|
    ensures forall s :: 0 <= s < |m.cells| ==> ShapedSlot(ts, ts[ty], s, m.cells[s], strict)
  {
  }

  lemma MsgOf(ts: Table, ty: nat, m: Mem, strict: bool)
    requires ty < |ts| && m.Struct? && |m.cells| == |ts[ty]|
    requires forall s :: 0 <= s < |m.cells| ==> ShapedSlot(ts, ts[ty], s, m.cells[s], strict)
    ensures ShapedMsg(ts, ty, m, strict)
  {
  }

  lemma SetSlot(ts: Table, ty: nat, m: Mem, s: nat, c: Mem, strict: bool)
    requires ShapedMsg(ts, ty, m, true) && s < |m.cells| && ShapedSlot(ts, ts[ty], s, c, strict)
    ensures ShapedMsg(ts, ty, Struct(m.cells[s := c]), strict)
  {
    hide ShapedSlot, ShapedMsg;
    SlotsOf(ts, ty, m, true);
    var cells := m.cells[s := c];
    forall k | 0 <= k < |cells|
      ensures ShapedSlot(ts, ts[ty], k, cells[k], strict)
    {
      if k != s && !strict {
        SlotIsMemory(ts, ts[ty], k, cells[k], true);
      }
    }
    MsgOf(ts, ty, Struct(cells), strict);
  }

  // ----- owning nothing -----

  lemma {:induction false} AllEmpty(ms: seq<Mem>, n: nat)
    requires n <= |ms| && forall k :: 0 <= k < n ==> Ids(ms[k]) == multiset{}
    ensures IdsFirst(ms, n) == multiset{}
    decreases n
  {
    hide Ids;
    if n > 0 {
      AllEmpty(ms, n - 1);
    }
  }

  lemma NoItems(ms: seq<Mem>)
    ensures IdsFirst(ms, 0) == multiset{}
  {
  }

  lemma NextItem(ms: seq<Mem>, k: nat)
    requires k < |ms|
    ensures IdsFirst(ms, k + 1) == IdsFirst(ms, k) + Ids(ms[k])
  {
  }

  lemma StructIds(m: Mem)
    requires m.Struct?
    ensures Ids(m) == IdsFirst(m.cells, |m.cells|)
  {
  }

  lemma OneOfIds(c: Mem)
    requires c.OneOf?
    ensures Ids(c) == if c.which == 0 then multiset{} else Ids(c.mem)
  {
  }

  lemma ArrayIds(c: Mem)
    requires c.StaticArray?
    ensures Ids(c) == IdsFirst(c.items, Min(c.count, |c.items|))
  {
  }

  // ----- destinations -----

  /** Memory in which nothing can be mistaken for an owned block: pb_release would reach nothing
      from any entry of any embedded array, at any depth. Zeroed memory is such. */
  predicate Blank(ts: Table, ty: nat, m: Mem)
    decreases m, 0
  {
    && ty < |ts| && m.Struct? && |m.cells| == |ts[ty]|
    && forall i :: 0 <= i < |m.cells| ==> BlankSlot(ts, ts[ty], i, m.cells[i])
  }

  predicate BlankSlot(ts: Table, fields: seq<HField>, i: nat, c: Mem)
    requires i < |fields|
    decreases c, 1
  {
    var f := fields[i];
    if f.slot != i || f.rule.Oneof? || f.pointer || f.kind.Value? then true
    else if f.rule.Repeated? then
      c.StaticArray? && forall k :: 0 <= k < |c.items| ==> BlankEntry(ts, f.kind.ty, c.items[k])
    else Blank(ts, f.kind.ty, c)
  }

  predicate BlankEntry(ts: Table, ty: nat, m: Mem)
    decreases m, 1
  {
    Ids(m) == multiset{} && Blank(ts, ty, m)
  }

  /** The same for an initialized struct: only entries past the counts matter. */
  predicate Clean(ts: Table, ty: nat, m: Mem)
    decreases m, 0
  {
    && ty < |ts| && m.Struct? && |m.cells| == |ts[ty]|
    && forall i :: 0 <= i < |m.cells| ==> CleanSlot(ts, ts[ty], i, m.cells[i])
  }

  predicate CleanSlot(ts: Table, fields: seq<HField>, i: nat, c: Mem)
    requires i < |fields|
    decreases c, 2
  {
    if fields[i].slot != i then true
    else if fields[i].rule.Oneof? then
      c.OneOf? && (c.which == 0 ||
        var j := FindField(fields, c.which);
        j.Some? ==> CleanField(ts, fields[j.value], c.mem))
    else CleanField(ts, fields[i], c)
  }

  predicate CleanField(ts: Table, f: HField, c: Mem)
    decreases c, 1
  {
    if f.pointer || f.kind.Value? then true
    else if f.rule.Repeated? then
      c.StaticArray? && forall k :: c.count <= k < |c.items| ==> BlankEntry(ts, f.kind.ty, c.items[k])
    else Clean(ts, f.kind.ty, c)
  }

  // ----- setting the defaults -----

  /** pb_field_set_to_default: pointers to NULL, counts and which_ to zero; the entries of arrays
      stay as they were. */
  function ResetField(ts: Table, f: HField, c: Mem): Mem
    requires ShapedField(ts, f, c, false)
    decreases c, 1
  {
    if f.pointer then if f.rule.Repeated? then PtrArray(0, None) else Ptr(None)
    else if f.kind.Value? then Flat
    else if f.rule.Repeated? then StaticArray(0, c.items)
    else Reset(ts, f.kind.ty, c)
  }

  function ResetSlot(ts: Table, ty: nat, i: nat, c: Mem): Mem
    requires ty < |ts| && i < |ts[ty]| && ShapedSlot(ts, ts[ty], i, c, false)
    decreases c, 2
  {
    var f := ts[ty][i];
    if f.slot != i then Flat
    else if f.rule.Oneof? then OneOf(0, if HasPointer(ts[ty], i) then Ptr(None) else Flat)
    else ResetField(ts, f, c)
  }

  /** pb_message_set_to_defaults on any memory. */
  function Reset(ts: Table, ty: nat, m: Mem): (r: Mem)
    requires ShapedMsg(ts, ty, m, false)
    ensures r.Struct? && |r.cells| == |ts[ty]|
    ensures forall i :: 0 <= i < |ts[ty]| ==> r.cells[i] == ResetSlot(ts, ty, i, m.cells[i])
    decreases m, 0
  {
    Struct(seq(|ts[ty]|, i requires 0 <= i < |ts[ty]| => ResetSlot(ts, ty, i, m.cells[i])))
  }

  /** After the defaults are set the struct owns nothing, whatever the memory held, and is fit for
      decoding; it is clean if the memory was blank. */
  lemma {:induction false} ResetOwnsNothing(ts: Table, ty: nat, m: Mem)
    requires TableOk(ts) && ShapedMsg(ts, ty, m, false)
    ensures Ids(Reset(ts, ty, m)) == multiset{} && ShapedMsg(ts, ty, Reset(ts, ty, m), true)
    ensures Blank(ts, ty, m) <==> Clean(ts, ty, Reset(ts, ty, m))
    decreases m, 1
  {
    var r := Reset(ts, ty, m);
    forall i | 0 <= i < |ts[ty]|
      ensures Ids(r.cells[i]) == multiset{} && ShapedSlot(ts, ts[ty], i, r.cells[i], true)
      ensures BlankSlot(ts, ts[ty], i, m.cells[i]) <==> CleanSlot(ts, ts[ty], i, r.cells[i])
    {
      ResetSlotOwnsNothing(ts, ty, i, m.cells[i]);
    }
    AllEmpty(r.cells, |r.cells|);
  }

  lemma {:induction false} ResetSlotOwnsNothing(ts: Table, ty: nat, i: nat, c: Mem)
    requires TableOk(ts) && ty < |ts| && i < |ts[ty]| && ShapedSlot(ts, ts[ty], i, c, false)
    ensures Ids(ResetSlot(ts, ty, i, c)) == multiset{} && ShapedSlot(ts, ts[ty], i, ResetSlot(ts, ty, i, c), true)
    ensures BlankSlot(ts, ts[ty], i, c) <==> CleanSlot(ts, ts[ty], i, ResetSlot(ts, ty, i, c))
    decreases c, 2
  {
    hide TableOk;
    var f := ts[ty][i];
    FieldFacts(ts, ty, i);
    if f.slot == i && !f.rule.Oneof? && !f.pointer && f.kind.Sub? {
      if f.rule.Repeated? {
        forall k | 0 <= k < |c.items|
          ensures ShapedMsg(ts, f.kind.ty, c.items[k], false)
        {
          MsgIsMemory(ts, f.kind.ty, c.items[k], false);
        }
        NoItems(c.items);
      } else {
        ResetOwnsNothing(ts, f.kind.ty, c);
      }
    }
  }

  // ----- zeroed memory -----

  function ZeroField(ts: Table, f: HField): Mem
    requires TableOk(ts) && (f.kind.Sub? && !f.pointer ==> f.kind.ty < |ts|)
    decreases if f.kind.Sub? && !f.pointer then f.kind.ty else 0, if f.kind.Sub? && !f.pointer then 3 else 0
  {
    if f.pointer then if f.rule.Repeated? then PtrArray(0, None) else Ptr(None)
    else if f.kind.Value? then Flat
    else if f.rule.Repeated? then
      var zero := Zero(ts, f.kind.ty);
      StaticArray(0, seq(f.rule.max, _ => zero))
    else Zero(ts, f.kind.ty)
  }

  function ZeroSlot(ts: Table, ty: nat, i: nat): Mem
    requires TableOk(ts) && ty < |ts| && i < |ts[ty]|
    decreases ty, 1
  {
    var f := ts[ty][i];
    if f.slot != i then Flat
    else if f.rule.Oneof? then OneOf(0, if HasPointer(ts[ty], i) then Ptr(None) else Flat)
    else
      assert FieldOk(ts, ty, i);
      ZeroField(ts, f)
  }

  /** Memory of all zero bytes, as memset leaves it. */
  function Zero(ts: Table, ty: nat): (r: Mem)
    requires TableOk(ts) && ty < |ts|
    ensures r.Struct? && |r.cells| == |ts[ty]|
    decreases ty, 2
  {
    Struct(seq(|ts[ty]|, i requires 0 <= i < |ts[ty]| => ZeroSlot(ts, ty, i)))
  }

  /** Zeroed memory is blank and owns nothing. */
  lemma {:induction false} ZeroOwnsNothing(ts: Table, ty: nat)
    requires TableOk(ts) && ty < |ts|
    ensures Ids(Zero(ts, ty)) == multiset{} && ShapedMsg(ts, ty, Zero(ts, ty), true)
    ensures ShapedMsg(ts, ty, Zero(ts, ty), false) && Blank(ts, ty, Zero(ts, ty)) && Clean(ts, ty, Zero(ts, ty))
    decreases ty, 2
  {
    var m := Zero(ts, ty);
    forall i | 0 <= i < |ts[ty]|
      ensures Ids(m.cells[i]) == multiset{} && ShapedSlot(ts, ts[ty], i, m.cells[i], true)
      ensures BlankSlot(ts, ts[ty], i, m.cells[i]) && CleanSlot(ts, ts[ty], i, m.cells[i])
    {
      var f := ts[ty][i];
      FieldFacts(ts, ty, i);
      assert m.cells[i] == ZeroSlot(ts, ty, i);
      if f.slot == i && !f.rule.Oneof? {
        ZeroFieldOwnsNothing(ts, f);
      }
    }
    AllEmpty(m.cells, |m.cells|);
    MsgIsMemory(ts, ty, m, true);
  }

  lemma {:induction false} ZeroFieldOwnsNothing(ts: Table, f: HField)
    requires TableOk(ts) && MemberOk(ts, f)
    ensures var c := ZeroField(ts, f);
            && Ids(c) == multiset{} && ShapedField(ts, f, c, true) && CleanField(ts, f, c)
            && (f.kind.Sub? && !f.pointer ==>
                  if f.rule.Repeated? then forall k :: 0 <= k < |c.items| ==> BlankEntry(ts, f.kind.ty, c.items[k])
                  else Blank(ts, f.kind.ty, c))
    decreases if f.kind.Sub? && !f.pointer then f.kind.ty else 0, if f.kind.Sub? && !f.pointer then 3 else 0
  {
    if !f.pointer && f.kind.Sub? {
      ZeroOwnsNothing(ts, f.kind.ty);
      if f.rule.Repeated? {
        NoItems(ZeroField(ts, f).items);
      }
    }
  }

  /** memset and pb_message_set_to_defaults: a new item or union member. */
  function Fresh(ts: Table, ty: nat): Mem
    requires TableOk(ts) && ty < |ts|
  {
    ZeroOwnsNothing(ts, ty);
    Reset(ts, ty, Zero(ts, ty))
  }

  lemma FreshOwnsNothing(ts: Table, ty: nat)
    requires TableOk(ts) && ty < |ts|
    ensures Ids(Fresh(ts, ty)) == multiset{} && ShapedMsg(ts, ty, Fresh(ts, ty), true)
    ensures ShapedMsg(ts, ty, Fresh(ts, ty), false)
    ensures Clean(ts, ty, Fresh(ts, ty)) && Blank(ts, ty, Fresh(ts, ty))
  {
    ZeroOwnsNothing(ts, ty);
    ResetOwnsNothing(ts, ty, Zero(ts, ty));
    MsgIsMemory(ts, ty, Fresh(ts, ty), true);
    ResetBlank(ts, ty, Zero(ts, ty));
  }

  /** Setting the defaults keeps memory blank. */
  lemma {:induction false} ResetBlank(ts: Table, ty: nat, m: Mem)
    requires ShapedMsg(ts, ty, m, false) && Blank(ts, ty, m)
    ensures Blank(ts, ty, Reset(ts, ty, m))
    decreases m, 1
  {
    var r := Reset(ts, ty, m);
    forall i | 0 <= i < |ts[ty]|
      ensures BlankSlot(ts, ts[ty], i, r.cells[i])
    {
      ResetSlotBlank(ts, ty, i, m.cells[i]);
    }
  }

  lemma {:induction false} ResetSlotBlank(ts: Table, ty: nat, i: nat, c: Mem)
    requires ty < |ts| && i < |ts[ty]| && ShapedSlot(ts, ts[ty], i, c, false) && BlankSlot(ts, ts[ty], i, c)
    ensures BlankSlot(ts, ts[ty], i, ResetSlot(ts, ty, i, c))
    decreases c, 2
  {
    var f := ts[ty][i];
    if f.slot == i && !f.rule.Oneof? && !f.pointer && f.kind.Sub? && !f.rule.Repeated? {
      ResetBlank(ts, f.kind.ty, c);
    }
  }
}
