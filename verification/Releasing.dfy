/**
 pb_release (pb_decode.c:1164-1269) on any memory: every block the memory reaches is freed, as often
 as it is reached. On a struct that owns what it reaches this frees each block once.
 */
module Releasing {
  import opened Wrappers
  import opened Schema
  import opened Heap
  import opened Layout

  /** pb_release_single_field for the memory of one member. */
  method ReleaseField(heap: Allocator, ts: Table, f: HField, c: Mem) returns (r: Mem)
    requires heap.Valid() && TableOk(ts) && ShapedField(ts, f, c, false)
    modifies heap
    ensures heap.Valid() && Freed(old(heap.live), old(heap.broken), heap.live, heap.broken, Ids(c))
    ensures Ids(r) == multiset{} && ShapedField(ts, f, r, false)
    ensures f.pointer ==> r == if f.rule.Repeated? then PtrArray(0, None) else Ptr(None)
    decreases c, 2
  {
    hide TableOk, ShapedMsg, Freed, IdsFirst, Allocator.Valid;
    if f.pointer {
      r := ReleasePointer(heap, ts, f, c);
    } else if f.kind.Value? {
      FreedNothing(heap.live, heap.broken);
      r := c;
    } else if f.rule.Repeated? {
      var items := ReleaseItems(heap, ts, f.kind.ty, c.items, Min(c.count, |c.items|));
      ArrayIds(c);
      r := StaticArray(c.count, items);
      ArrayIds(r);
    } else {
      r := Release(heap, ts, f.kind.ty, c);
    }
  }

  lemma PointerIds(c: Mem)
    requires (c.Ptr? || c.PtrArray?) && c.block.Some?
    ensures var b := c.block.value;
            Ids(c) == IdsFirst(b.items, if c.PtrArray? then Min(c.count, |b.items|) else |b.items|) + multiset{b.id}
  {
  }

  lemma NullIds(c: Mem)
    requires (c.Ptr? || c.PtrArray?) && c.block.None?
    ensures Ids(c) == if c.PtrArray? && c.count > 0 then multiset{NULL_READ} else multiset{}
  {
  }

  lemma PointerShape(ts: Table, f: HField, c: Mem)
    requires f.pointer && ShapedField(ts, f, c, false)
    ensures if f.rule.Repeated? then c.PtrArray? else c.Ptr?
    ensures f.rule.Repeated? && c.block.None? && c.count > 0 ==> IsText(f.kind)
    ensures c.block.Some? ==>
              var items := c.block.value.items;
              var n := if f.rule.Repeated? then Min(c.count, |items|) else |items|;
              if f.kind.Sub? then forall k :: 0 <= k < n ==> ShapedMsg(ts, f.kind.ty, items[k], false)
              else if f.rule.Repeated? && IsText(f.kind) then forall k :: 0 <= k < n ==> ShapedText(items[k])
              else items == []
  {
  }

  /** The entries of an allocated array that own something. */
  method ReleaseContents(heap: Allocator, ts: Table, f: HField, items: seq<Mem>, n: nat)
    requires heap.Valid() && TableOk(ts) && n <= |items|
    requires if f.kind.Sub? then forall k :: 0 <= k < n ==> ShapedMsg(ts, f.kind.ty, items[k], false)
             else if f.rule.Repeated? && IsText(f.kind) then forall k :: 0 <= k < n ==> ShapedText(items[k])
             else items == []
    modifies heap
    ensures heap.Valid() && Freed(old(heap.live), old(heap.broken), heap.live, heap.broken, IdsFirst(items, n))
    decreases items, 1
  {
    hide TableOk, ShapedMsg, ShapedText, Ids, IdsFirst, Freed, Allocator.Valid;
    if f.kind.Sub? {
      var _ := ReleaseItems(heap, ts, f.kind.ty, items, n);
    } else if f.rule.Repeated? && IsText(f.kind) {
      ReleaseTexts(heap, items, n);
    } else {
      NoItems(items);
      FreedNothing(heap.live, heap.broken);
    }
  }

  /** The part of pb_release_single_field for pointer fields. */
  method ReleasePointer(heap: Allocator, ts: Table, f: HField, c: Mem) returns (r: Mem)
    requires heap.Valid() && TableOk(ts) && f.pointer && ShapedField(ts, f, c, false)
    modifies heap
    ensures heap.Valid() && Freed(old(heap.live), old(heap.broken), heap.live, heap.broken, Ids(c))
    ensures r == if f.rule.Repeated? then PtrArray(0, None) else Ptr(None)
    decreases c, 1
  {
    hide TableOk, ShapedMsg, ShapedField, ShapedText, Ids, IdsFirst, Freed, Allocator.Valid;
    r := if f.rule.Repeated? then PtrArray(0, None) else Ptr(None);
    PointerShape(ts, f, c);
    if c.block.None? {
      NullIds(c);
      FreedNothing(heap.live, heap.broken);
      if f.rule.Repeated? && IsText(f.kind) && c.count > 0 {
        heap.ReadNull();
      }
      return;
    }
    var b := c.block.value;
    var n := if f.rule.Repeated? then Min(c.count, |b.items|) else |b.items|;
    PointerIds(c);
    ReleaseContents(heap, ts, f, b.items, n);
    ghost var live, broken := heap.live, heap.broken;
    heap.Free(b.id);
    FreedOn(old(heap.live), old(heap.broken), live, broken, heap.live, heap.broken, IdsFirst(b.items, n),
        multiset{b.id});
  }

  /** The loop that releases the submessages of an array. */
  method ReleaseItems(heap: Allocator, ts: Table, ty: nat, items: seq<Mem>, n: nat) returns (r: seq<Mem>)
    requires heap.Valid() && TableOk(ts) && n <= |items|
    requires forall k :: 0 <= k < n ==> ShapedMsg(ts, ty, items[k], false)
    modifies heap
    ensures heap.Valid() && Freed(old(heap.live), old(heap.broken), heap.live, heap.broken, IdsFirst(items, n))
    ensures |r| == |items| && IdsFirst(r, n) == multiset{} && r[n..] == items[n..]
    ensures forall k :: 0 <= k < n ==> ShapedMsg(ts, ty, r[k], false)
    decreases items, 0
  {
    hide TableOk, ShapedMsg, Ids, IdsFirst, Freed, Allocator.Valid;
    r := items;
    var k := 0;
    NoItems(items);
    FreedNothing(heap.live, heap.broken);
    while k < n
      invariant 0 <= k <= n && |r| == |items| && heap.Valid() && r[n..] == items[n..]
      invariant Freed(old(heap.live), old(heap.broken), heap.live, heap.broken, IdsFirst(items, k))
      invariant forall j :: 0 <= j < k ==> Ids(r[j]) == multiset{}
      invariant forall j :: 0 <= j < k ==> ShapedMsg(ts, ty, r[j], false)
    {
      ghost var live, broken := heap.live, heap.broken;
      var released := Release(heap, ts, ty, items[k]);
      NextItem(items, k);
      FreedOn(old(heap.live), old(heap.broken), live, broken, heap.live, heap.broken, IdsFirst(items, k),
          Ids(items[k]));
      r := r[k := released];
      k := k + 1;
    }
    AllEmpty(r, n);
  }

  /** The loop that frees the strings of an array. */
  method ReleaseTexts(heap: Allocator, items: seq<Mem>, n: nat)
    requires heap.Valid() && n <= |items|
    requires forall k :: 0 <= k < n ==> ShapedText(items[k])
    modifies heap
    ensures heap.Valid() && Freed(old(heap.live), old(heap.broken), heap.live, heap.broken, IdsFirst(items, n))
  {
    hide Ids, IdsFirst, Freed, Allocator.Valid;
    var k := 0;
    NoItems(items);
    FreedNothing(heap.live, heap.broken);
    while k < n
      invariant 0 <= k <= n && heap.Valid()
      invariant Freed(old(heap.live), old(heap.broken), heap.live, heap.broken, IdsFirst(items, k))
    {
      ghost var live, broken := heap.live, heap.broken;
      TextIds(items[k]);
      FreedNothing(heap.live, heap.broken);
      if items[k].block.Some? {
        heap.Free(items[k].block.value.id);
      }
      NextItem(items, k);
      FreedOn(old(heap.live), old(heap.broken), live, broken, heap.live, heap.broken, IdsFirst(items, k),
          Ids(items[k]));
      k := k + 1;
    }
  }

  lemma TextIds(c: Mem)
    requires ShapedText(c)
    ensures Ids(c) == if c.block.None? then multiset{} else multiset{c.block.value.id}
  {
  }

  // ----- structs -----

  /** The i-th field has nothing left to release. */
  ghost predicate Released(fields: seq<HField>, cells: seq<Mem>, i: nat)
    requires i < |fields| == |cells|
  {
    fields[i].slot < |fields| &&
    var c := cells[fields[i].slot];
    if fields[i].rule.Oneof? then c.OneOf? && (c.which == fields[i].tag ==> Ids(c) == multiset{})
    else Ids(c) == multiset{}
  }

  /** The i-th field has not been touched. */
  ghost predicate Pending(fields: seq<HField>, was: seq<Mem>, cells: seq<Mem>, i: nat)
    requires i < |fields| == |cells| == |was|
  {
    var s := fields[i].slot;
    s < |fields| && (cells[s] == was[s] ||
                     (fields[i].rule.Oneof? && cells[s].OneOf? && cells[s].which != fields[i].tag))
  }

  /** A field of a struct after its release. */
  ghost predicate SlotReleased(fields: seq<HField>, i: nat, c: Mem, r: Mem)
    requires i < |fields|
  {
    if fields[i].rule.Oneof? then
      && c.OneOf? && r.OneOf? && r.which == c.which
      && if c.which == fields[i].tag then Ids(r) == multiset{} else r == c
    else Ids(r) == multiset{}
  }

  /** pb_release_single_field, when the field is not an unselected union member. */
  method ReleaseSlot(heap: Allocator, ts: Table, ty: nat, i: nat, c: Mem) returns (r: Mem)
    requires heap.Valid() && TableOk(ts) && ty < |ts| && i < |ts[ty]| && FieldOk(ts, ty, i)
    requires ShapedSlot(ts, ts[ty], ts[ty][i].slot, c, false)
    requires ts[ty][i].rule.Oneof? ==> c.OneOf? && c.which == ts[ty][i].tag
    modifies heap
    ensures heap.Valid() && Freed(old(heap.live), old(heap.broken), heap.live, heap.broken, Ids(c))
    ensures ShapedSlot(ts, ts[ty], ts[ty][i].slot, r, false) && SlotReleased(ts[ty], i, c, r) && Ids(r) == multiset{}
    decreases c, 3
  {
    hide Ids, ShapedField, Freed, Allocator.Valid;
    var f := ts[ty][i];
    FindInTable(ts, ty, i);
    if f.rule.Oneof? {
      OneOfIds(c);
      var mem := ReleaseField(heap, ts, f, c.mem);
      r := OneOf(c.which, mem);
      OneOfIds(r);
    } else {
      r := ReleaseField(heap, ts, f, c);
    }
  }

  /** Loop state of pb_release before the i-th field: the fields before are released, those from
      it on untouched, and the struct keeps its shape. */
  ghost predicate InRelease(ts: Table, ty: nat, was: seq<Mem>, cells: seq<Mem>, i: nat) {
    && ty < |ts| && i <= |ts[ty]| == |cells| == |was|
    && (forall k :: 0 <= k < |cells| ==> FieldOk(ts, ty, k))
    && (forall s :: 0 <= s < |cells| ==> ShapedSlot(ts, ts[ty], s, cells[s], false))
    && (forall k :: 0 <= k < i ==> Released(ts[ty], cells, k))
    && (forall k :: i <= k < |cells| ==> Pending(ts[ty], was, cells, k))
  }

  /** One step keeps what was released before and touches nothing still to be released. */
  lemma StepKeeps(ts: Table, ty: nat, was: seq<Mem>, cells: seq<Mem>, i: nat, r: Mem, next: seq<Mem>)
    requires TableOk(ts) && InRelease(ts, ty, was, cells, i) && i < |cells|
    requires SlotReleased(ts[ty], i, cells[ts[ty][i].slot], r)
    requires ShapedSlot(ts, ts[ty], ts[ty][i].slot, r, false)
    requires next == cells[ts[ty][i].slot := r]
    ensures InRelease(ts, ty, was, next, i + 1)
  {
    hide Ids, ShapedSlot;
    var fields := ts[ty];
    var s := fields[i].slot;
    DistinctTags(ts, ty);
    forall k | 0 <= k < i + 1
      ensures Released(fields, next, k)
    {
      assert FieldOk(ts, ty, k) && FieldOk(ts, ty, i) && FieldOk(ts, ty, s);
      assert k < i ==> Released(fields, cells, k);
    }
    forall k | i < k < |cells|
      ensures Pending(fields, was, next, k)
    {
      assert FieldOk(ts, ty, k) && FieldOk(ts, ty, i) && FieldOk(ts, ty, s);
      assert Pending(fields, was, cells, k) && Pending(fields, was, cells, i);
    }
  }

  lemma ReleaseStarts(ts: Table, ty: nat, m: Mem)
    requires TableOk(ts) && ShapedMsg(ts, ty, m, false)
    ensures InRelease(ts, ty, m.cells, m.cells, 0)
  {
    forall k | 0 <= k < |m.cells|
      ensures FieldOk(ts, ty, k) && Pending(ts[ty], m.cells, m.cells, k)
    {
      FieldFacts(ts, ty, k);
    }
  }

  lemma SlotCases(ts: Table, ty: nat, was: seq<Mem>, cells: seq<Mem>, i: nat)
    requires TableOk(ts) && InRelease(ts, ty, was, cells, i) && i < |cells|
    ensures FieldOk(ts, ty, i) && ts[ty][i].slot < |cells|
    ensures var f := ts[ty][i];
            var c := cells[f.slot];
            && ShapedSlot(ts, ts[ty], f.slot, c, false)
            && (f.rule.Oneof? ==> c.OneOf?)
            && (!f.rule.Oneof? || c.which == f.tag ==> c == was[f.slot])
            && (f.rule.Oneof? && c.which != f.tag ==> SlotReleased(ts[ty], i, c, c))
  {
    hide Ids;
    assert FieldOk(ts, ty, i) && Pending(ts[ty], was, cells, i);
    var s := ts[ty][i].slot;
    assert ShapedSlot(ts, ts[ty], s, cells[s], false);
  }

  lemma AllReleased(ts: Table, ty: nat, was: seq<Mem>, cells: seq<Mem>)
    requires TableOk(ts) && InRelease(ts, ty, was, cells, |cells|)
    ensures IdsFirst(cells, |cells|) == multiset{}
    ensures ShapedMsg(ts, ty, Struct(cells), false)
  {
    forall s | 0 <= s < |cells|
      ensures Ids(cells[s]) == multiset{}
    {
      SlotEmpty(ts, ty, was, cells, s);
    }
    AllEmpty(cells, |cells|);
    MsgOf(ts, ty, Struct(cells), false);
  }

  lemma SlotEmpty(ts: Table, ty: nat, was: seq<Mem>, cells: seq<Mem>, s: nat)
    requires TableOk(ts) && InRelease(ts, ty, was, cells, |cells|) && s < |cells|
    ensures Ids(cells[s]) == multiset{}
  {
    hide TableOk;
    var c := cells[s];
    assert ShapedSlot(ts, ts[ty], s, c, false) && FieldOk(ts, ty, s) && Released(ts[ty], cells, s);
    if ts[ty][s].slot == s && ts[ty][s].rule.Oneof? && c.which != 0 {
      OneOfIds(c);
      assert Ids(Flat) == multiset{} && ShapedUnion(ts, ts[ty], s, c, false);
      var j := FindField(ts[ty], c.which);
      if j.Some? && ts[ty][j.value].slot == s && ts[ty][j.value].rule.Oneof? {
        assert Released(ts[ty], cells, j.value);
      }
    }
  }

  /** A cell of the struct was released. */
  lemma OneLess(was: multiset<nat>, freed: multiset<nat>, cells: seq<Mem>, s: nat, r: Mem)
    requires s < |cells| && was == freed + IdsFirst(cells, |cells|) && Ids(r) == multiset{}
    ensures was == freed + Ids(cells[s]) + IdsFirst(cells[s := r], |cells|)
  {
    hide Ids, IdsFirst;
    IdsUpdate(cells, |cells|, s, r);
  }

  /** pb_release: every block the struct reaches is freed, and nothing is left to reach. */
  method Release(heap: Allocator, ts: Table, ty: nat, m: Mem) returns (r: Mem)
    requires heap.Valid() && TableOk(ts) && ShapedMsg(ts, ty, m, false)
    modifies heap
    ensures heap.Valid() && Freed(old(heap.live), old(heap.broken), heap.live, heap.broken, Ids(m))
    ensures Ids(r) == multiset{} && ShapedMsg(ts, ty, r, false)
    decreases m, 1
  {
    hide ShapedMsg, ShapedSlot, TableOk, FieldOk, Ids, IdsFirst, Freed, InRelease, SlotReleased, Allocator.Valid;
    SlotsOf(ts, ty, m, false);
    StructIds(m);
    ReleaseStarts(ts, ty, m);
    FreedNothing(heap.live, heap.broken);
    var fields := ts[ty];
    var cells := m.cells;
    ghost var freed: multiset<nat> := multiset{};
    var i := 0;
    while i < |fields|
      invariant 0 <= i <= |fields| == |cells| && heap.Valid()
      invariant Freed(old(heap.live), old(heap.broken), heap.live, heap.broken, freed)
      invariant Ids(m) == freed + IdsFirst(cells, |cells|)
      invariant InRelease(ts, ty, m.cells, cells, i)
    {
      SlotCases(ts, ty, m.cells, cells, i);
      var s := fields[i].slot;
      var c := cells[s];
      if !fields[i].rule.Oneof? || c.which == fields[i].tag {
        ghost var live, broken := heap.live, heap.broken;
        var released := ReleaseSlot(heap, ts, ty, i, m.cells[s]);
        FreedOn(old(heap.live), old(heap.broken), live, broken, heap.live, heap.broken, freed, Ids(c));
        OneLess(Ids(m), freed, cells, s, released);
        freed := freed + Ids(c);
        StepKeeps(ts, ty, m.cells, cells, i, released, cells[s := released]);
        cells := cells[s := released];
      } else {
        assert cells == cells[s := c];
        StepKeeps(ts, ty, m.cells, cells, i, c, cells);
      }
      i := i + 1;
    }
    AllReleased(ts, ty, m.cells, cells);
    r := Struct(cells);
    StructIds(r);
    assert freed == Ids(m);
  }
}
