/**
 Which destinations pb_decode can be given (pb_decode.c:451-464, 839-922, 1078-1090, 1203-1224,
 1519-1541). An entry of an embedded array is counted before the length of its submessage is read
 and initialized only afterwards. When the length cannot be read, pb_release walks an entry that
 holds whatever was in the memory before.
 */
module Destination {
  import opened Wrappers
  import opened Varint
  import opened Schema
  import opened Encoding
  import opened Decoding
  import opened InputStream
  import opened Heap
  import opened Layout
  import opened Feeding
  import opened Ownership
  import RoundTrip

  // ----- blank destinations -----

  ghost predicate Harmless(fed: Fed) {
    fed.Starved? ==> fed.lost == multiset{}
  }

  ghost predicate StepHarmless(step: Step) {
    step.Starving? ==> step.lost == multiset{}
  }

  /** Over clean memory no input loses a block, and the memory stays clean. */
  lemma {:induction false} FeedClean(ts: Table, ty: nat, m: Mem, seen: set<nat>, s: seq<byte>)
    requires TableOk(ts) && Clean(ts, ty, m)
    ensures Harmless(Feed(ts, ty, m, seen, s))
    ensures Feed(ts, ty, m, seen, s).Kept? ==> Clean(ts, ty, Feed(ts, ty, m, seen, s).m)
    decreases |s|, 2
  {
    hide TableOk, Clean, CleanSlot, CleanField, FeedField;
    if ty < |ts| && s != [] && Decode32(s).Got? && Decode32(s).val != 0 {
      var word, rest := Decode32(s).val, Decode32(s).rest;
      var i := FindField(ts[ty], word / 8);
      if i.Some? && m.Struct? && |m.cells| == |ts[ty]| && ts[ty][i.value].slot < |m.cells| {
        var slot := ts[ty][i.value].slot;
        FeedRecord(ts, ty, m, seen, s, word, rest, i.value);
        FieldFacts(ts, ty, i.value);
        var step := FeedField(ts, ts[ty][i.value], m.cells[slot], rest);
        SlotClean(ts, ty, i.value, m, slot);
        if !ts[ty][i.value].rule.Oneof? {
          FeedFieldClean(ts, ts[ty][i.value], m.cells[slot], rest);
          if step.Stored? {
            CleanSlotOf(ts, ty, i.value, m, slot, step.c);
            FeedClean(ts, ty, Struct(m.cells[slot := step.c]), MarkField(ts[ty], i.value, seen), step.rest);
          }
        } else {
          UnionUnclear(ts, ts[ty][i.value], m.cells[slot], rest);
        }
      }
    }
  }

  lemma UnionUnclear(ts: Table, f: HField, c: Mem, s: seq<byte>)
    requires f.rule.Oneof?
    ensures FeedField(ts, f, c, s).Unclear?
  {
  }

  lemma SlotClean(ts: Table, ty: nat, i: nat, m: Mem, s: nat)
    requires Clean(ts, ty, m) && ty < |ts| && i < |ts[ty]| && FieldOk(ts, ty, i) && s == ts[ty][i].slot
    ensures !ts[ty][i].rule.Oneof? ==> m.Struct? && s < |m.cells| && CleanField(ts, ts[ty][i], m.cells[s])
  {
    hide CleanField;
    assert CleanSlot(ts, ts[ty], s, m.cells[s]);
  }

  lemma CleanSlotOf(ts: Table, ty: nat, i: nat, m: Mem, s: nat, c: Mem)
    requires Clean(ts, ty, m) && ty < |ts| && i < |ts[ty]| && FieldOk(ts, ty, i) && s == ts[ty][i].slot
    requires !ts[ty][i].rule.Oneof? && CleanField(ts, ts[ty][i], c)
    ensures m.Struct? && s < |m.cells| && Clean(ts, ty, Struct(m.cells[s := c]))
  {
    hide CleanField;
    assert CleanSlot(ts, ts[ty], s, c);
  }

  lemma {:induction false} FeedFieldClean(ts: Table, f: HField, c: Mem, s: seq<byte>)
    requires TableOk(ts) && CleanField(ts, f, c)
    ensures StepHarmless(FeedField(ts, f, c, s))
    ensures FeedField(ts, f, c, s).Stored? ==> CleanField(ts, f, FeedField(ts, f, c, s).c)
    decreases |s|, 1
  {
    hide TableOk, Feed, FeedSub, TakeScalar, Blank, Clean;
    if !f.pointer && !f.rule.Oneof? && f.kind.Sub? {
      if f.rule.Repeated? {
        if c.count < |c.items| {
          FeedSubClean(ts, f.kind.ty, c.items[c.count], true, s);
        }
      } else {
        FeedSubClean(ts, f.kind.ty, c, false, s);
      }
    }
  }

  lemma {:induction false} FeedSubClean(ts: Table, ty: nat, m: Mem, init: bool, s: seq<byte>)
    requires TableOk(ts) && if init then BlankEntry(ts, ty, m) else Clean(ts, ty, m)
    ensures StepHarmless(FeedSub(ts, ty, m, init, s))
    ensures FeedSub(ts, ty, m, init, s).Stored? ==> Clean(ts, ty, FeedSub(ts, ty, m, init, s).c)
    decreases |s|, 0
  {
    hide TableOk, Feed, ShapedMsg, Clean, Blank, Reset, AllSeen;
    var t := TakeString(s);
    if t.Got? && ShapedMsg(ts, ty, m, !init) {
      if init {
        ResetOwnsNothing(ts, ty, m);
      }
      FeedClean(ts, ty, if init then Reset(ts, ty, m) else m, {}, t.val);
    }
  }

  // ----- filling arrays -----

  /** The bytes are a valid message of the type, whatever memory it is decoded into. */
  ghost predicate FillsOne(ts: Table, t: nat, body: seq<byte>) {
    t < |ts| && forall m :: ShapedMsg(ts, t, m, false) ==>
      var fed := Feed(ts, t, Reset(ts, t, m), {}, body);
      fed.Kept? && AllSeen(ts[t], fed.seen)
  }

  /** The empty message will do for a type without REQUIRED fields. */
  lemma EmptyFills(ts: Table, t: nat)
    requires TableOk(ts) && t < |ts| && forall i :: 0 <= i < |ts[t]| ==> !ts[t][i].rule.Required?
    ensures FillsOne(ts, t, [])
  {
    hide ShapedMsg, ShapedSlot, ResetSlot;
    forall m | ShapedMsg(ts, t, m, false)
      ensures Feed(ts, t, Reset(ts, t, m), {}, []) == Kept(Reset(ts, t, m), {})
    {
    }
  }

  /** A record of a submessage. */
  function RecordOf(tag: nat, body: seq<byte>): seq<byte> {
    TagBytes(WT_STRING, tag) + WithLength(body)
  }

  function Times(s: seq<byte>, n: nat): seq<byte> {
    if n == 0 then [] else s + Times(s, n - 1)
  }

  lemma TagRead(tag: nat, rest: seq<byte>)
    requires 0 < tag < 0x2000_0000
    ensures TagBytes(WT_STRING, tag) + rest != []
    ensures Decode32(TagBytes(WT_STRING, tag) + rest) == Got(8 * tag + WT_STRING, rest)
    ensures (8 * tag + WT_STRING) / 8 == tag
  {
    hide Encode, Decode32;
    Decode32OfEncode(8 * tag + WT_STRING, rest);
  }

  /** A record at the front, by what its field makes of it. */
  lemma FeedTagged(ts: Table, ty: nat, i: nat, m: Mem, seen: set<nat>, rest: seq<byte>)
    requires TableOk(ts) && ty < |ts| && i < |ts[ty]|
    requires m.Struct? && |m.cells| == |ts[ty]|
    ensures ts[ty][i].slot < |m.cells|
    ensures Feed(ts, ty, m, seen, TagBytes(WT_STRING, ts[ty][i].tag) + rest) ==
            AfterStep(ts, ty, m, seen, i, FeedField(ts, ts[ty][i], m.cells[ts[ty][i].slot], rest))
  {
    hide TableOk, Decode32, TagBytes, Feed, FeedField;
    FieldFacts(ts, ty, i);
    FindInTable(ts, ty, i);
    var tag := ts[ty][i].tag;
    TagRead(tag, rest);
    FeedRecord(ts, ty, m, seen, TagBytes(WT_STRING, tag) + rest, 8 * tag + WT_STRING, rest, i);
  }

  /** The i-th field embeds an array. */
  predicate IsArray(ts: Table, ty: nat, i: nat) {
    ty < |ts| && i < |ts[ty]| && !ts[ty][i].pointer && ts[ty][i].rule.Repeated? && ts[ty][i].kind.Sub?
  }

  lemma FeedEntry(ts: Table, f: HField, c: Mem, body: seq<byte>, rest: seq<byte>, fed: Fed)
    requires !f.pointer && f.rule.Repeated? && f.kind.Sub? && f.kind.ty < |ts|
    requires c.StaticArray? && c.count < |c.items| && ShapedMsg(ts, f.kind.ty, c.items[c.count], false)
    requires |body| < TWO32 && fed == Feed(ts, f.kind.ty, Reset(ts, f.kind.ty, c.items[c.count]), {}, body)
    ensures fed.Starved? ==> FeedField(ts, f, c, WithLength(body) + rest) == Starving(fed.lost)
    ensures fed.Kept? && AllSeen(ts[f.kind.ty], fed.seen) ==>
              FeedField(ts, f, c, WithLength(body) + rest) ==
                  Stored(StaticArray(c.count + 1, c.items[c.count := fed.m]), rest)
  {
    hide Feed, ShapedMsg, Reset, AllSeen, WithLength, TakeString;
    RoundTrip.TakeLength(body, rest);
  }

  /** A record with a valid message fills the next entry. */
  lemma FeedFillOne(ts: Table, ty: nat, i: nat, m: Mem, seen: set<nat>, c: Mem, body: seq<byte>, more: seq<byte>)
    returns (item: Mem)
    requires TableOk(ts) && IsArray(ts, ty, i) && m.Struct? && |m.cells| == |ts[ty]|
    requires ts[ty][i].slot < |m.cells| && c == m.cells[ts[ty][i].slot]
    requires c.StaticArray? && c.count < |c.items| && ShapedMsg(ts, ts[ty][i].kind.ty, c.items[c.count], false)
    requires FillsOne(ts, ts[ty][i].kind.ty, body) && |body| < TWO32
    ensures var c' := StaticArray(c.count + 1, c.items[c.count := item]);
            Feed(ts, ty, m, seen, RecordOf(ts[ty][i].tag, body) + more) ==
            Feed(ts, ty, Struct(m.cells[ts[ty][i].slot := c']), seen, more)
  {
    hide TableOk, Feed, FeedField, ShapedMsg, Reset, AllSeen, WithLength, TagBytes;
    var f := ts[ty][i];
    assert RecordOf(f.tag, body) + more == TagBytes(WT_STRING, f.tag) + (WithLength(body) + more);
    FeedTagged(ts, ty, i, m, seen, WithLength(body) + more);
    var fed := Feed(ts, f.kind.ty, Reset(ts, f.kind.ty, c.items[c.count]), {}, body);
    FeedEntry(ts, f, c, body, more, fed);
    item := fed.m;
  }

  /** Records with a valid message fill the entries one after the other. */
  lemma {:induction false} FeedFill(ts: Table, ty: nat, i: nat, m: Mem, seen: set<nat>, c: Mem, body: seq<byte>, n: nat,
                                    rest: seq<byte>) returns (items: seq<Mem>)
    requires TableOk(ts) && IsArray(ts, ty, i) && m.Struct? && |m.cells| == |ts[ty]|
    requires ts[ty][i].slot < |m.cells| && c == m.cells[ts[ty][i].slot]
    requires c.StaticArray? && c.count + n <= |c.items|
    requires forall k :: c.count <= k < |c.items| ==> ShapedMsg(ts, ts[ty][i].kind.ty, c.items[k], false)
    requires FillsOne(ts, ts[ty][i].kind.ty, body) && |body| < TWO32
    ensures |items| == |c.items| && items[c.count + n..] == c.items[c.count + n..]
    ensures Feed(ts, ty, m, seen, Times(RecordOf(ts[ty][i].tag, body), n) + rest) ==
            Feed(ts, ty, Struct(m.cells[ts[ty][i].slot := StaticArray(c.count + n, items)]), seen, rest)
    decreases n
  {
    hide TableOk, Feed, ShapedMsg, FillsOne, RecordOf;
    var slot := ts[ty][i].slot;
    var record := RecordOf(ts[ty][i].tag, body);
    if n == 0 {
      assert [] + rest == rest && m.cells[slot := c] == m.cells;
      items := c.items;
      assert StaticArray(c.count, items) == c;
    } else {
      var more := Times(record, n - 1) + rest;
      assert Times(record, n) + rest == record + more;
      var item := FeedFillOne(ts, ty, i, m, seen, c, body, more);
      var c' := StaticArray(c.count + 1, c.items[c.count := item]);
      var m' := Struct(m.cells[slot := c']);
      items := FeedFill(ts, ty, i, m', seen, c', body, n - 1, rest);
      assert items[c.count + n..] == c'.items[c.count + n..] == c.items[c.count + n..];
      assert m'.cells[slot := StaticArray(c.count + n, items)] == m.cells[slot := StaticArray(c.count + n, items)];
    }
  }

  // ----- destinations that are not blank -----

  /** The input loses blocks. */
  ghost predicate Loses(fed: Fed) {
    fed.Starved? && fed.lost != multiset{}
  }

  /** An entry that is not blank can be reached: those before it in its array, if any, are filled by
      the message given for its type; and where the entry or struct is itself inside a submessage,
      what is sent for that is shorter than 2^32 bytes. */
  ghost predicate Exposed(ts: Table, fill: seq<seq<byte>>, ty: nat, m: Mem)
    decreases m, 0
  {
    && |fill| == |ts| && ty < |ts| && m.Struct? && |m.cells| == |ts[ty]|
    && exists i :: 0 <= i < |m.cells| && ExposedSlot(ts, fill, ts[ty], i, m.cells[i])
  }

  ghost predicate ExposedSlot(ts: Table, fill: seq<seq<byte>>, fields: seq<HField>, i: nat, c: Mem)
    requires i < |fields|
    decreases c, 4
  {
    var f := fields[i];
    && f.slot == i && !f.rule.Oneof? && !f.pointer && f.kind.Sub? && f.kind.ty < |ts| == |fill|
    && if f.rule.Repeated? then
         c.StaticArray? && exists k :: 0 <= k < |c.items| && ExposedEntry(ts, fill, f.kind.ty, c.items[k], k)
       else Exposed(ts, fill, f.kind.ty, c) && |LosingBytes(ts, fill, f.kind.ty, c)| < TWO32
  }

  ghost predicate ExposedEntry(ts: Table, fill: seq<seq<byte>>, t: nat, m: Mem, k: nat)
    requires t < |ts| == |fill|
    decreases m, 3
  {
    && (k > 0 ==> FillsOne(ts, t, fill[t]) && |fill[t]| < TWO32)
    && (Ids(m) != multiset{} || (Exposed(ts, fill, t, m) && |LosingBytes(ts, fill, t, m)| < TWO32))
  }

  /** The input: it fills the entries before one that is not blank and ends after the tag of that
      entry, or is inside a struct in it. */
  ghost function LosingBytes(ts: Table, fill: seq<seq<byte>>, ty: nat, m: Mem): seq<byte>
    requires Exposed(ts, fill, ty, m)
    decreases m, 1
  {
    var i :| 0 <= i < |m.cells| && ExposedSlot(ts, fill, ts[ty], i, m.cells[i]);
    SlotBytes(ts, fill, ts[ty], i, m.cells[i])
  }

  ghost function SlotBytes(ts: Table, fill: seq<seq<byte>>, fields: seq<HField>, i: nat, c: Mem): seq<byte>
    requires i < |fields| && ExposedSlot(ts, fill, fields, i, c)
    decreases c, 5
  {
    var f := fields[i];
    if f.rule.Repeated? then
      var k :| 0 <= k < |c.items| && ExposedEntry(ts, fill, f.kind.ty, c.items[k], k);
      Times(RecordOf(f.tag, fill[f.kind.ty]), k) + EntryBytes(ts, fill, f.tag, f.kind.ty, c.items[k], k)
    else RecordOf(f.tag, LosingBytes(ts, fill, f.kind.ty, c))
  }

  ghost function EntryBytes(ts: Table, fill: seq<seq<byte>>, tag: nat, t: nat, m: Mem, k: nat): seq<byte>
    requires t < |ts| == |fill| && ExposedEntry(ts, fill, t, m, k)
    decreases m, 4
  {
    if Ids(m) != multiset{} then TagBytes(WT_STRING, tag) else RecordOf(tag, LosingBytes(ts, fill, t, m))
  }

  /** An exposed destination loses blocks. */
  lemma {:induction false} ExposedLoses(ts: Table, fill: seq<seq<byte>>, ty: nat, dest: Mem)
    requires TableOk(ts) && ShapedMsg(ts, ty, dest, false) && Exposed(ts, fill, ty, dest)
    ensures Loses(Feed(ts, ty, Reset(ts, ty, dest), {}, LosingBytes(ts, fill, ty, dest)))
    decreases dest, 1
  {
    hide TableOk, Feed, ShapedMsg, Reset, ExposedSlot, SlotBytes;
    SlotsOf(ts, ty, dest, false);
    forall i | 0 <= i < |dest.cells| && ExposedSlot(ts, fill, ts[ty], i, dest.cells[i])
      ensures Loses(Feed(ts, ty, Reset(ts, ty, dest), {}, SlotBytes(ts, fill, ts[ty], i, dest.cells[i])))
    {
      FieldFacts(ts, ty, i);
      if ts[ty][i].rule.Repeated? {
        ArrayLoses(ts, fill, ty, i, dest);
      } else {
        StructLoses(ts, fill, ty, i, dest);
      }
    }
  }

  /** A struct inside the struct. */
  lemma {:induction false} StructLoses(ts: Table, fill: seq<seq<byte>>, ty: nat, i: nat, dest: Mem)
    requires TableOk(ts) && ShapedMsg(ts, ty, dest, false) && i < |ts[ty]| && FieldOk(ts, ty, i)
    requires !ts[ty][i].rule.Repeated? && ExposedSlot(ts, fill, ts[ty], i, dest.cells[i])
    ensures Loses(Feed(ts, ty, Reset(ts, ty, dest), {}, SlotBytes(ts, fill, ts[ty], i, dest.cells[i])))
    decreases dest, 0
  {
    hide TableOk, Feed, TagBytes, WithLength, TakeString, AllSeen, Exposed, LosingBytes;
    var f := ts[ty][i];
    var m := Reset(ts, ty, dest);
    assert ShapedSlot(ts, ts[ty], i, dest.cells[i], false);
    var inner := LosingBytes(ts, fill, f.kind.ty, dest.cells[i]);
    ExposedLoses(ts, fill, f.kind.ty, dest.cells[i]);
    FeedTagged(ts, ty, i, m, {}, WithLength(inner));
    RoundTrip.TakeLength(inner, []);
    assert WithLength(inner) + [] == WithLength(inner);
    assert m.cells[i] == ResetSlot(ts, ty, i, dest.cells[i]) == Reset(ts, f.kind.ty, dest.cells[i]);
    ResetOwnsNothing(ts, f.kind.ty, dest.cells[i]);
    FeedInto(ts, f, m.cells[i], inner);
  }

  lemma FeedInto(ts: Table, f: HField, c: Mem, body: seq<byte>)
    requires !f.pointer && !f.rule.Repeated? && !f.rule.Oneof? && f.kind.Sub? && ShapedMsg(ts, f.kind.ty, c, true)
    requires TakeString(WithLength(body)).Got? && TakeString(WithLength(body)).val == body
    requires Feed(ts, f.kind.ty, c, {}, body).Starved?
    ensures FeedField(ts, f, c, WithLength(body)) == Starving(Feed(ts, f.kind.ty, c, {}, body).lost)
  {
    hide Feed, ShapedMsg, WithLength, TakeString, AllSeen;
  }

  /** An entry of an array in the struct: the entries before it are filled, and then it is starved,
      or a struct inside it is. */
  lemma {:induction false} ArrayLoses(ts: Table, fill: seq<seq<byte>>, ty: nat, i: nat, dest: Mem)
    requires TableOk(ts) && ShapedMsg(ts, ty, dest, false) && i < |ts[ty]| && FieldOk(ts, ty, i)
    requires ts[ty][i].rule.Repeated? && ExposedSlot(ts, fill, ts[ty], i, dest.cells[i])
    ensures Loses(Feed(ts, ty, Reset(ts, ty, dest), {}, SlotBytes(ts, fill, ts[ty], i, dest.cells[i])))
    decreases dest, 0
  {
    hide TableOk, Feed, FeedField, TagBytes, WithLength, TakeString, AllSeen, FillsOne, Times, RecordOf;
    hide ShapedMsg, ShapedSlot, ResetSlot, FieldOk, Exposed, LosingBytes;
    SlotsOf(ts, ty, dest, false);
    var f := ts[ty][i];
    var m := Reset(ts, ty, dest);
    var c := dest.cells[i];
    ArrayCell(ts, ty, i, c);
    assert m.cells[i] == ResetSlot(ts, ty, i, c);
    var t := f.kind.ty;
    forall k | 0 <= k < |c.items| && ExposedEntry(ts, fill, t, c.items[k], k)
      ensures Loses(Feed(ts, ty, m, {}, Times(RecordOf(f.tag, fill[t]), k) +
              EntryBytes(ts, fill, f.tag, t, c.items[k], k)))
    {
      if Ids(c.items[k]) != multiset{} {
        FillThenStarve(ts, ty, i, m, c.items, fill[t], k);
      } else {
        ExposedLoses(ts, fill, t, c.items[k]);
        FillThenLose(ts, ty, i, m, c.items, fill[t], k, LosingBytes(ts, fill, t, c.items[k]));
      }
    }
  }

  lemma ArrayCell(ts: Table, ty: nat, i: nat, c: Mem)
    requires ty < |ts| && i < |ts[ty]| && ts[ty][i].slot == i && IsArray(ts, ty, i)
    requires ShapedSlot(ts, ts[ty], i, c, false)
    ensures c.StaticArray? && |c.items| == ts[ty][i].rule.max
    ensures forall j :: 0 <= j < |c.items| ==> ShapedMsg(ts, ts[ty][i].kind.ty, c.items[j], false)
    ensures ResetSlot(ts, ty, i, c) == StaticArray(0, c.items)
  {
    hide ShapedMsg;
  }

  /** Entries before the k-th, filled. */
  lemma FeedBefore(ts: Table, ty: nat, i: nat, m: Mem, items: seq<Mem>, body: seq<byte>, k: nat, rest: seq<byte>)
    returns (c: Mem)
    requires TableOk(ts) && IsArray(ts, ty, i) && m.Struct? && |m.cells| == |ts[ty]| && ts[ty][i].slot == i
    requires m.cells[i] == StaticArray(0, items) && k < |items|
    requires forall j :: 0 <= j < |items| ==> ShapedMsg(ts, ts[ty][i].kind.ty, items[j], false)
    requires k > 0 ==> FillsOne(ts, ts[ty][i].kind.ty, body) && |body| < TWO32
    ensures c.StaticArray? && c.count == k < |c.items| && c.items[k] == items[k]
    ensures Feed(ts, ty, m, {}, Times(RecordOf(ts[ty][i].tag, body), k) + rest) ==
            Feed(ts, ty, Struct(m.cells[i := c]), {}, rest)
  {
    hide TableOk, Feed, FillsOne, RecordOf, ShapedMsg;
    if k == 0 {
      c := m.cells[i];
      assert [] + rest == rest && m.cells[i := c] == m.cells;
    } else {
      var filled := FeedFill(ts, ty, i, m, {}, m.cells[i], body, k, rest);
      c := StaticArray(k, filled);
      assert filled[k] == filled[k..][0] == items[k..][0];
    }
  }

  /** After k valid entries the next one is counted and its length is missing. */
  lemma FillThenStarve(ts: Table, ty: nat, i: nat, m: Mem, items: seq<Mem>, body: seq<byte>, k: nat)
    requires TableOk(ts) && IsArray(ts, ty, i) && m.Struct? && |m.cells| == |ts[ty]| && ts[ty][i].slot == i
    requires m.cells[i] == StaticArray(0, items) && k < |items| && Ids(items[k]) != multiset{}
    requires forall j :: 0 <= j < |items| ==> ShapedMsg(ts, ts[ty][i].kind.ty, items[j], false)
    requires k > 0 ==> FillsOne(ts, ts[ty][i].kind.ty, body) && |body| < TWO32
    ensures Loses(Feed(ts, ty, m, {}, Times(RecordOf(ts[ty][i].tag, body), k) + TagBytes(WT_STRING, ts[ty][i].tag)))
  {
    hide TableOk, Feed, FillsOne, Times, RecordOf, TagBytes, ShapedMsg;
    var tag := TagBytes(WT_STRING, ts[ty][i].tag);
    assert tag + [] == tag;
    var c := FeedBefore(ts, ty, i, m, items, body, k, tag);
    FeedTagged(ts, ty, i, Struct(m.cells[i := c]), {}, []);
    StarveEntry(ts, ts[ty][i], c);
  }

  lemma StarveEntry(ts: Table, f: HField, c: Mem)
    requires !f.pointer && f.rule.Repeated? && f.kind.Sub? && c.StaticArray? && c.count < |c.items|
    ensures FeedField(ts, f, c, []) == Starving(Ids(c.items[c.count]))
  {
  }

  /** After k valid entries the next one is sent an input on which it loses blocks itself. */
  lemma FillThenLose(ts: Table, ty: nat, i: nat, m: Mem, items: seq<Mem>, body: seq<byte>, k: nat, inner: seq<byte>)
    requires TableOk(ts) && IsArray(ts, ty, i) && m.Struct? && |m.cells| == |ts[ty]| && ts[ty][i].slot == i
    requires m.cells[i] == StaticArray(0, items) && k < |items|
    requires forall j :: 0 <= j < |items| ==> ShapedMsg(ts, ts[ty][i].kind.ty, items[j], false)
    requires (k > 0 ==> FillsOne(ts, ts[ty][i].kind.ty, body) && |body| < TWO32) && |inner| < TWO32
    requires Loses(Feed(ts, ts[ty][i].kind.ty, Reset(ts, ts[ty][i].kind.ty, items[k]), {}, inner))
    ensures Loses(Feed(ts, ty, m, {}, Times(RecordOf(ts[ty][i].tag, body), k) + RecordOf(ts[ty][i].tag, inner)))
  {
    hide TableOk, Feed, FeedField, FillsOne, Times, TagBytes, ShapedMsg, Reset, WithLength;
    var f := ts[ty][i];
    var c := FeedBefore(ts, ty, i, m, items, body, k, RecordOf(f.tag, inner));
    FieldFacts(ts, ty, i);
    FeedTagged(ts, ty, i, Struct(m.cells[i := c]), {}, WithLength(inner));
    assert WithLength(inner) + [] == WithLength(inner);
    FeedEntry(ts, f, c, inner, [], Feed(ts, f.kind.ty, Reset(ts, f.kind.ty, c.items[k]), {}, inner));
  }

  /** Exactly the blank destinations are safe. On a blank one no input loses a block. For any other
      of which some entry that is not blank can be reached, there is an input that makes every
      decode of it fail and lose blocks. */
  lemma DestinationExact(ts: Table, fill: seq<seq<byte>>, ty: nat, dest: Mem)
    requires TableOk(ts) && ShapedMsg(ts, ty, dest, false)
    requires Blank(ts, ty, dest) || Exposed(ts, fill, ty, dest)
    ensures Blank(ts, ty, dest) <==> forall s :: !Loses(Feed(ts, ty, Reset(ts, ty, dest), {}, s))
  {
    hide TableOk, Feed, ShapedMsg, Reset, Blank, Clean, Exposed;
    ResetOwnsNothing(ts, ty, dest);
    if Blank(ts, ty, dest) {
      forall s
        ensures !Loses(Feed(ts, ty, Reset(ts, ty, dest), {}, s))
      {
        FeedClean(ts, ty, Reset(ts, ty, dest), {}, s);
      }
    } else {
      ExposedLoses(ts, fill, ty, dest);
    }
  }

  /** Nothing has to be filled in front of a first entry. */
  lemma FirstEntryIsExposed(ts: Table, fill: seq<seq<byte>>, ty: nat, i: nat, dest: Mem)
    requires TableOk(ts) && ShapedMsg(ts, ty, dest, false) && |fill| == |ts| && IsArray(ts, ty, i)
    requires dest.cells[i].StaticArray? && dest.cells[i].items != []
    requires Ids(dest.cells[i].items[0]) != multiset{}
    ensures Exposed(ts, fill, ty, dest)
  {
    hide FillsOne;
    FieldFacts(ts, ty, i);
    assert ExposedEntry(ts, fill, ts[ty][i].kind.ty, dest.cells[i].items[0], 0);
    assert ExposedSlot(ts, fill, ts[ty], i, dest.cells[i]);
  }

  // ----- destinations all of whose entries can be reached -----

  /** Every type embedded in the type as an array entry, at any depth, has a valid message. */
  ghost predicate EntriesFill(ts: Table, fill: seq<seq<byte>>, ty: nat)
    decreases ty
  {
    && |fill| == |ts| && ty < |ts|
    && forall i :: 0 <= i < |ts[ty]| && !ts[ty][i].pointer && ts[ty][i].kind.Sub? && ts[ty][i].kind.ty < ty ==>
         && (ts[ty][i].rule.Repeated? ==> FillsOne(ts, ts[ty][i].kind.ty, fill[ts[ty][i].kind.ty]))
         && EntriesFill(ts, fill, ts[ty][i].kind.ty)
  }

  /** More than a tag and a length take. */
  const HEAD := 10

  /** An upper bound of the bytes of an input that fills all embedded arrays of a struct, and of the
      structs embedded in it. */
  function Reach(ts: Table, fill: seq<seq<byte>>, ty: nat, n: nat): nat
    requires |fill| == |ts| && ty < |ts| && n <= |ts[ty]|
    decreases ty, n, 0
  {
    if n == 0 then 0 else Reach(ts, fill, ty, n - 1) + ReachField(ts, fill, ty, n - 1)
  }

  function ReachField(ts: Table, fill: seq<seq<byte>>, ty: nat, i: nat): nat
    requires |fill| == |ts| && ty < |ts| && i < |ts[ty]|
    decreases ty, i, 1
  {
    var f := ts[ty][i];
    if f.pointer || f.kind.Value? || f.kind.ty >= ty then 0
    else
      (if f.rule.Repeated? then f.rule.max * (HEAD + |fill[f.kind.ty]|) else 0)
      + HEAD + Reach(ts, fill, f.kind.ty, |ts[f.kind.ty]|)
  }

  lemma {:induction false} ReachOne(ts: Table, fill: seq<seq<byte>>, ty: nat, n: nat, i: nat)
    requires |fill| == |ts| && ty < |ts| && i < n <= |ts[ty]|
    ensures ReachField(ts, fill, ty, i) <= Reach(ts, fill, ty, n)
    decreases n
  {
    hide ReachField;
    if i < n - 1 {
      ReachOne(ts, fill, ty, n - 1, i);
    }
  }

  lemma {:induction false} TimesLength(s: seq<byte>, n: nat)
    ensures |Times(s, n)| == n * |s|
  {
    if n > 0 {
      TimesLength(s, n - 1);
      assert n * |s| == (n - 1) * |s| + |s|;
    }
  }

  lemma ShortHead(n: nat)
    requires n < TWO32
    ensures |Encode(n)| <= 5
  {
    hide Encode, Pow2;
    Pow2Values();
    EncodeLength(n, 5);
  }

  lemma RecordLength(tag: nat, body: seq<byte>)
    requires tag < 0x2000_0000 && |body| < TWO32
    ensures |TagBytes(WT_STRING, tag)| <= 5 && |RecordOf(tag, body)| <= HEAD + |body|
  {
    hide Encode;
    ShortHead(8 * tag + WT_STRING);
    ShortHead(|body|);
    RoundTrip.SmallLength(|body|);
  }

  lemma SubReach(ts: Table, fill: seq<seq<byte>>, ty: nat, i: nat)
    requires TableOk(ts) && |fill| == |ts| && ty < |ts| && i < |ts[ty]|
    requires !ts[ty][i].pointer && ts[ty][i].kind.Sub?
    ensures ts[ty][i].kind.ty < |ts|
    ensures var t := ts[ty][i].kind.ty;
            ReachField(ts, fill, ty, i) ==
            (if ts[ty][i].rule.Repeated? then ts[ty][i].rule.max * (HEAD + |fill[t]|) else 0)
            + HEAD + Reach(ts, fill, t, |ts[t]|)
  {
    FieldFacts(ts, ty, i);
  }

  lemma ProductBound(k: nat, max: nat, x: nat)
    requires k <= max
    ensures k * x <= max * x && (0 < max ==> x <= max * x)
  {
  }

  lemma TimesBound(k: nat, a: nat, b: nat)
    requires a <= b
    ensures k * a <= k * b
  {
  }

  lemma FilledLength(tag: nat, body: seq<byte>, k: nat, max: nat)
    requires tag < 0x2000_0000 && k < max && (k > 0 ==> |body| < TWO32)
    ensures |Times(RecordOf(tag, body), k)| <= max * (HEAD + |body|)
  {
    hide RecordOf;
    var record := RecordOf(tag, body);
    TimesLength(record, k);
    ProductBound(k, max, HEAD + |body|);
    if k > 0 {
      RecordLength(tag, body);
      TimesBound(k, |record|, HEAD + |body|);
    }
  }

  /** The input is not longer than the bound. */
  lemma {:induction false} LosingLength(ts: Table, fill: seq<seq<byte>>, ty: nat, m: Mem)
    requires TableOk(ts) && ShapedMsg(ts, ty, m, false) && Exposed(ts, fill, ty, m)
    ensures |LosingBytes(ts, fill, ty, m)| <= Reach(ts, fill, ty, |ts[ty]|)
    decreases m, 1
  {
    hide TableOk, ShapedMsg, ExposedSlot, SlotBytes, ReachField;
    SlotsOf(ts, ty, m, false);
    forall i | 0 <= i < |m.cells| && ExposedSlot(ts, fill, ts[ty], i, m.cells[i])
      ensures |SlotBytes(ts, fill, ts[ty], i, m.cells[i])| <= Reach(ts, fill, ty, |ts[ty]|)
    {
      FieldFacts(ts, ty, i);
      ReachOne(ts, fill, ty, |ts[ty]|, i);
      SlotLength(ts, fill, ty, i, m.cells[i]);
    }
  }

  lemma {:induction false} SlotLength(ts: Table, fill: seq<seq<byte>>, ty: nat, i: nat, c: Mem)
    requires TableOk(ts) && ty < |ts| && i < |ts[ty]| && FieldOk(ts, ty, i) && ShapedSlot(ts, ts[ty], i, c, false)
    requires ExposedSlot(ts, fill, ts[ty], i, c)
    ensures |SlotBytes(ts, fill, ts[ty], i, c)| <= ReachField(ts, fill, ty, i)
    decreases c, 2
  {
    hide TableOk, Reach, ReachField, RecordOf, Times, Exposed, LosingBytes, FillsOne, TagBytes, ShapedMsg, ShapedSlot;
    var f := ts[ty][i];
    var t := f.kind.ty;
    SubReach(ts, fill, ty, i);
    if f.rule.Repeated? {
      ArrayCell(ts, ty, i, c);
      forall k | 0 <= k < |c.items| && ExposedEntry(ts, fill, t, c.items[k], k)
        ensures |Times(RecordOf(f.tag, fill[t]), k) + EntryBytes(ts, fill, f.tag, t, c.items[k], k)|
                <= ReachField(ts, fill, ty, i)
      {
        FilledLength(f.tag, fill[t], k, f.rule.max);
        RecordLength(f.tag, []);
        if Ids(c.items[k]) == multiset{} {
          LosingLength(ts, fill, t, c.items[k]);
          RecordLength(f.tag, LosingBytes(ts, fill, t, c.items[k]));
        }
      }
    } else {
      SingleCell(ts, ty, i, c);
      LosingLength(ts, fill, t, c);
      RecordLength(f.tag, LosingBytes(ts, fill, t, c));
    }
  }

  lemma SingleCell(ts: Table, ty: nat, i: nat, c: Mem)
    requires ty < |ts| && i < |ts[ty]| && ShapedSlot(ts, ts[ty], i, c, false)
    requires var f := ts[ty][i];
             f.slot == i && !f.rule.Oneof? && !f.pointer && f.kind.Sub? && !f.rule.Repeated?
    ensures ShapedMsg(ts, ts[ty][i].kind.ty, c, false)
  {
    hide ShapedMsg;
  }

  /** Of a destination that is not blank some entry can be reached when every embedded entry type has
      a valid message and messages that fill all arrays stay below 2^32 bytes. */
  lemma {:induction false} NotBlankIsExposed(ts: Table, fill: seq<seq<byte>>, ty: nat, dest: Mem)
    requires TableOk(ts) && ShapedMsg(ts, ty, dest, false) && !Blank(ts, ty, dest)
    requires EntriesFill(ts, fill, ty) && Reach(ts, fill, ty, |ts[ty]|) < TWO32
    ensures Exposed(ts, fill, ty, dest)
    decreases dest, 1
  {
    hide TableOk, ShapedMsg, ReachField, ExposedSlot, FillsOne;
    SlotsOf(ts, ty, dest, false);
    var i :| 0 <= i < |ts[ty]| && !BlankSlot(ts, ts[ty], i, dest.cells[i]);
    FieldFacts(ts, ty, i);
    ReachOne(ts, fill, ty, |ts[ty]|, i);
    NotBlankSlotIsExposed(ts, fill, ty, i, dest.cells[i]);
  }

  lemma {:induction false} NotBlankSlotIsExposed(ts: Table, fill: seq<seq<byte>>, ty: nat, i: nat, c: Mem)
    requires TableOk(ts) && ty < |ts| && i < |ts[ty]| && FieldOk(ts, ty, i) && ShapedSlot(ts, ts[ty], i, c, false)
    requires !BlankSlot(ts, ts[ty], i, c) && EntriesFill(ts, fill, ty) && ReachField(ts, fill, ty, i) < TWO32
    ensures ExposedSlot(ts, fill, ts[ty], i, c)
    decreases c, 2
  {
    hide TableOk, Reach, ReachField, Exposed, LosingBytes, FillsOne, ShapedMsg, ShapedSlot, Blank;
    var f := ts[ty][i];
    SubReach(ts, fill, ty, i);
    EntriesFillIn(ts, fill, ty, i);
    if f.rule.Repeated? {
      ArrayCell(ts, ty, i, c);
      var k :| 0 <= k < |c.items| && !BlankEntry(ts, f.kind.ty, c.items[k]);
      ProductBound(1, f.rule.max, HEAD + |fill[f.kind.ty]|);
      if Ids(c.items[k]) == multiset{} {
        NotBlankIsExposed(ts, fill, f.kind.ty, c.items[k]);
        LosingLength(ts, fill, f.kind.ty, c.items[k]);
      }
      assert ExposedEntry(ts, fill, f.kind.ty, c.items[k], k);
    } else {
      SingleCell(ts, ty, i, c);
      NotBlankIsExposed(ts, fill, f.kind.ty, c);
      LosingLength(ts, fill, f.kind.ty, c);
    }
  }

  lemma EntriesFillIn(ts: Table, fill: seq<seq<byte>>, ty: nat, i: nat)
    requires EntriesFill(ts, fill, ty) && i < |ts[ty]|
    requires !ts[ty][i].pointer && ts[ty][i].kind.Sub? && ts[ty][i].kind.ty < ty
    ensures |fill| == |ts| && EntriesFill(ts, fill, ts[ty][i].kind.ty)
    ensures ts[ty][i].rule.Repeated? ==> FillsOne(ts, ts[ty][i].kind.ty, fill[ts[ty][i].kind.ty])
  {
    hide FillsOne;
  }

  // ----- a stale entry -----

  /** A message with one pointer string, and one that embeds an array of such messages. */
  function TwoTypes(max: nat): Table {
    [[HField(1, HRule.Optional, true, Value(Field(1, Singular, String, Alloc.Pointer, 0, 0, 1, None)), 1, 0)],
     [HField(1, HRule.Repeated(max), false, Sub(0), 8, 0)]]
  }

  /** An array of such messages; the first one points to a block. */
  function OnePointer(id: nat, max: nat): seq<Mem>
    requires max > 0
  {
    [Struct([Ptr(Some(Block(id, 1, [])))])] + seq(max - 1, _ => Struct([Ptr(None)]))
  }

  lemma TwoTypesOk(max: nat)
    requires max <= PbSizeMax()
    ensures TableOk(TwoTypes(max))
  {
    var ts := TwoTypes(max);
    forall ty, i | 0 <= ty < |ts| && 0 <= i < |ts[ty]|
      ensures FieldOk(ts, ty, i)
    {
      assert ty == 0 || ty == 1;
      assert i == 0;
    }
  }

  lemma TextMessage(max: nat, c: Mem, strict: bool)
    requires c == Ptr(None) || (c.Ptr? && c.block.Some? && c.block.value.items == [])
    ensures ShapedMsg(TwoTypes(max), 0, Struct([c]), strict)
  {
    var ts := TwoTypes(max);
    assert ShapedField(ts, ts[0][0], c, strict);
    assert ShapedSlot(ts, ts[0], 0, c, strict);
  }

  lemma ArrayMessage(id: nat, max: nat, count: nat)
    requires 0 < max <= PbSizeMax() && count <= max
    ensures var items := OnePointer(id, max);
            var c := StaticArray(count, items);
            && ShapedField(TwoTypes(max), TwoTypes(max)[1][0], c, true)
            && ShapedMsg(TwoTypes(max), 1, Struct([c]), true) && ShapedMsg(TwoTypes(max), 1, Struct([c]), false)
            && Ids(items[0]) == multiset{id} && Ids(c) == if count == 0 then multiset{} else multiset{id}
  {
    var ts := TwoTypes(max);
    var items := OnePointer(id, max);
    var c := StaticArray(count, items);
    forall k | 0 <= k < |items|
      ensures ShapedMsg(ts, 0, items[k], k < count) && Ids(items[k]) == if k == 0 then multiset{id} else multiset{}
    {
      var p := if k == 0 then Ptr(Some(Block(id, 1, []))) else Ptr(None);
      assert items[k] == Struct([p]);
      TextMessage(max, p, k < count);
      PointerMessage(p);
    }
    assert ShapedField(ts, ts[1][0], c, true);
    assert ShapedSlot(ts, ts[1], 0, c, true);
    assert ShapedMsg(ts, 1, Struct([c]), true);
    MsgIsMemory(ts, 1, Struct([c]), true);
    ArrayIds(c);
    FirstOnly(items, id, Min(count, |items|));
  }

  lemma PointerMessage(p: Mem)
    requires p == Ptr(None) || (p.Ptr? && p.block.Some? && p.block.value.items == [])
    ensures Ids(Struct([p])) == IdOf(p.block)
  {
    StructIds(Struct([p]));
    NextItem([p], 0);
    NoItems([p]);
    FlatBlock(p.block);
  }

  lemma {:induction false} FirstOnly(items: seq<Mem>, id: nat, n: nat)
    requires n <= |items| && forall k :: 0 <= k < n ==> Ids(items[k]) == if k == 0 then multiset{id} else multiset{}
    ensures IdsFirst(items, n) == if n == 0 then multiset{} else multiset{id}
    decreases n
  {
    hide Ids;
    if n > 0 {
      FirstOnly(items, id, n - 1);
    }
  }

  /** The one-byte input 0A: the tag of the array and no length. The first entry is counted, and
      the block it happens to point to is lost. */
  lemma StaleEntry(id: nat, max: nat)
    requires 0 < max <= PbSizeMax()
    ensures var ts := TwoTypes(max);
            var dest := Struct([StaticArray(0, OnePointer(id, max))]);
            && TableOk(ts) && ShapedMsg(ts, 1, dest, false)
            && Feed(ts, 1, Reset(ts, 1, dest), {}, [0x0A]) == Starved(multiset{id})
  {
    hide ShapedMsg, TableOk, FeedField, Ids;
    var ts := TwoTypes(max);
    var c := StaticArray(0, OnePointer(id, max));
    var dest := Struct([c]);
    TwoTypesOk(max);
    ArrayMessage(id, max, 0);
    var m := Reset(ts, 1, dest);
    assert m.cells[0] == ResetSlot(ts, 1, 0, c) == c;
    assert m == dest;
    var none: seq<byte> := [];
    assert TagBytes(WT_STRING, 1) == [0x0A] == [0x0A] + none;
    FeedTagged(ts, 1, 0, dest, {}, none);
    StarveEntry(ts, ts[1][0], c);
  }

  /** The same as a run: pb_decode of the byte 0A into memory that points to a live block fails,
      and the block is no longer live, or the heap is broken. */
  method DecodeStaleEntry(heap: Allocator, id: nat, max: nat) returns (ok: bool, r: Mem)
    requires heap.Valid() && !heap.broken && 0 < max <= PbSizeMax() && id in heap.live
    modifies heap
    ensures !ok && (heap.broken || heap.live == old(heap.live) - multiset{id})
  {
    hide ShapedMsg, TableOk, Ids, Feed, Outcome, Blank, Clean, NoWrap, AllSeen, Reset, Allocator.Valid;
    var ts := TwoTypes(max);
    StaleEntry(id, max);
    var input := new IStream([0x0A], false);
    ghost var toll;
    ok, r, toll := DecodeInit(input, heap, ts, 1, Struct([StaticArray(0, OnePointer(id, max))]));
    LostOne(old(heap.live), heap.live, heap.broken, Ids(r), id, toll);
  }

  lemma LostOne(before: multiset<nat>, after: multiset<nat>, broken: bool, reached: multiset<nat>, id: nat, toll: Toll)
    requires Outcome(false, before, after, broken, multiset{}, reached, toll) && reached == multiset{}
    requires toll.lost == multiset{id} && toll.leaked == multiset{}
    ensures broken || after == before - multiset{id}
  {
    if !broken {
      forall k
        ensures (after + multiset{id})[k] == before[k]
      {
        assert (after + multiset{} + toll.lost)[k] == (before + reached + toll.leaked)[k];
      }
      assert after + multiset{id} == before;
    }
  }

  // ----- an array with PB_SIZE_MAX entries -----

  /** A full array of PB_SIZE_MAX entries whose first entry owns a block is an initialized struct;
      one more entry, and the count is zero and the block live but out of reach. */
  method OverflowLeaksBlock(stream: IStream, heap: Allocator, id: nat) returns (ok: bool, r: Mem)
    requires stream.Valid() && heap.Valid() && !heap.broken && id in heap.live
    modifies stream, heap
    ensures var c := StaticArray(PbSizeMax(), OnePointer(id, PbSizeMax()));
            ShapedMsg(TwoTypes(PbSizeMax()), 1, Struct([c]), true) && Ids(c) == multiset{id}
    ensures !ok && Ids(r) == multiset{} && heap.live == old(heap.live)
  {
    hide ShapedMsg, TableOk, Ids, MemberDone, FeedField, Allocator.Valid;
    var max := PbSizeMax();
    var ts := TwoTypes(max);
    var c := StaticArray(max, OnePointer(id, max));
    TwoTypesOk(max);
    ArrayMessage(id, max, max);
    assert id in heap.live ==> multiset{id} <= heap.live;
    ghost var toll;
    ok, r, toll := DecodeStatic(stream, heap, ts, ts[1][0], WT_STRING, c);
    SmallCount(max + 1);
    ArrayIds(r);
    NoItems(c.items);
  }
}
