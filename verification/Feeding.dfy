/**
 What decoding does on inputs that leave nothing to chance: embedded submessages and their arrays,
 single values, no pointers and no unions. On such inputs the memory afterwards, or the blocks lost
 on the way, are a function of the memory before and the bytes. On all others this says nothing.
 */
module Feeding {
  import opened Wrappers
  import opened Varint
  import opened Schema
  import opened Encoding
  import opened Decoding
  import opened Heap
  import opened Layout

  /** After a whole message: nothing said; read, with the REQUIRED fields that came; or failed with
      an array entry counted that was never initialized, and so with the blocks it reaches. */
  datatype Fed = Open | Kept(m: Mem, seen: set<nat>) | Starved(lost: multiset<nat>)

  /** After one field record, in the same cases. */
  datatype Step = Unclear | Stored(c: Mem, rest: seq<byte>) | Starving(lost: multiset<nat>)

  function MarkField(fields: seq<HField>, i: nat, seen: set<nat>): set<nat>
    requires i < |fields|
  {
    if fields[i].rule.Required? && RequiredAmong(fields, i) < 64 then seen + {i} else seen
  }

  /** A length and a submessage: into the memory as it is, or into a new array entry. */
  function FeedSub(ts: Table, ty: nat, m: Mem, init: bool, s: seq<byte>): (r: Step)
    ensures r.Stored? ==> |r.rest| < |s|
    decreases |s|, 0
  {
    match TakeString(s)
    case Bad => if init then Starving(Ids(m)) else Unclear
    case Got(body, rest) =>
      if !ShapedMsg(ts, ty, m, !init) then Unclear
      else match Feed(ts, ty, if init then Reset(ts, ty, m) else m, {}, body) {
        case Open => Unclear
        case Starved(lost) => Starving(lost)
        case Kept(m', seen) => if AllSeen(ts[ty], seen) then Stored(m', rest) else Unclear
      }
  }

  function FeedField(ts: Table, f: HField, c: Mem, s: seq<byte>): (r: Step)
    ensures r.Stored? ==> |r.rest| < |s|
    decreases |s|, 1
  {
    if f.pointer || f.rule.Oneof? then Unclear
    else if f.kind.Value? then
      match TakeScalar(f.kind.f, s)
      case Bad => Unclear
      case Got(_, rest) => if f.rule.Repeated? then Unclear else Stored(c, rest)
    else if f.rule.Repeated? then
      if !c.StaticArray? || c.count >= |c.items| then Unclear
      else match FeedSub(ts, f.kind.ty, c.items[c.count], true, s) {
        case Stored(m, rest) => Stored(StaticArray(c.count + 1, c.items[c.count := m]), rest)
        case other => other
      }
    else FeedSub(ts, f.kind.ty, c, false, s)
  }

  /** The records of a message, into a struct that was initialized. */
  function Feed(ts: Table, ty: nat, m: Mem, seen: set<nat>, s: seq<byte>): (r: Fed)
    ensures r.Kept? ==> ty < |ts|
    decreases |s|, 2
  {
    if ty >= |ts| || !m.Struct? || |m.cells| != |ts[ty]| then Open
    else if s == [] then Kept(m, seen)
    else match Decode32(s)
      case Bad => Open
      case Got(word, rest) =>
        var i := FindField(ts[ty], word / 8);
        if word == 0 || i.None? || ts[ty][i.value].slot >= |m.cells| then Open
        else
          var slot := ts[ty][i.value].slot;
          match FeedField(ts, ts[ty][i.value], m.cells[slot], rest)
          case Unclear => Open
          case Starving(lost) => Starved(lost)
          case Stored(c, rest') =>
            Feed(ts, ty, Struct(m.cells[slot := c]), MarkField(ts[ty], i.value, seen), rest')
  }

  /** One record at the front. */
  lemma FeedRecord(ts: Table, ty: nat, m: Mem, seen: set<nat>, s: seq<byte>, word: nat, rest: seq<byte>, i: nat)
    requires s != [] && Decode32(s) == Got(word, rest) && word != 0
    requires ty < |ts| && m.Struct? && |m.cells| == |ts[ty]|
    requires FindField(ts[ty], word / 8) == Some(i) && ts[ty][i].slot < |m.cells|
    ensures var slot := ts[ty][i].slot;
            var step := FeedField(ts, ts[ty][i], m.cells[slot], rest);
            Feed(ts, ty, m, seen, s) == AfterStep(ts, ty, m, seen, i, step)
  {
  }

  function AfterStep(ts: Table, ty: nat, m: Mem, seen: set<nat>, i: nat, step: Step): Fed
    requires ty < |ts| && i < |ts[ty]| && m.Struct? && ts[ty][i].slot < |m.cells|
  {
    match step
    case Unclear => Open
    case Starving(lost) => Starved(lost)
    case Stored(c, rest) => Feed(ts, ty, Struct(m.cells[ts[ty][i].slot := c]), MarkField(ts[ty], i, seen), rest)
  }
}
