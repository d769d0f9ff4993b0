/**
 How deep the submessages of an input nest (pb_decode.c:946-1024, 1519-1541), as a function of the
 bytes: each level costs a byte for its tag and one for its length. NestingOf is for the
 descriptions of Schema, Nesting for the message types of Layout, which may be recursive.
 */
module Depth {
  import opened Wrappers
  import opened Varint
  import opened Schema
  import opened Encoding
  import opened Decoding
  import opened Layout

  function Max(a: nat, b: nat): nat {
    if a < b then b else a
  }

  // ----- descriptions -----

  /** A record with a body is of a submessage field, and takes the body, a tag and a length. */
  lemma BodyWithin(fs: seq<Field>, s: seq<byte>)
    requires TakeRecord(fs, s).Next? && TakeRecord(fs, s).rec.Known? && TakeRecord(fs, s).rec.p.Body?
    ensures var r := TakeRecord(fs, s).rec;
            r.i < |fs| && fs[r.i].ltype.Submessage? && |r.p.bytes| + 2 <= |s|
  {
    hide TakeScalar, TakeAll, Skip;
  }

  /** 0 for an input without submessages; one more than the deepest body otherwise. What comes after
      a malformed record or a zero tag is not read. */
  function NestingOf(fs: seq<Field>, s: seq<byte>): nat
    decreases |s|
  {
    if s == [] then 0
    else match TakeRecord(fs, s)
      case Malformed => 0
      case Stop(_) => 0
      case Next(r, rest) =>
        var inner :=
          if r.Known? && r.p.Body? then
            BodyWithin(fs, s);
            1 + NestingOf(fs[r.i].ltype.fields, r.p.bytes)
          else 0;
        Max(inner, NestingOf(fs, rest))
  }

  /** The nesting of a message is at most half its length. */
  lemma {:induction false} NestingOfBound(fs: seq<Field>, s: seq<byte>)
    ensures 2 * NestingOf(fs, s) <= |s|
    decreases |s|
  {
    hide TakeRecord;
    if s != [] {
      var h := TakeRecord(fs, s);
      if h.Next? {
        NestingOfBound(fs, h.rest);
        if h.rec.Known? && h.rec.p.Body? {
          BodyWithin(fs, s);
          NestingOfBound(fs[h.rec.i].ltype.fields, h.rec.p.bytes);
        }
      }
    }
  }

  // ----- tables of message types -----

  /** What a record of a field takes: the body, if it is a submessage, and what follows it. */
  function TakeMember(f: HField, wireType: nat, s: seq<byte>): (r: Parsed<seq<byte>>)
    ensures r.Got? ==> |r.val| + 1 <= |s| && |r.rest| < |s|
  {
    if f.kind.Sub? then TakeString(s)
    else if (f.pointer && IsText(f.kind)) ||
            (f.rule.Repeated? && wireType == WT_STRING && f.kind.f.ltype.Packable()) then
      match TakeString(s)
      case Bad => Bad
      case Got(_, rest) => Got([], rest)
    else
      match TakeScalar(f.kind.f, s)
      case Bad => Bad
      case Got(_, rest) => Got([], rest)
  }

  /** The nesting of one record's value. */
  function MemberNesting(ts: Table, f: HField, wireType: nat, s: seq<byte>): nat
    decreases |s|, 0
  {
    match TakeMember(f, wireType, s)
    case Bad => 0
    case Got(body, _) => if f.kind.Sub? then 1 + Nesting(ts, f.kind.ty, body) else 0
  }

  /** The nesting of a message of type ty. */
  function Nesting(ts: Table, ty: nat, s: seq<byte>): nat
    decreases |s|, 1
  {
    if s == [] || ty >= |ts| then 0
    else match Decode32(s)
      case Bad => 0
      case Got(word, rest) =>
        var tag, wireType := word / 8, word % 8;
        if word == 0 then 0
        else if ts[ty] == [] && tag == 0 then
          match Decode32(rest)
          case Bad => 0
          case Got(_, rest') => Nesting(ts, ty, rest')
        else
          var i := FindField(ts[ty], tag);
          if i.None? then
            match Skip(wireType, rest)
            case Bad => 0
            case Got(_, rest') => Nesting(ts, ty, rest')
          else
            var f := ts[ty][i.value];
            match TakeMember(f, wireType, rest)
            case Bad => 0
            case Got(_, rest') => Max(MemberNesting(ts, f, wireType, rest), Nesting(ts, ty, rest'))
  }

  /** The nesting is at most half the length, also for types that contain themselves. */
  lemma {:induction false} NestingBound(ts: Table, ty: nat, s: seq<byte>)
    ensures 2 * Nesting(ts, ty, s) <= |s|
    decreases |s|, 1
  {
    hide TakeMember, Skip;
    if s != [] && ty < |ts| && Decode32(s).Got? && Decode32(s).val != 0 {
      var word, rest := Decode32(s).val, Decode32(s).rest;
      var i := FindField(ts[ty], word / 8);
      if ts[ty] == [] && word / 8 == 0 {
        if Decode32(rest).Got? {
          NestingBound(ts, ty, Decode32(rest).rest);
        }
      } else if i.None? {
        var skipped := Skip(word % 8, rest);
        if skipped.Got? {
          NestingBound(ts, ty, skipped.rest);
        }
      } else {
        var t := TakeMember(ts[ty][i.value], word % 8, rest);
        if t.Got? {
          MemberNestingBound(ts, ts[ty][i.value], word % 8, rest);
          NestingBound(ts, ty, t.rest);
        }
      }
    }
  }

  lemma {:induction false} MemberNestingBound(ts: Table, f: HField, wireType: nat, s: seq<byte>)
    ensures 2 * MemberNesting(ts, f, wireType, s) <= |s| + 1
    decreases |s|, 0
  {
    hide TakeMember, Nesting;
    var t := TakeMember(f, wireType, s);
    if t.Got? && f.kind.Sub? {
      NestingBound(ts, f.kind.ty, t.val);
    }
  }

  // ----- the bound is reached -----

  /** One record at the front, of a field of the type. */
  lemma NestingRecord(ts: Table, ty: nat, s: seq<byte>, word: nat, rest: seq<byte>, i: nat)
    requires s != [] && ty < |ts| && Decode32(s) == Got(word, rest) && word / 8 > 0
    requires FindField(ts[ty], word / 8) == Some(i)
    ensures var t := TakeMember(ts[ty][i], word % 8, rest);
            Nesting(ts, ty, s) ==
            if t.Bad? then 0 else Max(MemberNesting(ts, ts[ty][i], word % 8, rest), Nesting(ts, ty, t.rest))
  {
    hide TakeMember, Decode32;
  }

  /** A message type with one field, a pointer to a message of the same type. */
  function SelfType(): Table {
    [[HField(1, HRule.Optional, true, Sub(0), 8, 0)]]
  }

  /** Two more bytes, a tag and a length, nest a message one level deeper. */
  lemma SelfNesting(body: seq<byte>)
    requires |body| < 128
    ensures Nesting(SelfType(), 0, [0x0A, |body|] + body) == 1 + Nesting(SelfType(), 0, body)
  {
    hide Decode32, TakeMember, Nesting, Encode;
    var ts := SelfType();
    var s := [0x0A, |body|] + body;
    var rest := [|body|] + body;
    SmallEncode(0x0A);
    SmallEncode(|body|);
    assert s == Encode(0x0A) + rest && rest == Encode(|body|) + body;
    Decode32OfEncode(0x0A, rest);
    Decode32OfEncode(|body|, body);
    assert FindField(ts[0], 1) == Some(0);
    NestingRecord(ts, 0, s, 0x0A, rest, 0);
    TakeBody(ts[0][0], rest, body);
    NestingNone(ts, 0);
  }

  lemma SmallEncode(n: nat)
    requires n < 128
    ensures Encode(n) == [n]
  {
  }

  lemma TakeBody(f: HField, rest: seq<byte>, body: seq<byte>)
    requires f.kind.Sub? && Decode32(rest) == Got(|body|, body)
    ensures TakeMember(f, WT_STRING, rest) == Got(body, [])
  {
    hide Decode32;
    assert body[..|body|] == body && body[|body|..] == [];
  }

  lemma NestingNone(ts: Table, ty: nat)
    ensures Nesting(ts, ty, []) == 0
  {
  }
}
