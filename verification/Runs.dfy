/**
 Properties of decoder runs that follow from reading only as far as a record goes: extra bytes,
 concatenated encodings and unknown records.
 */
module Runs {
  import opened Wrappers
  import opened Varint
  import opened Integers
  import opened Schema
  import opened Encoding
  import opened Decoding

  // ----- bytes after what is read do not matter -----

  lemma TakeExtends(n: nat, s: seq<byte>, t: seq<byte>)
    requires n <= |s|
    ensures Take(n, s + t) == Take(n, s).Then(t)
  {
    assert (s + t)[..n] == s[..n];
    assert (s + t)[n..] == s[n..] + t;
  }

  lemma TakeStringExtends(s: seq<byte>, t: seq<byte>)
    requires TakeString(s).Got?
    ensures TakeString(s + t) == TakeString(s).Then(t)
  {
    Decode32Extends(s, t);
    var d := Decode32(s);
    TakeExtends(d.val, d.rest, t);
  }

  lemma TakeScalarExtends(f: Field, s: seq<byte>, t: seq<byte>)
    requires TakeScalar(f, s).Got?
    ensures TakeScalar(f, s + t) == TakeScalar(f, s).Then(t)
  {
    match f.ltype
    case Integer(_) => Decode64Extends(s, t);
    case Fixed32 => TakeExtends(4, s, t);
    case Fixed64 => TakeExtends(8, s, t);
    case Submessage(_) =>
    case Extension =>
    case _ =>
      Decode32Extends(s, t);
      var d := Decode32(s);
      if d.val <= |d.rest| {
        TakeExtends(d.val, d.rest, t);
      }
  }

  lemma TakePayloadExtends(f: Field, wt: nat, s: seq<byte>, t: seq<byte>)
    requires TakePayload(f, wt, s).Got?
    ensures TakePayload(f, wt, s + t) == TakePayload(f, wt, s).Then(t)
  {
    if TakeString(s).Got? {
      TakeStringExtends(s, t);
    }
    if TakeScalar(f, s).Got? {
      TakeScalarExtends(f, s, t);
    }
  }

  lemma SkipExtends(wt: nat, s: seq<byte>, t: seq<byte>)
    requires Skip(wt, s).Got?
    ensures Skip(wt, s + t) == Skip(wt, s).Then(t)
  {
    if wt == WT_VARINT {
      VarintLenExtends(s, t);
      TakeExtends(VarintLen(s), s, t);
    } else if wt == WT_STRING {
      Decode32Extends(s, t);
      TakeExtends(Decode32(s).val, Decode32(s).rest, t);
    } else {
      TakeExtends(if wt == WT_64BIT then 8 else 4, s, t);
    }
  }

  /** A record is read the same whatever follows it. */
  lemma TakeRecordExtends(fs: seq<Field>, s: seq<byte>, t: seq<byte>)
    requires !TakeRecord(fs, s).Malformed?
    ensures TakeRecord(fs, s + t) == TakeRecord(fs, s).Then(t)
  {
    Decode32Extends(s, t);
    var word, rest := Decode32(s).val, Decode32(s).rest;
    if word != 0 {
      var tag, wt := word / 8, word % 8;
      if fs == [] && tag == 0 {
        Decode32Extends(rest, t);
      } else if FindTag(fs, tag).None? {
        SkipExtends(wt, rest, t);
      } else {
        TakePayloadExtends(fs[FindTag(fs, tag).value], wt, rest, t);
      }
    }
  }

  /** The bytes are whole records; no zero tag ends them early. */
  predicate Clean(fs: seq<Field>, s: seq<byte>)
    decreases |s|
  {
    s == [] ||
    var h := TakeRecord(fs, s);
    h.Next? && Clean(fs, h.rest)
  }

  /** Continuing after a run over the first part of the input. */
  function RunOn(fs: seq<Field>, r: Option<(State, seq<byte>)>, s: seq<byte>): Option<(State, seq<byte>)> {
    if r.None? then None else Run(fs, r.value.0, s)
  }

  lemma {:induction false} RunAppend(fs: seq<Field>, st: State, a: seq<byte>, b: seq<byte>)
    requires Clean(fs, a)
    ensures Run(fs, st, a + b) == RunOn(fs, Run(fs, st, a), b)
    ensures Run(fs, st, a).Some? ==> Run(fs, st, a).value.1 == []
    decreases |a|
  {
    if a == [] {
      assert a + b == b;
    } else {
      TakeRecordExtends(fs, a, b);
      var h := TakeRecord(fs, a);
      var st' := Apply(fs, st, h.rec);
      if st'.Some? {
        RunAppend(fs, st'.value, h.rest, b);
      }
    }
  }

  // ----- concatenation is merge -----

  /** Descriptions whose top level keeps no state between records but the struct. */
  predicate Stateless(fs: seq<Field>) {
    forall i :: 0 <= i < |fs| ==> !fs[i].rule.Required? && !fs[i].rule.FixedCount?
  }

  lemma {:induction false} RunStateless(fs: seq<Field>, st: State, s: seq<byte>)
    requires Stateless(fs)
    ensures Run(fs, st, s).Some? ==>
              Run(fs, st, s).value.0.(m := st.m) == st
    ensures RequiredBefore(fs, |fs|) == 0
    decreases |s|
  {
    NoRequired(fs, |fs|);
    if s != [] {
      var h := TakeRecord(fs, s);
      if h.Next? {
        var st' := Apply(fs, st, h.rec);
        if st'.Some? {
          RunStateless(fs, st'.value, h.rest);
        }
      }
    }
  }

  lemma {:induction false} NoRequired(fs: seq<Field>, k: nat)
    requires Stateless(fs) && k <= |fs|
    ensures RequiredBefore(fs, k) == 0
  {
    if k > 0 {
      NoRequired(fs, k - 1);
    }
  }

  /** Decoding into the result of an earlier decode. */
  function DecodeOn(fs: seq<Field>, r: Option<(Cells, seq<byte>)>, s: seq<byte>): Option<(Cells, seq<byte>)> {
    if r.None? then None else Decode(fs, r.value.0, s)
  }

  /** "Last one wins": decoding two encodings written one after the other is decoding the second
      into the result of the first, in every struct and also when either fails. */
  lemma ConcatenationMerges(fs: seq<Field>, m: Cells, a: seq<byte>, b: seq<byte>)
    requires Stateless(fs) && Clean(fs, a)
    ensures Decode(fs, m, a + b) == DecodeOn(fs, Decode(fs, m, a), b)
  {
    RunAppend(fs, Start(m), a, b);
    RunStateless(fs, Start(m), a);
    RunStateless(fs, Start(m), a + b);
    var r := Run(fs, Start(m), a);
    if r.Some? {
      assert r.value.0 == Start(r.value.0.m);
      RunStateless(fs, r.value.0, b);
    }
  }

  // With REQUIRED fields, a decode of the second part alone may miss some that the first part has.

  predicate NoFixed(fs: seq<Field>) {
    forall i :: 0 <= i < |fs| ==> !fs[i].rule.FixedCount?
  }

  /** Records act the same whatever REQUIRED fields were seen before, and unsee none. */
  lemma {:induction false} RunIgnoresSeen(fs: seq<Field>, a: State, b: State, s: seq<byte>)
    requires a.(seen := b.seen) == b && b.seen <= a.seen
    ensures Run(fs, a, s).Some? <==> Run(fs, b, s).Some?
    ensures Run(fs, a, s).Some? ==>
              var x, y := Run(fs, a, s).value, Run(fs, b, s).value;
              x.1 == y.1 && x.0.(seen := y.0.seen) == y.0 && y.0.seen <= x.0.seen && a.seen <= x.0.seen
    decreases |s|
  {
    if s != [] {
      var h := TakeRecord(fs, s);
      if h.Next? {
        ApplyIgnoresSeen(fs, a, b, h.rec);
        if Apply(fs, a, h.rec).Some? {
          RunIgnoresSeen(fs, Apply(fs, a, h.rec).value, Apply(fs, b, h.rec).value, h.rest);
        }
      }
    }
  }

  lemma ApplyIgnoresSeen(fs: seq<Field>, a: State, b: State, r: Record)
    requires a.(seen := b.seen) == b && b.seen <= a.seen
    ensures Apply(fs, a, r).Some? <==> Apply(fs, b, r).Some?
    ensures Apply(fs, a, r).Some? ==>
              var x, y := Apply(fs, a, r).value, Apply(fs, b, r).value;
              x.(seen := y.seen) == y && y.seen <= x.seen && a.seen <= x.seen
  {
    hide Apply, OpenArray, UnionTagOk, StoreInto;
    if r.Known? && r.i < |fs| {
      ApplyInParts(fs, a, r.i, r.p);
      ApplyInParts(fs, b, r.i, r.p);
      OpenIgnoresSeen(fs, a, b, r.i);
      if OpenArray(fs, a, r.i).Some? {
        StoreIgnoresSeen(fs, OpenArray(fs, a, r.i).value, OpenArray(fs, b, r.i).value, r.i, r.p);
      }
    } else {
      ApplyElsewhere(fs, a, r);
      ApplyElsewhere(fs, b, r);
    }
  }

  /** The state once a record's items are stored. */
  function StoreInto(fs: seq<Field>, st: State, i: nat, p: Payload): Option<State>
    requires i < |fs|
  {
    var f := fs[i];
    var c :- Store(f, At(st.m, f.addr), st.filled, p);
    Some(State(st.m[f.addr := c], st.open, if f.rule.FixedCount? then st.filled + Count(p) else st.filled,
               MarkSeen(fs, i, st.seen)))
  }

  lemma ApplyInParts(fs: seq<Field>, st: State, i: nat, p: Payload)
    requires i < |fs|
    ensures var st1 := OpenArray(fs, st, i);
            Apply(fs, st, Known(i, p)) ==
            if st1.None? || !UnionTagOk(fs, fs[i], Which(At(st.m, fs[i].addr))) then None
            else StoreInto(fs, st1.value, i, p)
  {
    hide Store, UnionTagOk, MarkSeen;
  }

  lemma ApplyElsewhere(fs: seq<Field>, st: State, r: Record)
    requires r.Known? ==> r.i >= |fs|
    ensures Apply(fs, st, r) == if r.Known? then None else Some(st)
  {
  }

  lemma StoreIgnoresSeen(fs: seq<Field>, a: State, b: State, i: nat, p: Payload)
    requires a.(seen := b.seen) == b && b.seen <= a.seen && i < |fs|
    ensures StoreInto(fs, a, i, p).Some? <==> StoreInto(fs, b, i, p).Some?
    ensures StoreInto(fs, a, i, p).Some? ==>
              var x, y := StoreInto(fs, a, i, p).value, StoreInto(fs, b, i, p).value;
              x.(seen := y.seen) == y && y.seen <= x.seen && a.seen <= x.seen
  {
    hide Store, MarkSeen;
    MarkGrows(fs, i, a.seen, b.seen);
  }

  lemma OpenIgnoresSeen(fs: seq<Field>, a: State, b: State, i: nat)
    requires a.(seen := b.seen) == b && i < |fs|
    ensures OpenArray(fs, a, i).Some? <==> OpenArray(fs, b, i).Some?
    ensures OpenArray(fs, a, i).Some? ==>
              var x, y := OpenArray(fs, a, i).value, OpenArray(fs, b, i).value;
              x.(seen := b.seen) == y && x.seen == a.seen && y.seen == b.seen
  {
  }

  lemma MarkGrows(fs: seq<Field>, i: nat, a: set<nat>, b: set<nat>)
    requires i < |fs| && b <= a
    ensures MarkSeen(fs, i, b) <= MarkSeen(fs, i, a) && a <= MarkSeen(fs, i, a)
  {
  }

  lemma {:induction false} RunNoFixed(fs: seq<Field>, st: State, s: seq<byte>)
    requires NoFixed(fs) && st.open.None? && st.filled == 0 && Run(fs, st, s).Some?
    ensures Run(fs, st, s).value.0.open.None? && Run(fs, st, s).value.0.filled == 0
    decreases |s|
  {
    hide Store;
    if s != [] {
      var h := TakeRecord(fs, s);
      if h.Next? {
        RunNoFixed(fs, Apply(fs, st, h.rec).value, h.rest);
      }
    }
  }

  /** Where both parts are complete messages, their concatenation is decoded to the same. */
  lemma CompleteMessagesMerge(fs: seq<Field>, m: Cells, a: seq<byte>, b: seq<byte>)
    requires NoFixed(fs) && Clean(fs, a) && DecodeOn(fs, Decode(fs, m, a), b).Some?
    ensures Decode(fs, m, a + b) == DecodeOn(fs, Decode(fs, m, a), b)
  {
    hide Apply, TakeRecord, Run;
    RunAppend(fs, Start(m), a, b);
    var st := Run(fs, Start(m), a).value.0;
    RunNoFixed(fs, Start(m), a);
    RunIgnoresSeen(fs, st, Start(st.m), b);
  }

  function ReplaceOn(f: Field, v: Option<Val>, p: Payload): Option<Val> {
    if v.None? then None else Replace(f, v.value, p)
  }

  /** A submessage split over two records of its field is merged: the same as one record with
      both bodies. */
  lemma SplitSubmessageMerges(f: Field, was: Val, a: seq<byte>, b: seq<byte>)
    requires f.ltype.Submessage? && Stateless(f.ltype.fields) && Clean(f.ltype.fields, a)
    ensures Replace(f, was, Body(a + b)) == ReplaceOn(f, Replace(f, was, Body(a)), Body(b))
  {
    ConcatenationMerges(f.ltype.fields, SubCells(was), a, b);
  }

  // ----- unknown records -----

  /** The bytes of one value of a wire type, and no more. */
  predicate ValueShape(wt: nat, v: seq<byte>) {
    if wt == 0 then IsVarint(v)
    else if wt == 1 then |v| == 8
    else if wt == 2 then Decode32(v).Got? && |Decode32(v).rest| == Decode32(v).val
    else if wt == 5 then |v| == 4
    else false
  }

  /** A value is skipped exactly up to its end. */
  lemma SkipExact(wt: nat, v: seq<byte>, t: seq<byte>)
    requires ValueShape(wt, v)
    ensures Skip(wt, v + t) == Got((), t)
  {
    if wt == 0 {
      VarintShape(v, t);
    } else if wt == 2 {
      var d := Decode32(v);
      Decode32Extends(v, t);
      assert (d.rest + t)[d.val..] == t;
    } else {
      assert (v + t)[|v|..] == t;
    }
  }

  /** And whatever is skipped is a value. */
  lemma SkippedIsValue(wt: nat, s: seq<byte>)
    requires Skip(wt, s).Got?
    ensures var n := |s| - |Skip(wt, s).rest|;
            0 <= n <= |s| && s[n..] == Skip(wt, s).rest && ValueShape(wt, s[..n])
  {
    if wt == 0 {
      VarintLenShape(s);
    } else if wt == 2 {
      var v := s[..|s| - |Skip(wt, s).rest|];
      var n := VarintLen(s);
      VarintLenShape(s);
      VarintShape(s[..n], v[n..]);
      assert s[..n] + v[n..] == v && v[..n] == s[..n];
    }
  }

  lemma ValueIsSkipped(wt: nat, s: seq<byte>, n: nat)
    requires n <= |s| && ValueShape(wt, s[..n])
    ensures Skip(wt, s).Got?
  {
    SkipExact(wt, s[..n], s[n..]);
    assert s[..n] + s[n..] == s;
  }

  /** One record that the decoder does not know, byte for byte: a readable tag word that is not
      zero (its tag may be, and it need not be the shortest varint) with a number no field has,
      and the value its wire type calls for. In a message without fields tag 0 is special: it is
      followed by a 32-bit varint. */
  predicate UnknownRecord(fs: seq<Field>, u: seq<byte>) {
    var word := Decode32(u);
    && word.Got? && word.val != 0
    && if fs == [] && word.val < 8 then Decode32(word.rest).Got? && Decode32(word.rest).rest == []
       else
         && (forall j :: 0 <= j < |fs| ==> fs[j].tag != word.val / 8)
         && ValueShape(word.val % 8, word.rest)
  }

  /** These are the byte strings that the decoder reads as one unknown record. */
  lemma TakeUnknown(fs: seq<Field>, u: seq<byte>)
    ensures TakeRecord(fs, u) == Next(Unknown, []) <==> UnknownRecord(fs, u)
  {
    hide TakePayload, Skip, ValueShape;
    var word := Decode32(u);
    if word.Got? {
      var wt, v := word.val % 8, word.rest;
      if ValueShape(wt, v) {
        SkipExact(wt, v, []);
        assert v + [] == v;
      }
      if Skip(wt, v).Got? && Skip(wt, v).rest == [] {
        SkippedIsValue(wt, v);
        assert v[..|v|] == v;
      }
      assert word.val < 8 <==> word.val / 8 == 0;
    }
  }

  /** Unknown records are transparent: put at any record boundary, also between the records of
      an array without _count, one changes neither the struct nor the verdict nor the bytes
      left. */
  lemma UnknownIsTransparent(fs: seq<Field>, m: Cells, a: seq<byte>, u: seq<byte>, b: seq<byte>)
    requires Clean(fs, a) && UnknownRecord(fs, u)
    ensures Decode(fs, m, a + u + b) == Decode(fs, m, a + b)
  {
    hide TakeRecord, UnknownRecord;
    TakeUnknown(fs, u);
    assert Clean(fs, []);
    assert Clean(fs, u);
    assert a + u + b == a + (u + b);
    RunAppend(fs, Start(m), a, u + b);
    RunAppend(fs, Start(m), a, b);
    var r := Run(fs, Start(m), a);
    if r.Some? {
      var st := r.value.0;
      RunAppend(fs, st, u, b);
      assert Apply(fs, st, Unknown) == Some(st);
      assert Run(fs, st, []) == Some((st, []));
    }
  }

  /** A zero word at a record boundary ends the message: what is in front of it is all that is
      decoded, and what is behind it is left. */
  lemma ZeroWordEnds(fs: seq<Field>, m: Cells, a: seq<byte>, b: seq<byte>)
    requires Clean(fs, a)
    ensures Decode(fs, m, a).None? ==> Decode(fs, m, a + ([0] + b)).None?
    ensures Decode(fs, m, a).Some? ==>
              Decode(fs, m, a).value.1 == [] && Decode(fs, m, a + ([0] + b)) == Some((Decode(fs, m, a).value.0, b))
  {
    hide Apply, Clean;
    ZeroWord(fs, b);
    assert a + [] == a;
    RunAppend(fs, Start(m), a, [0] + b);
    RunAppend(fs, Start(m), a, []);
  }

  lemma ZeroWord(fs: seq<Field>, b: seq<byte>)
    ensures TakeRecord(fs, [0] + b) == Stop(b)
  {
    var zero: seq<byte> := [0];
    assert Encode(0) == zero;
    Decode32OfEncode(0, b);
  }
}
