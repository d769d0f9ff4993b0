/**
 What decoding a byte string accepts and leaves (pb_decode.c:928-1076): the results about lists of
 records, stated of pb_decode_noinit and its input.
 */
module Acceptance {
  import opened Wrappers
  import opened Schema
  import opened Runs
  import opened Decoding
  import opened Traces
  import opened FieldRuns
  import opened AllFields

  /** The records in an input are of fields of the description. */
  lemma {:induction false} RecordsAreOfFields(fs: seq<Field>, s: seq<byte>)
    requires Records(fs, s).Some?
    ensures OfFields(fs, Records(fs, s).value.0)
    decreases |s|
  {
    hide TakePayload, Skip;
    if s != [] {
      var h := TakeRecord(fs, s);
      if h.Next? {
        RecordsAreOfFields(fs, h.rest);
        var others := Records(fs, h.rest).value.0;
        forall k | 0 <= k < |others| + 1 && ([h.rec] + others)[k].Known?
          ensures ([h.rec] + others)[k].i < |fs|
        {
          assert k > 0 ==> ([h.rec] + others)[k] == others[k - 1];
        }
      }
    }
  }

  /** Decoding folds the records and checks the result. */
  lemma DecodeIsFold(fs: seq<Field>, m: Cells, s: seq<byte>)
    ensures Decode(fs, m, s).Some? <==>
            && Records(fs, s).Some?
            && Fold(fs, Start(m), Records(fs, s).value.0).Some?
            && Complete(fs, Fold(fs, Start(m), Records(fs, s).value.0).value)
    ensures Decode(fs, m, s).Some? ==>
              Decode(fs, m, s).value == (Fold(fs, Start(m), Records(fs, s).value.0).value.m, Records(fs, s).value.1)
  {
    hide Run, Records, Fold, Complete;
    RunIsFold(fs, Start(m), s);
  }

  /** Every REQUIRED field that is tracked, the first 64, is among the records. */
  predicate AllRequired(fs: seq<Field>, recs: seq<Record>) {
    forall i :: 0 <= i < |fs| && fs[i].rule.Required? && RequiredBefore(fs, i) < 64 ==> Appears(recs, i)
  }

  /** Exactly which inputs are accepted, and what they leave: those made of records that every field
      takes, whose fixed-count records come in groups that fill their arrays, and among which the
      tracked REQUIRED fields appear. Every field is then as its own records make it, no other
      memory has changed, and the bytes left are those behind the records. */
  lemma DecodeExact(fs: seq<Field>, m: Cells, s: seq<byte>)
    requires WellFormed(fs)
    ensures Decode(fs, m, s).Some? <==>
            && Records(fs, s).Some?
            && var recs := Records(fs, s).value.0;
               && (forall i :: 0 <= i < |fs| ==> FieldTakes(fs, m, recs, i))
               && GroupsExact(fs, recs)
               && AllRequired(fs, recs)
    ensures Decode(fs, m, s).Some? ==>
              var after := Decode(fs, m, s).value;
              && (forall i :: 0 <= i < |fs| ==> FieldHolds(fs, m, Records(fs, s).value.0, after.0, i))
              && (forall a: nat :: (forall i :: 0 <= i < |fs| ==> fs[i].addr != a) ==> At(after.0, a) == At(m, a))
              && after.1 == Records(fs, s).value.1
  {
    hide WellFormed, Decode, Records, Fold, Complete, FieldTakes, FieldHolds, GroupsExact, At;
    DecodeIsFold(fs, m, s);
    if Records(fs, s).Some? {
      var recs := Records(fs, s).value.0;
      RecordsAreOfFields(fs, s);
      AllFieldsOverRun(fs, m, recs);
      CompleteArray(fs, m, recs);
      if Fold(fs, Start(m), recs).Some? {
        RequiredOverRun(fs, m, recs);
        forall a: nat | forall i :: 0 <= i < |fs| ==> fs[i].addr != a
          ensures At(Fold(fs, Start(m), recs).value.m, a) == At(m, a)
        {
          FoldOutside(fs, Start(m), recs, a);
        }
      }
    }
  }

  lemma CompleteArray(fs: seq<Field>, m: Cells, recs: seq<Record>)
    ensures Fold(fs, Start(m), recs).Some? && Complete(fs, Fold(fs, Start(m), recs).value) ==>
              ArrayComplete(fs, Fold(fs, Start(m), recs).value)
  {
  }

  /** After a successful decode a repeated field holds its old items and then, in order, all items
      of its records. When some item is bad, or they do not all fit, the decode fails. */
  lemma RepeatedDecoded(fs: seq<Field>, i: nat, m: Cells, s: seq<byte>)
    requires WellFormed(fs) && i < |fs| && fs[i].rule.Repeated? && Records(fs, s).Some?
    ensures var vs := ItemsIn(fs, Only(Records(fs, s).value.0, {i}));
            var was := Items(At(m, fs[i].addr));
            && (vs.None? || (vs.value != [] && |was| + |vs.value| > fs[i].rule.max) ==> Decode(fs, m, s).None?)
            && (Decode(fs, m, s).Some? ==> Items(At(Decode(fs, m, s).value.0, fs[i].addr)) == was + vs.value)
  {
    hide WellFormed, Decode, Records, Fold, Complete, ItemsIn;
    DecodeIsFold(fs, m, s);
    RecordsAreOfFields(fs, s);
    RepeatedOverRun(fs, i, Start(m), Records(fs, s).value.0);
  }

  /** The union at the i-th field: when its records are not ones it takes, the decode fails; after a
      successful decode, which_ is the number of the last record of a member, and the contents the
      merge of that member's records since the last switch. */
  lemma UnionDecoded(fs: seq<Field>, i: nat, m: Cells, s: seq<byte>)
    requires WellFormed(fs) && i < |fs| && fs[i].rule.Oneof? && Records(fs, s).Some?
    ensures var addr := fs[i].addr;
            var recs := Only(Records(fs, s).value.0, Members(fs, addr));
            && (!UnionTakes(fs, At(m, addr), recs) ==> Decode(fs, m, s).None?)
            && (Decode(fs, m, s).Some? ==> UnionHolds(fs, At(m, addr), recs, At(Decode(fs, m, s).value.0, addr)))
  {
    hide WellFormed, Decode, Records, Fold, Complete, UnionTakes, UnionHolds;
    DecodeIsFold(fs, m, s);
    RecordsAreOfFields(fs, s);
    UnionOverRun(fs, i, Start(m), Records(fs, s).value.0);
  }

  /** A required, optional or proto3 field: when its records cannot be merged into what it held, the
      decode fails; after a successful decode it holds the merge of all of them, with has_ set. */
  lemma PlainDecoded(fs: seq<Field>, i: nat, m: Cells, s: seq<byte>)
    requires WellFormed(fs) && i < |fs| && IsPlain(fs[i]) && Records(fs, s).Some?
    ensures var f := fs[i];
            var recs := Only(Records(fs, s).value.0, {i});
            && (MergeAll(f, Item(At(m, f.addr)), recs).None? ==> Decode(fs, m, s).None?)
            && (Decode(fs, m, s).Some? ==> PlainHolds(f, At(m, f.addr), recs, At(Decode(fs, m, s).value.0, f.addr)))
  {
    hide WellFormed, Decode, Records, Fold, Complete, MergeAll, PlainHolds;
    DecodeIsFold(fs, m, s);
    RecordsAreOfFields(fs, s);
    PlainOverRun(fs, i, Start(m), Records(fs, s).value.0);
  }

  /** Last one wins: after a successful decode, a number, string or byte array holds the value of
      its last record, and a submessage of a type that keeps nothing between records holds the
      decoding of all its bodies, joined, into what was there. */
  lemma LastOneWins(fs: seq<Field>, i: nat, m: Cells, s: seq<byte>)
    requires WellFormed(fs) && i < |fs| && IsPlain(fs[i]) && Decode(fs, m, s).Some?
    requires Records(fs, s).Some? && Only(Records(fs, s).value.0, {i}) != []
    ensures var f := fs[i];
            var recs := Only(Records(fs, s).value.0, {i});
            var last := recs[|recs| - 1];
            var d := At(Decode(fs, m, s).value.0, f.addr);
            && (f.rule.Optional? ==> d.Opt? && d.has)
            && (!f.ltype.Submessage? ==> last.p == Vals([Item(d)]))
            && (f.ltype.Submessage? && Stateless(f.ltype.fields) && CleanBodies(f.ltype.fields, recs) ==>
                  var body := Decode(f.ltype.fields, SubCells(Item(At(m, f.addr))), Bodies(recs));
                  body.Some? && Item(d) == Msg(body.value.0))
  {
    hide WellFormed, Decode, Records, MergeAll, Stateless, Clean;
    var f := fs[i];
    var recs := Only(Records(fs, s).value.0, {i});
    var v := Item(At(m, f.addr));
    PlainDecoded(fs, i, m, s);
    if !f.ltype.Submessage? {
      MergeKeepsLast(f, v, recs);
    } else if Stateless(f.ltype.fields) && CleanBodies(f.ltype.fields, recs) {
      MergeIsConcatenation(f, v, recs);
    }
  }

  /** The records hold bodies of whole records. */
  predicate CleanBodies(fs: seq<Field>, recs: seq<Record>) {
    forall k :: 0 <= k < |recs| ==> recs[k].Known? && recs[k].p.Body? && Clean(fs, recs[k].p.bytes)
  }

  /** A submessage that starts anew, an array entry or the first record after a switch of a union,
      is decoded as a message of its own. */
  lemma FreshSubmessage(f: Field, b: seq<byte>)
    requires f.ltype.Submessage?
    ensures var d := DecodeMsg(f.ltype.fields, b);
            && Replace(f, DefaultVal(f), Body(b)) == (if d.Some? then Some(Msg(d.value.0)) else None)
            && NewItems(f, Body(b)) == if d.Some? then Some([Msg(d.value.0)]) else None
  {
    hide Decode, Defaults;
    assert SubCells(DefaultVal(f)) == Defaults(f.ltype.fields, |f.ltype.fields|) by { DefaultOfSub(f); }
  }

  lemma DefaultOfSub(f: Field)
    requires f.ltype.Submessage?
    ensures DefaultVal(f) == Msg(Defaults(f.ltype.fields, |f.ltype.fields|))
  {
  }
}
