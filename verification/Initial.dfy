/**
 What a struct is initialized to (pb_decode.c:839-922), member by member and at every depth, and
 that a decode leaves it so where the input says nothing.
 */
module Initial {
  import opened Wrappers
  import opened Schema
  import opened Decoding
  import opened Traces
  import opened Acceptance
  import opened AllFields
  import RoundTrip

  /** The value of a member that was not set: the descriptor's default if there is one, and zero of
      its type if not; in a submessage the same for every member. */
  predicate IsInitialVal(f: Field, v: Val)
    decreases f, 0
  {
    match f.ltype
    case Submessage(fs) => v.Msg? && IsInitial(fs, v.cells)
    case _ => if f.default.Some? then v == f.default.value else IsZeroOf(f, v)
  }

  /** Zero bytes, read as a member of this type. */
  predicate IsZeroOf(f: Field, v: Val) {
    match f.ltype
    case Bytes => v == Blob([])
    case String => v == Blob([])
    case FixedLengthBytes => v.Blob? && |v.bytes| == f.dataSize && forall k :: 0 <= k < |v.bytes| ==> v.bytes[k] == 0
    case _ => v == Num(0)
  }

  /** An unset member: has_ is false but the value is there, arrays have no items, and no member of
      a union is selected. The contents of an array without _count are left open. */
  predicate IsInitialCell(f: Field, c: Cell)
    decreases f, 1
  {
    match f.rule
    case Required => c.One? && IsInitialVal(f, c.v)
    case Singular => c.One? && IsInitialVal(f, c.v)
    case Optional => c.Opt? && !c.has && IsInitialVal(f, c.v)
    case Repeated(_) => c == Arr([])
    case FixedCount(_) => true
    case Oneof => c.Union? && c.which == 0
  }

  predicate IsInitial(fs: seq<Field>, m: Cells)
    decreases fs
  {
    forall i :: 0 <= i < |fs| ==> IsInitialCell(fs[i], At(m, fs[i].addr))
  }

  lemma DefaultIsInitial(f: Field)
    requires WellFormedField(f)
    ensures IsInitialVal(f, DefaultVal(f)) && IsInitialCell(f, DefaultCell(f))
    decreases f, 0
  {
    if f.ltype.Submessage? {
      DefaultsAreInitial(f.ltype.fields);
    }
  }

  /** Setting a struct to its defaults makes it so. */
  lemma DefaultsAreInitial(fs: seq<Field>)
    requires WellFormed(fs)
    ensures IsInitial(fs, Defaults(fs, |fs|))
    decreases fs
  {
    forall i | 0 <= i < |fs|
      ensures IsInitialCell(fs[i], At(Defaults(fs, |fs|), fs[i].addr))
    {
      DefaultIsInitial(fs[i]);
      RoundTrip.DefaultsAt(fs, |fs|, i);
    }
  }

  /** After pb_decode, a member of which the input has no record, nor one of its union, has its
      initial value. */
  lemma AbsentIsInitial(fs: seq<Field>, s: seq<byte>, i: nat)
    requires WellFormed(fs) && i < |fs| && DecodeMsg(fs, s).Some? && Records(fs, s).Some?
    requires var recs := Records(fs, s).value.0;
             forall k :: 0 <= k < |recs| && recs[k].Known? && recs[k].i < |fs| ==>
               fs[recs[k].i].addr != fs[i].addr
    ensures IsInitialCell(fs[i], At(DecodeMsg(fs, s).value.0, fs[i].addr))
  {
    hide WellFormed, Decode, Records, Fold, Complete, Defaults, IsInitialCell;
    var m := Defaults(fs, |fs|);
    DecodeIsFold(fs, m, s);
    FoldOutside(fs, Start(m), Records(fs, s).value.0, fs[i].addr);
    DefaultsAreInitial(fs);
  }
}
