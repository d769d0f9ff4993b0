/**
 Properties of whole decoder runs, seen as a list of records folded over the loop state: records
 of unrelated fields do not interfere, and so what a run leaves in an array, a union, the
 required-field set and the fixed-count tracker is a function of the records of that field, that
 union or those arrays alone.
 */
module Traces {
  import opened Wrappers
  import opened Varint
  import opened Schema
  import opened Encoding
  import opened Decoding

  // ----- runs are folds -----

  /** The records of an input up to its end or a zero tag, and the bytes left. */
  function Records(fs: seq<Field>, s: seq<byte>): Option<(seq<Record>, seq<byte>)>
    decreases |s|
  {
    if s == [] then Some(([], []))
    else match TakeRecord(fs, s)
      case Malformed => None
      case Stop(rest) => Some(([], rest))
      case Next(r, rest) =>
        var others :- Records(fs, rest);
        Some(([r] + others.0, others.1))
  }

  function Fold(fs: seq<Field>, st: State, recs: seq<Record>): Option<State>
    decreases |recs|
  {
    if recs == [] then Some(st)
    else
      var st' :- Apply(fs, st, recs[0]);
      Fold(fs, st', recs[1..])
  }

  /** A run reads all records and folds their effects. */
  lemma {:induction false} RunIsFold(fs: seq<Field>, st: State, s: seq<byte>)
    ensures Run(fs, st, s).Some? <==>
            Records(fs, s).Some? && Fold(fs, st, Records(fs, s).value.0).Some?
    ensures Run(fs, st, s).Some? ==>
              Run(fs, st, s).value == (Fold(fs, st, Records(fs, s).value.0).value, Records(fs, s).value.1)
    decreases |s|
  {
    if s != [] {
      var h := TakeRecord(fs, s);
      if h.Next? {
        var others := Records(fs, h.rest);
        if others.Some? {
          assert ([h.rec] + others.value.0)[1..] == others.value.0;
        }
        var st' := Apply(fs, st, h.rec);
        if st'.Some? {
          RunIsFold(fs, st'.value, h.rest);
        }
      }
    }
  }

  // ----- records of unrelated fields do not interfere -----

  /** The records of the fields in a set. */
  function Only(recs: seq<Record>, S: set<nat>): (r: seq<Record>)
    ensures |r| <= |recs|
    ensures forall k :: 0 <= k < |r| ==> r[k].Known? && r[k].i in S
  {
    if recs == [] then []
    else if recs[0].Known? && recs[0].i in S then [recs[0]] + Only(recs[1..], S)
    else Only(recs[1..], S)
  }

  /** Field positions outside a set. */
  function Others(fs: seq<Field>, S: set<nat>): set<nat> {
    set i: nat | i < |fs| && i !in S
  }

  /** Fields in the set share no memory with the rest, and the arrays without _count, which share
      the tracker, are all in the set or all outside. */
  predicate Separated(fs: seq<Field>, S: set<nat>) {
    && (forall i :: i in S ==> i < |fs|)
    && (forall i, j :: i in S && 0 <= j < |fs| && j !in S ==>
          fs[i].addr != fs[j].addr && !(fs[i].rule.FixedCount? && fs[j].rule.FixedCount?))
  }

  predicate HasFixed(fs: seq<Field>, S: set<nat>)
    requires forall i :: i in S ==> i < |fs|
  {
    exists i :: i in S && fs[i].rule.FixedCount?
  }

  /** The states agree on what the fields of the set read and write. */
  predicate Agree(fs: seq<Field>, S: set<nat>, a: State, b: State)
    requires forall i :: i in S ==> i < |fs|
  {
    && (forall i :: i in S ==> At(a.m, fs[i].addr) == At(b.m, fs[i].addr))
    && (HasFixed(fs, S) ==> a.open == b.open && a.filled == b.filled)
  }

  /** A record of a field in the set acts the same on states that agree on the set. */
  lemma ApplyAgree(fs: seq<Field>, S: set<nat>, a: State, b: State, r: Record)
    requires forall i :: i in S ==> i < |fs|
    requires r.Known? && r.i in S && Agree(fs, S, a, b)
    ensures Apply(fs, a, r).Some? <==> Apply(fs, b, r).Some?
    ensures Apply(fs, a, r).Some? ==> Agree(fs, S, Apply(fs, a, r).value, Apply(fs, b, r).value)
  {
    var f := fs[r.i];
    if f.rule.FixedCount? {
      assert HasFixed(fs, S);
    } else {
      var c := At(a.m, f.addr);
      StoreIgnoresFilled(f, c, a.filled, b.filled, r.p);
    }
  }

  /** Only arrays without _count look at the tracker. */
  lemma StoreIgnoresFilled(f: Field, c: Cell, k: nat, l: nat, p: Payload)
    requires !f.rule.FixedCount?
    ensures Store(f, c, k, p) == Store(f, c, l, p)
  {
  }

  /** A record of a field in the set leaves everything else alone. */
  lemma ApplyFrame(fs: seq<Field>, S: set<nat>, st: State, r: Record)
    requires Separated(fs, S) && (r.Known? ==> r.i in S)
    requires Apply(fs, st, r).Some?
    ensures Agree(fs, Others(fs, S), st, Apply(fs, st, r).value)
  {
    var T := Others(fs, S);
    var st' := Apply(fs, st, r).value;
    if r.Known? {
      var f := fs[r.i];
      if HasFixed(fs, T) {
        var j :| j in T && fs[j].rule.FixedCount?;
        assert !f.rule.FixedCount?;
      }
    }
  }

  lemma OthersSeparated(fs: seq<Field>, S: set<nat>)
    requires Separated(fs, S)
    ensures Separated(fs, Others(fs, S))
    ensures Others(fs, Others(fs, S)) == S
  {
    var T := Others(fs, S);
    forall i, j | i in T && 0 <= j < |fs| && j !in T
      ensures fs[i].addr != fs[j].addr && !(fs[i].rule.FixedCount? && fs[j].rule.FixedCount?)
    {
      assert j in S;
    }
  }

  lemma AgreeTransitive(fs: seq<Field>, S: set<nat>, a: State, b: State, c: State)
    requires forall i :: i in S ==> i < |fs|
    requires Agree(fs, S, a, b) && Agree(fs, S, a, c)
    ensures Agree(fs, S, b, c)
  {
  }

  lemma {:induction false} FoldSplit(fs: seq<Field>, S: set<nat>, st: State, a: State, b: State, recs: seq<Record>)
    requires Separated(fs, S)
    requires Agree(fs, S, st, a) && Agree(fs, Others(fs, S), st, b)
    requires forall k :: 0 <= k < |recs| && recs[k].Known? ==> recs[k].i < |fs|
    ensures Fold(fs, st, recs).Some? <==>
            Fold(fs, a, Only(recs, S)).Some? && Fold(fs, b, Only(recs, Others(fs, S))).Some?
    ensures Fold(fs, st, recs).Some? ==>
              && Agree(fs, S, Fold(fs, st, recs).value, Fold(fs, a, Only(recs, S)).value)
              && Agree(fs, Others(fs, S), Fold(fs, st, recs).value, Fold(fs, b, Only(recs, Others(fs, S))).value)
    decreases |recs|
  {
    if recs != [] {
      var T := Others(fs, S);
      var r, rest := recs[0], recs[1..];
      OthersSeparated(fs, S);
      if r.Unknown? {
        FoldSplit(fs, S, st, a, b, rest);
      } else if r.i in S {
        ApplyAgree(fs, S, st, a, r);
        assert Only(recs, S)[1..] == Only(rest, S);
        assert Only(recs, T) == Only(rest, T);
        if Apply(fs, st, r).Some? {
          ApplyFrame(fs, S, st, r);
          AgreeTransitive(fs, T, st, Apply(fs, st, r).value, b);
          FoldSplit(fs, S, Apply(fs, st, r).value, Apply(fs, a, r).value, b, rest);
        }
      } else {
        assert r.i in T;
        ApplyAgree(fs, T, st, b, r);
        assert Only(recs, T)[1..] == Only(rest, T);
        assert Only(recs, S) == Only(rest, S);
        if Apply(fs, st, r).Some? {
          ApplyFrame(fs, T, st, r);
          AgreeTransitive(fs, S, st, Apply(fs, st, r).value, a);
          FoldSplit(fs, S, Apply(fs, st, r).value, a, Apply(fs, b, r).value, rest);
        }
      }
    }
  }

  /** However the records of two separated sets of fields are interleaved, the run succeeds
      exactly when the records of each set alone succeed, and each set's part of the struct is
      what its own records alone make of it. */
  lemma RecordsDoNotInterfere(fs: seq<Field>, S: set<nat>, st: State, recs: seq<Record>)
    requires Separated(fs, S)
    requires forall k :: 0 <= k < |recs| && recs[k].Known? ==> recs[k].i < |fs|
    ensures Fold(fs, st, recs).Some? <==>
            Fold(fs, st, Only(recs, S)).Some? && Fold(fs, st, Only(recs, Others(fs, S))).Some?
    ensures Fold(fs, st, recs).Some? ==>
              && Agree(fs, S, Fold(fs, st, recs).value, Fold(fs, st, Only(recs, S)).value)
              && Agree(fs, Others(fs, S), Fold(fs, st, recs).value, Fold(fs, st, Only(recs, Others(fs, S))).value)
  {
    FoldSplit(fs, S, st, st, st, recs);
  }
}
