/**
 All fields at once: a list of records is taken exactly when each field takes its own records, and
 leaves in each field what its own records make of it. Nothing here is said in terms of the step
 that one record makes.
 */
module AllFields {
  import opened Wrappers
  import opened Schema
  import opened Decoding
  import opened Traces
  import opened FieldRuns

  // ----- fields that share memory or the tracker -----

  /** The fields whose records the i-th field's outcome depends on: the members of its union, all
      arrays without _count, or just itself. */
  function Class(fs: seq<Field>, i: nat): set<nat>
    requires i < |fs|
  {
    if fs[i].rule.Oneof? then Members(fs, fs[i].addr)
    else if fs[i].rule.FixedCount? then FixedFields(fs)
    else {i}
  }

  lemma ClassSeparated(fs: seq<Field>, i: nat)
    requires WellFormed(fs) && i < |fs|
    ensures i in Class(fs, i) && Separated(fs, Class(fs, i))
  {
    hide WellFormed;
    if fs[i].rule.Oneof? {
      MembersSeparated(fs, fs[i].addr);
    } else if fs[i].rule.FixedCount? {
      FixedSeparated(fs);
    } else {
      SingletonSeparated(fs, i);
    }
  }

  /** Classes do not overlap. */
  lemma ClassesDisjoint(fs: seq<Field>, i: nat, j: nat)
    requires i < |fs| && j < |fs| && j !in Class(fs, i)
    ensures Class(fs, i) <= Others(fs, Class(fs, j))
  {
  }

  lemma AgreeOnPart(fs: seq<Field>, S: set<nat>, T: set<nat>, a: State, b: State)
    requires S <= T && (forall i :: i in T ==> i < |fs|) && Agree(fs, T, a, b)
    ensures Agree(fs, S, a, b)
  {
  }

  lemma {:induction false} FoldAgree(fs: seq<Field>, S: set<nat>, a: State, b: State, recs: seq<Record>)
    requires (forall i :: i in S ==> i < |fs|) && AllOf(recs, S) && Agree(fs, S, a, b)
    ensures Fold(fs, a, recs).Some? <==> Fold(fs, b, recs).Some?
    decreases |recs|
  {
    hide Apply, Agree;
    if recs != [] {
      ApplyAgree(fs, S, a, b, recs[0]);
      if Apply(fs, a, recs[0]).Some? {
        FoldAgree(fs, S, Apply(fs, a, recs[0]).value, Apply(fs, b, recs[0]).value, recs[1..]);
      }
    }
  }

  /** The records of each class fold. */
  predicate EachFolds(fs: seq<Field>, st: State, recs: seq<Record>) {
    forall i :: 0 <= i < |fs| ==> ClassFolds(fs, st, recs, i)
  }

  predicate ClassFolds(fs: seq<Field>, st: State, recs: seq<Record>, i: nat)
    requires i < |fs|
  {
    Fold(fs, st, Only(recs, Class(fs, i))).Some?
  }

  lemma OnlyCons(recs: seq<Record>, S: set<nat>)
    requires recs != []
    ensures Only(recs, S) ==
            (if recs[0].Known? && recs[0].i in S then [recs[0]] else []) + Only(recs[1..], S)
  {
  }

  /** What one record at the front does to the fold of one class. */
  lemma ClassStep(fs: seq<Field>, st: State, recs: seq<Record>, i: nat)
    requires WellFormed(fs) && i < |fs| && recs != [] && (recs[0].Known? ==> recs[0].i < |fs|)
    requires Apply(fs, st, recs[0]).Some?
    ensures ClassFolds(fs, st, recs, i) <==> ClassFolds(fs, Apply(fs, st, recs[0]).value, recs[1..], i)
  {
    hide WellFormed, Apply, Class, Agree;
    var r, rest := recs[0], recs[1..];
    var st' := Apply(fs, st, r).value;
    var C := Class(fs, i);
    OnlyCons(recs, C);
    if r.Known? && r.i in C {
      assert Only(recs, C)[1..] == Only(rest, C);
    } else {
      assert Only(recs, C) == Only(rest, C);
      if r.Unknown? {
        assert st' == st by { UnknownStays(fs, st); }
      } else {
        var D := Class(fs, r.i);
        ClassSeparated(fs, r.i);
        ClassesShare(fs, i, r.i);
        ClassesDisjoint(fs, i, r.i);
        ApplyFrame(fs, D, st, r);
        AgreeOnPart(fs, C, Others(fs, D), st, st');
        FoldAgree(fs, C, st, st', Only(rest, C));
      }
    }
  }

  lemma UnknownStays(fs: seq<Field>, st: State)
    ensures Apply(fs, st, Unknown) == Some(st)
  {
  }

  lemma ClassesShare(fs: seq<Field>, i: nat, j: nat)
    requires i < |fs| && j < |fs|
    ensures i in Class(fs, j) <==> j in Class(fs, i)
    ensures forall k :: k in Class(fs, i) ==> k < |fs|
  {
  }

  /** A list of records folds exactly when the records of each class do. */
  lemma {:induction false} FoldByClass(fs: seq<Field>, st: State, recs: seq<Record>)
    requires WellFormed(fs) && OfFields(fs, recs)
    ensures Fold(fs, st, recs).Some? <==> EachFolds(fs, st, recs)
    decreases |recs|
  {
    hide WellFormed, Apply, Class;
    if recs == [] {
      forall i | 0 <= i < |fs|
        ensures ClassFolds(fs, st, recs, i)
      {
      }
    } else {
      var r, rest := recs[0], recs[1..];
      if Apply(fs, st, r).Some? {
        var st' := Apply(fs, st, r).value;
        FoldByClass(fs, st', rest);
        forall i | 0 <= i < |fs|
          ensures ClassFolds(fs, st, recs, i) <==> ClassFolds(fs, st', rest, i)
        {
          ClassStep(fs, st, recs, i);
        }
      } else {
        StuckClass(fs, st, recs);
      }
    }
  }

  lemma StuckClass(fs: seq<Field>, st: State, recs: seq<Record>)
    requires WellFormed(fs) && OfFields(fs, recs) && recs != [] && Apply(fs, st, recs[0]).None?
    ensures !EachFolds(fs, st, recs)
  {
    hide WellFormed, Apply, Class;
    var r := recs[0];
    UnknownStays(fs, st);
    ClassSeparated(fs, r.i);
    OnlyCons(recs, Class(fs, r.i));
    assert !ClassFolds(fs, st, recs, r.i);
  }

  // ----- what each field takes and holds -----

  /** The i-th field takes its records: all items of an array decode and fit, a union is as
      UnionTakes says, and the records of any other field can be merged into what it holds. Arrays
      without _count have their groups instead. */
  predicate FieldTakes(fs: seq<Field>, m: Cells, recs: seq<Record>, i: nat)
    requires i < |fs|
  {
    var f := fs[i];
    var c := At(m, f.addr);
    if f.rule.Repeated? then
      var vs := ItemsIn(fs, Only(recs, {i}));
      vs.Some? && (vs.value != [] ==> |Items(c)| + |vs.value| <= f.rule.max)
    else if f.rule.Oneof? then UnionTakes(fs, c, Only(recs, Members(fs, f.addr)))
    else f.rule.FixedCount? || MergeAll(f, Item(c), Only(recs, {i})).Some?
  }

  /** What the i-th field then holds: an array all its items, old and new; an array without _count
      its last group; a union and any other field the merge of its records. */
  predicate FieldHolds(fs: seq<Field>, m: Cells, recs: seq<Record>, after: Cells, i: nat)
    requires i < |fs|
  {
    var f := fs[i];
    var c, d := At(m, f.addr), At(after, f.addr);
    if f.rule.Repeated? then
      var mine := Only(recs, {i});
      var vs := ItemsIn(fs, mine);
      vs.Some? && d == if mine == [] then c else Arr(Items(c) + vs.value)
    else if f.rule.Oneof? then UnionHolds(fs, c, Only(recs, Members(fs, f.addr)), d)
    else if f.rule.FixedCount? then d == LastGroup(Groups(fs, Only(recs, FixedFields(fs))), i, c)
    else PlainHolds(f, c, Only(recs, {i}), d)
  }

  /** Every group of records of an array without _count fills the array with items that decode. */
  predicate GroupsExact(fs: seq<Field>, recs: seq<Record>) {
    var fixed := Only(recs, FixedFields(fs));
    ItemsOk(fs, fixed) && Exact(fs, Groups(fs, fixed))
  }

  lemma {:induction false} OnlyOnly(recs: seq<Record>, S: set<nat>, T: set<nat>)
    requires S <= T
    ensures Only(Only(recs, T), S) == Only(recs, S)
    decreases |recs|
  {
    if recs != [] {
      OnlyOnly(recs[1..], S, T);
      OnlyCons(recs, T);
      OnlyCons(recs, S);
      if recs[0].Known? && recs[0].i in T {
        OnlyCons(Only(recs, T), S);
        assert Only(recs, T)[1..] == Only(recs[1..], T);
      }
    }
  }

  lemma {:induction false} OnlyNone(recs: seq<Record>, S: set<nat>, T: set<nat>)
    requires S !! T
    ensures Only(Only(recs, T), S) == []
    decreases |recs|
  {
    if recs != [] {
      OnlyNone(recs[1..], S, T);
      OnlyCons(recs, T);
      if recs[0].Known? && recs[0].i in T {
        OnlyCons(Only(recs, T), S);
        assert Only(recs, T)[1..] == Only(recs[1..], T);
      }
    }
  }

  lemma {:induction false} RepeatedAlone(fs: seq<Field>, i: nat, st: State, recs: seq<Record>)
    requires i < |fs| && fs[i].rule.Repeated? && AllOf(recs, {i})
    ensures var vs := ItemsIn(fs, recs);
            var c := At(st.m, fs[i].addr);
            var r := Fold(fs, st, recs);
            && (r.Some? <==> vs.Some? && (vs.value != [] ==> |Items(c)| + |vs.value| <= fs[i].rule.max))
            && (r.Some? ==> At(r.value.m, fs[i].addr) == if recs == [] then c else Arr(Items(c) + vs.value))
  {
    if recs != [] {
      FoldRepeated(fs, i, st, recs);
    }
  }

  /** The records of one field by themselves. */
  lemma ClassExact(fs: seq<Field>, st: State, recs: seq<Record>, i: nat)
    requires WellFormed(fs) && i < |fs| && !fs[i].rule.FixedCount?
    ensures ClassFolds(fs, st, recs, i) <==> FieldTakes(fs, st.m, recs, i)
    ensures ClassFolds(fs, st, recs, i) ==>
              FieldHolds(fs, st.m, recs, Fold(fs, st, Only(recs, Class(fs, i))).value.m, i)
  {
    hide WellFormed, Fold, MergeAll, ItemsIn, UnionTakes, UnionHolds, PlainHolds;
    var mine := Only(recs, Class(fs, i));
    if fs[i].rule.Repeated? {
      RepeatedAlone(fs, i, st, mine);
    } else if fs[i].rule.Oneof? {
      FoldUnion(fs, fs[i].addr, st, mine);
    } else {
      FoldPlain(fs, i, st, mine);
    }
  }

  /** After a run, the field holds what its own class of records left. */
  lemma ClassLeaves(fs: seq<Field>, st: State, recs: seq<Record>, i: nat)
    requires WellFormed(fs) && i < |fs| && !fs[i].rule.FixedCount? && OfFields(fs, recs)
    requires Fold(fs, st, recs).Some?
    ensures FieldHolds(fs, st.m, recs, Fold(fs, st, recs).value.m, i)
  {
    hide WellFormed, Fold, Class, FieldHolds;
    ClassSeparated(fs, i);
    RecordsDoNotInterfere(fs, Class(fs, i), st, recs);
    ClassExact(fs, st, recs, i);
    HoldsAt(fs, st.m, recs, Fold(fs, st, Only(recs, Class(fs, i))).value.m, Fold(fs, st, recs).value.m, i);
  }

  lemma HoldsAt(fs: seq<Field>, m: Cells, recs: seq<Record>, a: Cells, b: Cells, i: nat)
    requires i < |fs| && FieldHolds(fs, m, recs, a, i) && At(a, fs[i].addr) == At(b, fs[i].addr)
    ensures FieldHolds(fs, m, recs, b, i)
  {
  }

  /** The records of all but arrays without _count, field by field. */
  lemma OthersTaken(fs: seq<Field>, st: State, recs: seq<Record>)
    requires WellFormed(fs) && OfFields(fs, recs)
    ensures Fold(fs, st, Only(recs, Others(fs, FixedFields(fs)))).Some? <==>
            forall i :: 0 <= i < |fs| ==> FieldTakes(fs, st.m, recs, i)
  {
    hide WellFormed, Fold, FieldTakes, Class;
    var T := Others(fs, FixedFields(fs));
    var others := Only(recs, T);
    FoldByClass(fs, st, others);
    forall i | 0 <= i < |fs|
      ensures ClassFolds(fs, st, others, i) <==> FieldTakes(fs, st.m, recs, i)
    {
      OneTaken(fs, st, recs, i);
    }
  }

  lemma OneTaken(fs: seq<Field>, st: State, recs: seq<Record>, i: nat)
    requires WellFormed(fs) && i < |fs|
    ensures ClassFolds(fs, st, Only(recs, Others(fs, FixedFields(fs))), i) <==> FieldTakes(fs, st.m, recs, i)
  {
    hide WellFormed, Fold, UnionTakes, MergeAll, ItemsIn;
    var T := Others(fs, FixedFields(fs));
    if fs[i].rule.FixedCount? {
      OnlyNone(recs, FixedFields(fs), T);
      FoldNone(fs, st);
    } else {
      OnlyOnly(recs, Class(fs, i), T);
      ClassExact(fs, st, recs, i);
    }
  }

  /** Memory outside the fields is left alone. */
  lemma {:induction false} FoldOutside(fs: seq<Field>, st: State, recs: seq<Record>, a: nat)
    requires forall k :: 0 <= k < |recs| && recs[k].Known? && recs[k].i < |fs| ==> fs[recs[k].i].addr != a
    requires Fold(fs, st, recs).Some?
    ensures At(Fold(fs, st, recs).value.m, a) == At(st.m, a)
    decreases |recs|
  {
    hide Store;
    if recs != [] {
      FoldOutside(fs, Apply(fs, st, recs[0]).value, recs[1..], a);
    }
  }

  /** Exactly which lists of records are taken with the tracker satisfied, and what they leave. */
  lemma AllFieldsOverRun(fs: seq<Field>, m: Cells, recs: seq<Record>)
    requires WellFormed(fs) && OfFields(fs, recs)
    ensures var r := Fold(fs, Start(m), recs);
            && (r.Some? && ArrayComplete(fs, r.value) <==>
                && (forall i :: 0 <= i < |fs| ==> FieldTakes(fs, m, recs, i))
                && GroupsExact(fs, recs))
            && (r.Some? && ArrayComplete(fs, r.value) ==>
                forall i :: 0 <= i < |fs| ==> FieldHolds(fs, m, recs, r.value.m, i))
  {
    hide WellFormed, Fold, FieldTakes, ItemsOk, Exact, Groups, LastGroup, ArrayComplete;
    FixedOverRun(fs, m, recs);
    OthersTaken(fs, Start(m), recs);
    var r := Fold(fs, Start(m), recs);
    if r.Some? && ArrayComplete(fs, r.value) {
      forall i | 0 <= i < |fs|
        ensures FieldHolds(fs, m, recs, r.value.m, i)
      {
        if !fs[i].rule.FixedCount? {
          ClassLeaves(fs, Start(m), recs, i);
        }
      }
    }
  }
}
