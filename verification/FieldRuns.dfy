/**
 What a whole run leaves behind for one field: repeated fields, oneofs, fields with one item,
 REQUIRED fields and arrays without _count. Each result is stated for arbitrary record lists, with the records of
 other fields anywhere in between.
 */
module FieldRuns {
  import opened Wrappers
  import opened Varint
  import opened Schema
  import opened Encoding
  import opened Decoding
  import opened RoundTrip
  import opened Runs
  import opened Traces

  predicate OfFields(fs: seq<Field>, recs: seq<Record>) {
    forall k :: 0 <= k < |recs| && recs[k].Known? ==> recs[k].i < |fs|
  }

  /** All records belong to fields of the set. */
  predicate AllOf(recs: seq<Record>, S: set<nat>) {
    forall k :: 0 <= k < |recs| ==> recs[k].Known? && recs[k].i in S
  }

  // ----- repeated fields -----

  /** The items that the records of one array carry, in order; none if some body is bad. */
  function ItemsIn(fs: seq<Field>, recs: seq<Record>): Option<seq<Val>> {
    if recs == [] then Some([])
    else if recs[0].Unknown? || recs[0].i >= |fs| then None
    else
      var vs :- NewItems(fs[recs[0].i], recs[0].p);
      var others :- ItemsIn(fs, recs[1..]);
      Some(vs + others)
  }

  /** The state with more items at the end of an array, if they fit. */
  function Extend(f: Field, st: State, vs: Option<seq<Val>>): Option<State>
    requires f.rule.Repeated?
  {
    var was := Items(At(st.m, f.addr));
    if vs.Some? && (vs.value == [] || |was| + |vs.value| <= f.rule.max)
    then Some(st.(m := st.m[f.addr := Arr(was + vs.value)])) else None
  }

  lemma ApplyRepeated(fs: seq<Field>, st: State, r: Record)
    requires r.Known? && r.i < |fs| && fs[r.i].rule.Repeated?
    ensures Apply(fs, st, r) == Extend(fs[r.i], st, NewItems(fs[r.i], r.p))
  {
  }

  lemma ExtendTwice(f: Field, st: State, a: seq<Val>, b: Option<seq<Val>>)
    requires f.rule.Repeated?
    ensures var st1 := Extend(f, st, Some(a));
            var ab := if b.Some? then Some(a + b.value) else None;
            st1.Some? ==> Extend(f, st1.value, b) == Extend(f, st, ab)
    ensures Extend(f, st, Some(a)).None? && b.Some? ==> Extend(f, st, Some(a + b.value)).None?
  {
    var was := Items(At(st.m, f.addr));
    if b.Some? {
      assert was + a + b.value == was + (a + b.value);
      UpdateTwice(st.m, f.addr, Arr(was + a), Arr(was + a + b.value));
    }
  }

  lemma UpdateTwice(m: Cells, a: nat, c: Cell, d: Cell)
    ensures m[a := c][a := d] == m[a := d]
  {
  }

  lemma {:induction false} FoldRepeated(fs: seq<Field>, i: nat, st: State, recs: seq<Record>)
    requires i < |fs| && fs[i].rule.Repeated? && AllOf(recs, {i}) && recs != []
    ensures Fold(fs, st, recs) == Extend(fs[i], st, ItemsIn(fs, recs))
    decreases |recs|
  {
    var f := fs[i];
    var r, rest := recs[0], recs[1..];
    assert r.i == i;
    var vs := NewItems(f, r.p);
    ApplyRepeated(fs, st, r);
    if rest == [] {
      assert ItemsIn(fs, rest) == Some([]);
      if vs.Some? { assert vs.value + [] == vs.value; }
    } else if vs.Some? {
      ExtendTwice(f, st, vs.value, ItemsIn(fs, rest));
      if Apply(fs, st, r).Some? {
        FoldRepeated(fs, i, Apply(fs, st, r).value, rest);
      }
    }
  }

  lemma SingletonSeparated(fs: seq<Field>, i: nat)
    requires WellFormed(fs) && i < |fs| && !fs[i].rule.Oneof? && !fs[i].rule.FixedCount?
    ensures Separated(fs, {i})
  {
  }

  /** Repeated fields over whole runs. However the items come in (packed, one by one, or mixed,
      with other records in between), the run succeeds exactly when the other records succeed by
      themselves, every item decodes, and all items fit the array; the array then holds the old
      items followed by all new ones in order. */
  lemma RepeatedOverRun(fs: seq<Field>, i: nat, st: State, recs: seq<Record>)
    requires WellFormed(fs) && i < |fs| && fs[i].rule.Repeated? && OfFields(fs, recs)
    ensures var mine := Only(recs, {i});
            var vs := ItemsIn(fs, mine);
            var was := Items(At(st.m, fs[i].addr));
            && (Fold(fs, st, recs).Some? <==>
                && Fold(fs, st, Only(recs, Others(fs, {i}))).Some?
                && vs.Some? && (vs.value != [] ==> |was| + |vs.value| <= fs[i].rule.max))
            && (Fold(fs, st, recs).Some? ==>
                Items(At(Fold(fs, st, recs).value.m, fs[i].addr)) == was + vs.value)
  {
    SingletonSeparated(fs, i);
    RecordsDoNotInterfere(fs, {i}, st, recs);
    var mine := Only(recs, {i});
    if mine != [] {
      FoldRepeated(fs, i, st, mine);
    }
  }

  /** One chunk of an encoded list: a packed record with several items or a record with one. */
  datatype Chunk = Packed(vs: seq<Val>) | Single(v: Val)

  function ChunkItems(cs: seq<Chunk>): seq<Val> {
    if cs == [] then [] else (if cs[0].Packed? then cs[0].vs else [cs[0].v]) + ChunkItems(cs[1..])
  }

  function ChunkBytes(f: Field, c: Chunk): Option<seq<byte>> {
    match c
    case Packed(vs) =>
      var body :- EncodePacked(f, vs);
      Some(TagBytes(WT_STRING, f.tag) + WithLength(body))
    case Single(v) => EncodeRecord(f, v)
  }

  function ChunksBytes(f: Field, cs: seq<Chunk>): Option<seq<byte>> {
    if cs == [] then Some([])
    else
      var first :- ChunkBytes(f, cs[0]);
      var others :- ChunksBytes(f, cs[1..]);
      Some(first + others)
  }

  /** Items of the field's type, and a packed length the decoder can read. */
  ghost predicate ChunkOk(f: Field, c: Chunk) {
    match c
    case Packed(vs) =>
      && (forall k :: 0 <= k < |vs| ==> TypedVal(f, vs[k]))
      && EncodePacked(f, vs).Some? && |EncodePacked(f, vs).value| < TWO32
    case Single(v) => TypedVal(f, v) && EncodeRecord(f, v).Some? && |EncodeRecord(f, v).value| < TWO63
  }

  lemma RunChunk(fs: seq<Field>, i: nat, st: State, c: Chunk, t: seq<byte>)
    requires WellFormed(fs) && i < |fs| && (fs[i].rule.Repeated? || fs[i].rule.FixedCount?) && fs[i].ltype.Packable()
    requires ChunkOk(fs[i], c)
    ensures ChunkBytes(fs[i], c).Some?
    ensures Run(fs, st, ChunkBytes(fs[i], c).value + t) ==
            RunItems(fs, i, st, ChunkItems([c]), t)
  {
    var f := fs[i];
    assert WellFormedField(f);
    assert ChunkItems([c]) == if c.Packed? then c.vs else [c.v];
    match c
    case Packed(vs) =>
      var body := EncodePacked(f, vs).value;
      assert ChunkBytes(f, c).value + t == TagBytes(WT_STRING, f.tag) + (WithLength(body) + t);
      RunTagged(fs, i, st, WT_STRING, WithLength(body) + t);
      TakeLength(body, t);
      TakeAllOfEncode(f, vs);
      assert NormalItems(f, vs) == vs;
    case Single(v) =>
      RunItem(fs, i, st, v, t);
  }

  /** The run after one record with all the given items. */
  function RunItems(fs: seq<Field>, i: nat, st: State, vs: seq<Val>, t: seq<byte>): Option<(State, seq<byte>)> {
    RunAfter(fs, Apply(fs, st, Known(i, Vals(vs))), t)
  }

  function RunItemsOn(fs: seq<Field>, i: nat, st: Option<State>, vs: seq<Val>, t: seq<byte>): Option<(State,
      seq<byte>)> {
    if st.None? then None else RunItems(fs, i, st.value, vs, t)
  }

  lemma RunItemsSplit(fs: seq<Field>, i: nat, st: State, a: seq<Val>, b: seq<Val>, t: seq<byte>)
    requires i < |fs| && (fs[i].rule.Repeated? || fs[i].rule.FixedCount?)
    ensures RunItems(fs, i, st, a + b, t) == RunItemsOn(fs, i, Apply(fs, st, Known(i, Vals(a))), b, t)
  {
    ApplySplit(fs, i, st, a, b);
  }

  lemma {:induction false} ChunksEncode(f: Field, cs: seq<Chunk>)
    requires forall k :: 0 <= k < |cs| ==> ChunkOk(f, cs[k])
    ensures ChunksBytes(f, cs).Some?
    ensures cs != [] ==>
              && ChunkBytes(f, cs[0]).Some? && ChunksBytes(f, cs[1..]).Some?
              && ChunksBytes(f, cs).value == ChunkBytes(f, cs[0]).value + ChunksBytes(f, cs[1..]).value
    decreases |cs|
  {
    hide EncodePacked, EncodeRecord, TypedVal;
    if cs != [] {
      assert ChunkOk(f, cs[0]);
      ChunksEncode(f, cs[1..]);
    }
  }

  /** Packed and unpacked are equivalent: any way of cutting a list of numbers into packed and
      single records is decoded as one record with the whole list. */
  lemma {:induction false} ChunkingDoesNotMatter(fs: seq<Field>, i: nat, st: State, cs: seq<Chunk>, t: seq<byte>)
    requires WellFormed(fs) && i < |fs| && (fs[i].rule.Repeated? || fs[i].rule.FixedCount?) && fs[i].ltype.Packable()
    requires cs != [] && forall k :: 0 <= k < |cs| ==> ChunkOk(fs[i], cs[k])
    ensures ChunksBytes(fs[i], cs).Some?
    ensures Run(fs, st, ChunksBytes(fs[i], cs).value + t) == RunItems(fs, i, st, ChunkItems(cs), t)
    decreases |cs|
  {
    hide WellFormed, ChunkBytes, ChunkOk, Run, Apply, ChunkItems;
    var f := fs[i];
    ChunksEncode(f, cs);
    var first := ChunkBytes(f, cs[0]).value;
    var others := ChunksBytes(f, cs[1..]).value;
    assert ChunksBytes(f, cs).value + t == first + (others + t);
    RunChunk(fs, i, st, cs[0], others + t);
    if |cs| == 1 {
      assert cs == [cs[0]];
      assert others + t == t;
    } else {
      var a, b := ChunkItems([cs[0]]), ChunkItems(cs[1..]);
      ChunkItemsCons(cs);
      RunItemsSplit(fs, i, st, a, b, t);
      var st1 := Apply(fs, st, Known(i, Vals(a)));
      if st1.Some? {
        ChunkingDoesNotMatter(fs, i, st1.value, cs[1..], t);
      }
    }
  }

  lemma ChunkItemsCons(cs: seq<Chunk>)
    requires cs != []
    ensures ChunkItems(cs) == ChunkItems([cs[0]]) + ChunkItems(cs[1..])
  {
    assert [cs[0]][1..] == [];
  }

  // ----- oneofs -----

  predicate SameField(r: Record, q: Record) {
    r.Known? && q.Known? && r.i == q.i
  }

  /** Length of the longest run of records at the end that belong to one field. */
  function TailLength(recs: seq<Record>): (k: nat)
    requires recs != []
    ensures 1 <= k <= |recs|
    decreases |recs|
  {
    var n := |recs| - 1;
    if n == 0 || !SameField(recs[n - 1], recs[n]) then 1 else 1 + TailLength(recs[..n])
  }

  function Tail(recs: seq<Record>): (t: seq<Record>)
    requires recs != []
    ensures 1 <= |t| <= |recs|
  {
    recs[|recs| - TailLength(recs)..]
  }

  /** Tail is what it is called: one field throughout, and not extendable to the left. */
  lemma {:induction false} TailIsMaximal(recs: seq<Record>)
    requires recs != []
    ensures var n, k := |recs|, TailLength(recs);
            && (forall j :: n - k <= j < n - 1 ==> SameField(recs[j], recs[n - 1]))
            && (k < n ==> !SameField(recs[n - k - 1], recs[n - 1]))
    decreases |recs|
  {
    var n := |recs| - 1;
    if n > 0 && SameField(recs[n - 1], recs[n]) {
      TailIsMaximal(recs[..n]);
    }
  }

  /** Merging the payloads of several records of one field into an item, first to last. */
  function MergeAll(f: Field, v: Val, recs: seq<Record>): Option<Val>
    decreases |recs|
  {
    if recs == [] then Some(v)
    else
      var n := |recs| - 1;
      var v' :- MergeAll(f, v, recs[..n]);
      if recs[n].Unknown? then None else Replace(f, v', recs[n].p)
  }

  /** The members of the union at an offset. */
  function Members(fs: seq<Field>, addr: nat): set<nat> {
    set i: nat | i < |fs| && fs[i].addr == addr && fs[i].rule.Oneof?
  }

  /** Some field has this number. */
  predicate TagKnown(fs: seq<Field>, tag: nat) {
    exists j :: 0 <= j < |fs| && fs[j].tag == tag
  }

  /** What the last run of records of one member starts from: what is there, if that member was
      already selected and no other came in between; the defaults otherwise. */
  function UnionBase(f: Field, c: Cell, switched: bool): Val {
    if !switched && Which(c) == f.tag then Item(c) else DefaultVal(f)
  }

  lemma ApplyUnion(fs: seq<Field>, st: State, r: Record)
    requires r.Known? && r.i < |fs| && fs[r.i].rule.Oneof?
    ensures var f := fs[r.i];
            var c := At(st.m, f.addr);
            var v := Replace(f, UnionBase(f, c, false), r.p);
            && (Apply(fs, st, r).Some? <==> v.Some? && (Which(c) == 0 || TagKnown(fs, Which(c))))
            && (Apply(fs, st, r).Some? ==> Apply(fs, st, r).value.m == st.m[f.addr := Union(f.tag, v.value)])
  {
    var f := fs[r.i];
    var c := At(st.m, f.addr);
    if !f.ltype.Submessage? || r.p.Vals? {
      ReplaceNumber(f, UnionBase(f, c, false), Item(c), r.p);
    }
    var was := if f.ltype.Submessage? && Which(c) != f.tag then DefaultVal(f) else Item(c);
    assert Replace(f, was, r.p) == Replace(f, UnionBase(f, c, false), r.p);
    assert Store(f, c, st.filled, r.p).Some? <==> Replace(f, was, r.p).Some?;
    assert UnionTagOk(fs, f, Which(c)) <==> Which(c) == 0 || TagKnown(fs, Which(c));
  }

  /** Only submessages look at what was there. */
  lemma ReplaceNumber(f: Field, v: Val, w: Val, p: Payload)
    requires !f.ltype.Submessage? || p.Vals?
    ensures Replace(f, v, p) == Replace(f, w, p)
  {
  }

  lemma {:induction false} FoldSnoc(fs: seq<Field>, st: State, recs: seq<Record>)
    requires recs != []
    ensures var before := Fold(fs, st, recs[..|recs| - 1]);
            Fold(fs, st, recs) == if before.None? then None else Apply(fs, before.value, recs[|recs| - 1])
    decreases |recs|
  {
    var n := |recs| - 1;
    if n == 0 {
      var st1 := Apply(fs, st, recs[0]);
      if st1.Some? { assert Fold(fs, st1.value, recs[1..]) == st1; }
    } else {
      var st1 := Apply(fs, st, recs[0]);
      assert recs[..n][1..] == recs[1..][..n - 1];
      if st1.Some? {
        FoldSnoc(fs, st1.value, recs[1..]);
      }
    }
  }

  lemma MergeSnoc(f: Field, v: Val, t: seq<Record>, r: Record)
    requires r.Known?
    ensures MergeAll(f, v, t + [r]) ==
            if MergeAll(f, v, t).None? then None else Replace(f, MergeAll(f, v, t).value, r.p)
  {
    assert (t + [r])[..|t|] == t;
  }

  /** The item of the member selected last: the merge of its records since the last switch. */
  function MemberMerge(fs: seq<Field>, before: Cell, recs: seq<Record>): Option<Val>
    requires recs != [] && recs[|recs| - 1].Known? && recs[|recs| - 1].i < |fs|
  {
    var f := fs[recs[|recs| - 1].i];
    MergeAll(f, UnionBase(f, before, Tail(recs) != recs), Tail(recs))
  }

  /** What records of the members of one union make of its cell. */
  predicate UnionHolds(fs: seq<Field>, before: Cell, recs: seq<Record>, after: Cell)
    requires recs != [] ==> recs[|recs| - 1].Known? && recs[|recs| - 1].i < |fs|
  {
    if recs == [] then after == before
    else
      var v := MemberMerge(fs, before, recs);
      v.Some? && after == Union(fs[recs[|recs| - 1].i].tag, v.value)
  }

  /** Records a union takes: the number in which_ before the first one is zero or that of a field,
      and each record can be merged into what the ones before it left of its member. */
  predicate UnionTakes(fs: seq<Field>, before: Cell, recs: seq<Record>)
    requires forall k :: 0 <= k < |recs| ==> recs[k].Known? && recs[k].i < |fs|
  {
    && (recs != [] ==> Which(before) == 0 || TagKnown(fs, Which(before)))
    && forall k :: 0 < k <= |recs| ==> MemberMerge(fs, before, recs[..k]).Some?
  }

  lemma UnionTakesSnoc(fs: seq<Field>, before: Cell, recs: seq<Record>)
    requires recs != [] && forall k :: 0 <= k < |recs| ==> recs[k].Known? && recs[k].i < |fs|
    ensures UnionTakes(fs, before, recs) <==>
            && UnionTakes(fs, before, recs[..|recs| - 1])
            && (Which(before) == 0 || TagKnown(fs, Which(before)))
            && MemberMerge(fs, before, recs).Some?
  {
    hide MemberMerge;
    var n := |recs| - 1;
    assert recs[..n + 1] == recs;
    assert forall k :: 0 < k <= n ==> recs[..n][..k] == recs[..k];
  }

  lemma TailSnoc(recs: seq<Record>, r: Record)
    ensures Tail(recs + [r]) ==
            if recs != [] && SameField(recs[|recs| - 1], r) then Tail(recs) + [r] else [r]
    ensures recs != [] && SameField(recs[|recs| - 1], r) ==> (Tail(recs + [r]) == recs + [r] <==> Tail(recs) == recs)
  {
    var all := recs + [r];
    assert all[..|recs|] == recs;
    if recs != [] && SameField(recs[|recs| - 1], r) {
      var k := TailLength(recs);
      assert TailLength(all) == 1 + k;
      assert all[|recs| - k..] == recs[|recs| - k..] + [r];
      if k == |recs| {
        assert recs[0..] == recs;
      }
    }
  }

  /** The merge of the current member's records grows by one replacement: over what is there when
      the member stays the same, over the defaults when it changes. */
  lemma MemberMergeSnoc(fs: seq<Field>, before: Cell, recs: seq<Record>, mid: Cell, r: Record, all: seq<Record>)
    requires r.Known? && r.i < |fs| && WellFormed(fs)
    requires recs != [] ==> recs[|recs| - 1].Known? && recs[|recs| - 1].i < |fs|
    requires UnionHolds(fs, before, recs, mid)
    requires all == recs + [r]
    ensures all[|all| - 1] == r
    ensures MemberMerge(fs, before, all) == Replace(fs[r.i], UnionBase(fs[r.i], mid, false), r.p)
  {
    hide MergeAll, Replace, DefaultVal, WellFormed, Tail;
    TailSnoc(recs, r);
    if recs == [] {
      FirstBase(fs, before, mid, r);
    } else if SameField(recs[|recs| - 1], r) {
      MergeSnoc(fs[r.i], UnionBase(fs[r.i], before, Tail(recs) != recs), Tail(recs), r);
    } else {
      SwitchedBase(fs, before, recs, mid, r);
    }
  }

  lemma FirstBase(fs: seq<Field>, before: Cell, mid: Cell, r: Record)
    requires r.Known? && r.i < |fs| && UnionHolds(fs, before, [], mid)
    ensures MergeAll(fs[r.i], UnionBase(fs[r.i], before, false), [r]) ==
            Replace(fs[r.i], UnionBase(fs[r.i], mid, false), r.p)
    ensures [] + [r] == [r] && Tail([r]) == [r]
  {
    hide Replace, MergeAll, UnionBase;
    assert [] + [r] == [r];
    assert mid == before;
    MergeNone(fs[r.i], UnionBase(fs[r.i], before, false));
    MergeSnoc(fs[r.i], UnionBase(fs[r.i], before, false), [], r);
  }

  lemma MergeNone(f: Field, v: Val)
    ensures MergeAll(f, v, []) == Some(v)
  {
  }

  /** After a switch, the new member starts from its defaults. */
  lemma SwitchedBase(fs: seq<Field>, before: Cell, recs: seq<Record>, mid: Cell, r: Record)
    requires WellFormed(fs) && r.Known? && r.i < |fs| && recs != []
    requires recs[|recs| - 1].Known? && recs[|recs| - 1].i < |fs| && !SameField(recs[|recs| - 1], r)
    requires UnionHolds(fs, before, recs, mid)
    ensures UnionBase(fs[r.i], mid, false) == DefaultVal(fs[r.i])
    ensures MergeAll(fs[r.i], DefaultVal(fs[r.i]), [r]) == Replace(fs[r.i], DefaultVal(fs[r.i]), r.p)
    ensures [r] != recs + [r]
  {
    hide Replace, MergeAll, DefaultVal;
    assert [] + [r] == [r];
    MergeNone(fs[r.i], DefaultVal(fs[r.i]));
    MergeSnoc(fs[r.i], DefaultVal(fs[r.i]), [], r);
    var j := recs[|recs| - 1].i;
    assert fs[j].tag != fs[r.i].tag by {
      if j < r.i {
      } else {
      }
    }
  }

  lemma {:induction false} FoldUnion(fs: seq<Field>, addr: nat, st: State, recs: seq<Record>)
    requires WellFormed(fs) && AllOf(recs, Members(fs, addr))
    ensures Fold(fs, st, recs).Some? <==> UnionTakes(fs, At(st.m, addr), recs)
    ensures Fold(fs, st, recs).Some? ==> UnionHolds(fs, At(st.m, addr), recs, At(Fold(fs, st, recs).value.m, addr))
    decreases |recs|
  {
    hide Apply, MemberMerge, Replace, UnionBase, WellFormed, Fold;
    if recs == [] {
      FoldNone(fs, st);
    } else {
      var n := |recs| - 1;
      var before, r := recs[..n], recs[n];
      assert recs == before + [r];
      assert AllOf(before, Members(fs, addr));
      FoldSnoc(fs, st, recs);
      FoldUnion(fs, addr, st, before);
      UnionTakesSnoc(fs, At(st.m, addr), recs);
      if Fold(fs, st, before).Some? {
        var st1 := Fold(fs, st, before).value;
        ApplyUnion(fs, st1, r);
        MemberMergeSnoc(fs, At(st.m, addr), before, At(st1.m, addr), r, recs);
      }
    }
  }

  lemma FoldNone(fs: seq<Field>, st: State)
    ensures Fold(fs, st, []) == Some(st)
  {
  }

  lemma MembersSeparated(fs: seq<Field>, addr: nat)
    requires WellFormed(fs)
    ensures Separated(fs, Members(fs, addr))
  {
  }

  /** Oneofs over whole runs. The run succeeds exactly when the other records do and the union takes
      its own. The which_ member is then the number of the last oneof record (unchanged if there
      was none), and the union holds the merge of exactly the records of that member since the
      last switch, from the defaults if there was a switch. For a member that is not a submessage
      the merge is the last record's value. */
  lemma UnionOverRun(fs: seq<Field>, i: nat, st: State, recs: seq<Record>)
    requires WellFormed(fs) && i < |fs| && fs[i].rule.Oneof? && OfFields(fs, recs)
    ensures var addr := fs[i].addr;
            var U := Members(fs, addr);
            var mine := Only(recs, U);
            && (Fold(fs, st, recs).Some? <==>
                Fold(fs, st, Only(recs, Others(fs, U))).Some? && UnionTakes(fs, At(st.m, addr), mine))
            && (Fold(fs, st, recs).Some? ==>
                UnionHolds(fs, At(st.m, addr), mine, At(Fold(fs, st, recs).value.m, addr)))
  {
    hide WellFormed, Fold, UnionTakes, UnionHolds;
    var addr := fs[i].addr;
    var U := Members(fs, addr);
    MembersSeparated(fs, addr);
    RecordsDoNotInterfere(fs, U, st, recs);
    assert i in U;
    FoldUnion(fs, addr, st, Only(recs, U));
  }

  /** Merging numbers, strings and bytes keeps the last one. */
  lemma MergeKeepsLast(f: Field, v: Val, recs: seq<Record>)
    requires recs != [] && !f.ltype.Submessage? && MergeAll(f, v, recs).Some?
    ensures var last := recs[|recs| - 1];
            last.Known? && last.p == Vals([MergeAll(f, v, recs).value])
  {
    var n := |recs| - 1;
    var v' := MergeAll(f, v, recs[..n]).value;
    assert Replace(f, v', recs[n].p).Some?;
    assert recs[n].p.Vals? && recs[n].p.vs == [recs[n].p.vs[0]];
  }

  function Bodies(recs: seq<Record>): seq<byte>
    decreases |recs|
  {
    if recs == [] then []
    else
      var n := |recs| - 1;
      Bodies(recs[..n]) + if recs[n].Known? && recs[n].p.Body? then recs[n].p.bytes else []
  }

  /** Merging submessage records is decoding their bodies as one. */
  lemma {:induction false} MergeIsConcatenation(f: Field, v: Val, recs: seq<Record>)
    requires f.ltype.Submessage? && Stateless(f.ltype.fields) && (v.Msg? || recs != [])
    requires forall k :: 0 <= k < |recs| ==>
               recs[k].Known? && recs[k].p.Body? && Clean(f.ltype.fields, recs[k].p.bytes)
    ensures MergeAll(f, v, recs) == Replace(f, v, Body(Bodies(recs)))
    ensures Clean(f.ltype.fields, Bodies(recs))
    decreases |recs|
  {
    hide Replace, Clean, Stateless;
    var fs := f.ltype.fields;
    if recs == [] {
      NothingMerges(f, v);
    } else {
      var n := |recs| - 1;
      var before := Bodies(recs[..n]);
      if n == 0 {
        assert recs[..0] == [];
        assert Bodies(recs) == [] + recs[0].p.bytes == recs[0].p.bytes;
      } else {
        MergeIsConcatenation(f, v, recs[..n]);
        SplitSubmessageMerges(f, v, before, recs[n].p.bytes);
        CleanAppend(fs, before, recs[n].p.bytes);
      }
    }
  }

  lemma NothingMerges(f: Field, v: Val)
    requires f.ltype.Submessage? && Stateless(f.ltype.fields) && v.Msg?
    ensures Replace(f, v, Body([])) == Some(v) && Clean(f.ltype.fields, [])
  {
    var fs := f.ltype.fields;
    NoRequired(fs, |fs|);
    assert Run(fs, Start(v.cells), []) == Some((Start(v.cells), []));
  }

  /** So it is for types with REQUIRED fields when every body is a complete message. */
  lemma {:induction false} MergeOfCompleteMessages(f: Field, v: Val, recs: seq<Record>)
    requires f.ltype.Submessage? && NoFixed(f.ltype.fields) && recs != []
    requires forall k :: 0 <= k < |recs| ==>
               recs[k].Known? && recs[k].p.Body? && Clean(f.ltype.fields, recs[k].p.bytes)
    requires MergeAll(f, v, recs).Some?
    ensures MergeAll(f, v, recs) == Replace(f, v, Body(Bodies(recs)))
    ensures Clean(f.ltype.fields, Bodies(recs))
    decreases |recs|
  {
    hide Decode, Clean;
    var fs := f.ltype.fields;
    var n := |recs| - 1;
    if n == 0 {
      assert recs[..0] == [];
      assert Bodies(recs) == [] + recs[0].p.bytes == recs[0].p.bytes;
      assert MergeAll(f, v, []) == Some(v);
    } else {
      var before := Bodies(recs[..n]);
      MergeOfCompleteMessages(f, v, recs[..n]);
      CompleteMessagesMerge(fs, SubCells(v), before, recs[n].p.bytes);
      CleanAppend(fs, before, recs[n].p.bytes);
    }
  }

  lemma {:induction false} CleanAppend(fs: seq<Field>, a: seq<byte>, b: seq<byte>)
    requires Clean(fs, a) && Clean(fs, b)
    ensures Clean(fs, a + b)
    decreases |a|
  {
    if a == [] {
      assert a + b == b;
    } else {
      TakeRecordExtends(fs, a, b);
      CleanAppend(fs, TakeRecord(fs, a).rest, b);
    }
  }

  // ----- fields with one item -----

  /** The cell of a field once an item of it was read: has_ is set where there is one. */
  function PlainCell(f: Field, v: Val): Cell {
    if f.rule.Optional? then Opt(true, v) else One(v)
  }

  predicate IsPlain(f: Field) {
    f.rule.Required? || f.rule.Optional? || f.rule.Singular?
  }

  /** What the records of a field with one item make of its cell: nothing if there are none, and
      otherwise the merge of all of them into what was there. */
  predicate PlainHolds(f: Field, before: Cell, recs: seq<Record>, after: Cell) {
    var v := MergeAll(f, Item(before), recs);
    v.Some? && after == if recs == [] then before else PlainCell(f, v.value)
  }

  lemma ApplyPlain(fs: seq<Field>, st: State, r: Record)
    requires r.Known? && r.i < |fs| && IsPlain(fs[r.i])
    ensures var f := fs[r.i];
            var v := Replace(f, Item(At(st.m, f.addr)), r.p);
            && (Apply(fs, st, r).Some? <==> v.Some?)
            && (v.Some? ==> Apply(fs, st, r).value.m == st.m[f.addr := PlainCell(f, v.value)])
  {
  }

  lemma {:induction false} FoldPlain(fs: seq<Field>, i: nat, st: State, recs: seq<Record>)
    requires i < |fs| && IsPlain(fs[i]) && AllOf(recs, {i})
    ensures Fold(fs, st, recs).Some? <==> MergeAll(fs[i], Item(At(st.m, fs[i].addr)), recs).Some?
    ensures Fold(fs, st, recs).Some? ==>
              PlainHolds(fs[i], At(st.m, fs[i].addr), recs, At(Fold(fs, st, recs).value.m, fs[i].addr))
    decreases |recs|
  {
    hide Apply, Replace, Fold, MergeAll;
    var f := fs[i];
    var v := Item(At(st.m, f.addr));
    if recs == [] {
      FoldNone(fs, st);
      MergeNone(f, v);
    } else {
      var n := |recs| - 1;
      var before, r := recs[..n], recs[n];
      assert recs == before + [r];
      assert AllOf(before, {i});
      FoldSnoc(fs, st, recs);
      MergeSnoc(f, v, before, r);
      FoldPlain(fs, i, st, before);
      if before == [] { MergeNone(f, v); }
      if Fold(fs, st, before).Some? {
        ApplyPlain(fs, Fold(fs, st, before).value, r);
      }
    }
  }

  /** Required, optional and proto3 fields over whole runs, "last one wins". The run succeeds
      exactly when the other records do and all records of the field can be merged, first to last,
      into what it held; it then holds that merge, with has_ set, and is untouched if it has no
      record. For all but submessages the merge is the last record's value. */
  lemma PlainOverRun(fs: seq<Field>, i: nat, st: State, recs: seq<Record>)
    requires WellFormed(fs) && i < |fs| && IsPlain(fs[i]) && OfFields(fs, recs)
    ensures var f := fs[i];
            var mine := Only(recs, {i});
            && (Fold(fs, st, recs).Some? <==>
                && Fold(fs, st, Only(recs, Others(fs, {i}))).Some?
                && MergeAll(f, Item(At(st.m, f.addr)), mine).Some?)
            && (Fold(fs, st, recs).Some? ==>
                PlainHolds(f, At(st.m, f.addr), mine, At(Fold(fs, st, recs).value.m, f.addr)))
  {
    hide Fold, MergeAll;
    SingletonSeparated(fs, i);
    RecordsDoNotInterfere(fs, {i}, st, recs);
    FoldPlain(fs, i, st, Only(recs, {i}));
  }

  // ----- REQUIRED fields -----

  predicate Appears(recs: seq<Record>, i: nat) {
    exists k :: 0 <= k < |recs| && recs[k].Known? && recs[k].i == i
  }

  /** The REQUIRED field at position r appeared. */
  predicate RankAppears(fs: seq<Field>, recs: seq<Record>, r: nat) {
    exists i :: 0 <= i < |fs| && fs[i].rule.Required? && RequiredBefore(fs, i) == r && Appears(recs, i)
  }

  lemma {:induction false} FoldSeen(fs: seq<Field>, st: State, recs: seq<Record>, r: nat)
    requires OfFields(fs, recs) && Fold(fs, st, recs).Some?
    ensures r in Fold(fs, st, recs).value.seen <==>
            r in st.seen ||
            (r < MAX_REQUIRED && RankAppears(fs, recs, r))
    decreases |recs|
  {
    if recs != [] {
      var q, rest := recs[0], recs[1..];
      var st1 := Apply(fs, st, q).value;
      FoldSeen(fs, st1, rest, r);
      forall i: nat
        ensures Appears(recs, i) <==> (q.Known? && q.i == i) || Appears(rest, i)
      {
        AppearsCons(recs, i);
      }
    }
  }

  lemma AppearsCons(recs: seq<Record>, i: nat)
    requires recs != []
    ensures Appears(recs, i) <==> (recs[0].Known? && recs[0].i == i) || Appears(recs[1..], i)
  {
    if Appears(recs, i) {
      var k :| 0 <= k < |recs| && recs[k].Known? && recs[k].i == i;
      if k > 0 { assert recs[1..][k - 1] == recs[k]; }
    }
    if Appears(recs[1..], i) {
      var k :| 0 <= k < |recs[1..]| && recs[1..][k].Known? && recs[1..][k].i == i;
      assert recs[k + 1] == recs[1..][k];
    }
  }

  /** Positions among the REQUIRED fields number them without gaps or repeats. */
  lemma {:induction false} RankedField(fs: seq<Field>, k: nat, r: nat) returns (i: nat)
    requires k <= |fs| && r < RequiredBefore(fs, k)
    ensures i < k && fs[i].rule.Required? && RequiredBefore(fs, i) == r
    decreases k
  {
    if fs[k - 1].rule.Required? && RequiredBefore(fs, k - 1) == r {
      i := k - 1;
    } else {
      i := RankedField(fs, k - 1, r);
    }
  }

  lemma {:induction false} RankGrows(fs: seq<Field>, i: nat, j: nat)
    requires i < j <= |fs|
    ensures RequiredBefore(fs, i) <= RequiredBefore(fs, j)
    ensures fs[i].rule.Required? ==> RequiredBefore(fs, i) < RequiredBefore(fs, j)
    decreases j
  {
    if i < j - 1 {
      RankGrows(fs, i, j - 1);
    }
  }

  /** The final REQUIRED check passes exactly when each of the first 64 REQUIRED fields appeared
      at least once, in whatever order and however often. */
  lemma RequiredOverRun(fs: seq<Field>, m: Cells, recs: seq<Record>)
    requires OfFields(fs, recs) && Fold(fs, Start(m), recs).Some?
    ensures Complete(fs, Fold(fs, Start(m), recs).value) <==>
            && ArrayComplete(fs, Fold(fs, Start(m), recs).value)
            && forall i :: 0 <= i < |fs| && fs[i].rule.Required? && RequiredBefore(fs, i) < 64 ==> Appears(recs, i)
  {
    var st := Fold(fs, Start(m), recs).value;
    forall r: nat
      ensures r in st.seen <==>
              r < MAX_REQUIRED && RankAppears(fs, recs, r)
    {
      FoldSeen(fs, Start(m), recs, r);
    }
    if Complete(fs, st) {
      forall i | 0 <= i < |fs| && fs[i].rule.Required? && RequiredBefore(fs, i) < MAX_REQUIRED
        ensures Appears(recs, i)
      {
        RankGrows(fs, i, |fs|);
        assert RankAppears(fs, recs, RequiredBefore(fs, i));
        var j :| 0 <= j < |fs| && fs[j].rule.Required? && RequiredBefore(fs, j) == RequiredBefore(fs, i)
            && Appears(recs, j);
        if i < j { RankGrows(fs, i, j); }
        if j < i { RankGrows(fs, j, i); }
      }
    }
    if forall i :: 0 <= i < |fs| && fs[i].rule.Required? && RequiredBefore(fs, i) < MAX_REQUIRED ==> Appears(recs, i) {
      forall r | 0 <= r < RequiredBefore(fs, |fs|) && r < MAX_REQUIRED
        ensures r in st.seen
      {
        var i := RankedField(fs, |fs|, r);
      }
    }
  }

  // ----- arrays without _count -----

  /** Consecutive records of one array, by the items they carry. */
  datatype Group = Group(i: nat, items: seq<Val>)

  /** A group put before others; joined to the first when that is of the same array. */
  function Join(g: Group, gs: seq<Group>): (r: seq<Group>)
    ensures r != [] && r[0].i == g.i
  {
    if gs != [] && gs[0].i == g.i then [Group(g.i, g.items + gs[0].items)] + gs[1..] else [g] + gs
  }

  /** The maximal groups of a list of records of arrays without _count. */
  function Groups(fs: seq<Field>, recs: seq<Record>): seq<Group>
    requires AllOf(recs, FixedFields(fs))
    decreases |recs|
  {
    if recs == [] then [] else Join(GroupOf(fs, recs[0]), Groups(fs, recs[1..]))
  }

  function GroupOf(fs: seq<Field>, r: Record): Group
    requires r.Known? && r.i < |fs|
  {
    var vs := NewItems(fs[r.i], r.p);
    Group(r.i, if vs.Some? then vs.value else [])
  }

  /** Every group fills its array. */
  predicate Exact(fs: seq<Field>, gs: seq<Group>) {
    forall g :: g in gs ==> g.i < |fs| && fs[g.i].rule.FixedCount? && |g.items| == fs[g.i].rule.size
  }

  /** What an array holds after some groups: the last of its own, if any. */
  function LastGroup(gs: seq<Group>, i: nat, c: Cell): Cell {
    if gs == [] then c
    else LastGroup(gs[1..], i, if gs[0].i == i then Fixed(gs[0].items) else c)
  }

  function FixedFields(fs: seq<Field>): set<nat> {
    set i: nat | i < |fs| && fs[i].rule.FixedCount?
  }

  /** Every submessage among the items decodes. */
  predicate ItemsOk(fs: seq<Field>, recs: seq<Record>) {
    forall k :: 0 <= k < |recs| && recs[k].Known? && recs[k].i < |fs| ==> NewItems(fs[recs[k].i], recs[k].p).Some?
  }

  /** The array being filled has its first items in place. */
  predicate OpenOk(fs: seq<Field>, st: State) {
    st.open.Some? ==>
      && st.open.value in FixedFields(fs)
      && var f := fs[st.open.value];
         var c := At(st.m, f.addr);
         c.Fixed? && |c.items| == f.rule.size && st.filled <= f.rule.size
  }

  /** Groups to come, joined to what has arrived for the array being filled. */
  function WithOpen(fs: seq<Field>, st: State, gs: seq<Group>): seq<Group>
    requires OpenOk(fs, st)
  {
    if st.open.None? then gs
    else Join(Group(st.open.value, At(st.m, fs[st.open.value].addr).items[..st.filled]), gs)
  }

  /** The step that one record of an array without _count makes. */
  lemma ApplyFixed(fs: seq<Field>, st: State, r: Record)
    requires WellFormed(fs) && OpenOk(fs, st) && r.Known? && r.i in FixedFields(fs)
    ensures var f := fs[r.i];
            var n := f.rule.size;
            var vs := NewItems(f, r.p);
            var k := if st.open == Some(r.i) then st.filled else 0;
            var was := Slots(At(st.m, f.addr), n);
            Apply(fs, st, r) ==
            if (st.open == Some(r.i) || ArrayComplete(fs, st)) && vs.Some? && k + |vs.value| <= n
            then Some(State(st.m[f.addr := Fixed(was[..k] + vs.value + was[k + |vs.value|..])],
                            Some(r.i), k + |vs.value|, st.seen))
            else None
  {
    var f := fs[r.i];
    var vs := NewItems(f, r.p);
    if vs.Some? {
      assert |vs.value| == Count(r.p);
    }
  }

  lemma WithOpenStep(fs: seq<Field>, st: State, r: Record, gs: seq<Group>)
    requires WellFormed(fs) && OpenOk(fs, st) && r.Known? && r.i in FixedFields(fs)
    requires Apply(fs, st, r).Some?
    ensures OpenOk(fs, Apply(fs, st, r).value)
    ensures var st1 := Apply(fs, st, r).value;
            var all := WithOpen(fs, st, Join(GroupOf(fs, r), gs));
            if st.open.None? || st.open == Some(r.i) then all == WithOpen(fs, st1, gs)
            else
              var j := st.open.value;
              && all == [Group(j, At(st.m, fs[j].addr).items)] + WithOpen(fs, st1, gs)
              && At(st1.m, fs[j].addr) == At(st.m, fs[j].addr)
  {
    ApplyFixed(fs, st, r);
    var f := fs[r.i];
    var st1 := Apply(fs, st, r).value;
    var vs := GroupOf(fs, r).items;
    var k := if st.open == Some(r.i) then st.filled else 0;
    var was := Slots(At(st.m, f.addr), f.rule.size);
    assert At(st1.m, f.addr).items[..st1.filled] == was[..k] + vs;
    if st.open == Some(r.i) {
      if gs != [] && gs[0].i == r.i {
        assert was[..k] + (vs + gs[0].items) == was[..k] + vs + gs[0].items;
      }
    } else {
      assert was[..0] + vs == vs;
      if st.open.Some? {
        var j := st.open.value;
        assert fs[j].addr != f.addr;
        var c := At(st.m, fs[j].addr);
        assert c.items[..st.filled] == c.items;
      }
    }
  }

  /** A record that cannot be applied leaves some group of the wrong size or a bad item. */
  lemma WithOpenBad(fs: seq<Field>, st: State, r: Record, gs: seq<Group>)
    requires WellFormed(fs) && OpenOk(fs, st) && r.Known? && r.i in FixedFields(fs)
    requires Apply(fs, st, r).None? && NewItems(fs[r.i], r.p).Some?
    ensures !Exact(fs, WithOpen(fs, st, Join(GroupOf(fs, r), gs)))
  {
    ApplyFixed(fs, st, r);
    var all := WithOpen(fs, st, Join(GroupOf(fs, r), gs));
    assert all[0] in all;
    if st.open.Some? && st.open != Some(r.i) {
      assert all[0] == Group(st.open.value, At(st.m, fs[st.open.value].addr).items[..st.filled]);
      assert all[1] in all;
    }
  }

  /** Every array without _count holds the last of its groups. */
  predicate LastGroups(fs: seq<Field>, before: Cells, gs: seq<Group>, after: Cells) {
    forall i :: i in FixedFields(fs) ==>
      At(after, fs[i].addr) == LastGroup(gs, i, At(before, fs[i].addr))
  }

  /** One step moves what has arrived without changing the verdict on the groups. */
  lemma FixedStepExact(fs: seq<Field>, st: State, r: Record, gs: seq<Group>)
    requires WellFormed(fs) && OpenOk(fs, st) && r.Known? && r.i in FixedFields(fs)
    requires Apply(fs, st, r).Some? && OpenOk(fs, Apply(fs, st, r).value)
    ensures Exact(fs, WithOpen(fs, st, Join(GroupOf(fs, r), gs))) <==>
            Exact(fs, WithOpen(fs, Apply(fs, st, r).value, gs))
  {
    WithOpenStep(fs, st, r, gs);
    if st.open.Some? && st.open != Some(r.i) {
      ApplyFixed(fs, st, r);
      var all := WithOpen(fs, st, Join(GroupOf(fs, r), gs));
      ExactCons(fs, all);
    }
  }

  lemma ExactCons(fs: seq<Field>, gs: seq<Group>)
    requires gs != []
    ensures Exact(fs, gs) <==>
            Exact(fs, gs[1..]) && gs[0].i < |fs| && fs[gs[0].i].rule.FixedCount? && |gs[0].items| ==
                fs[gs[0].i].rule.size
  {
    assert gs[0] in gs;
    assert gs == [gs[0]] + gs[1..];
  }

  lemma FixedStepLast(fs: seq<Field>, st: State, r: Record, gs: seq<Group>, i: nat)
    requires WellFormed(fs) && OpenOk(fs, st) && r.Known? && r.i in FixedFields(fs) && i in FixedFields(fs)
    requires Apply(fs, st, r).Some? && OpenOk(fs, Apply(fs, st, r).value)
    ensures LastGroup(WithOpen(fs, st, Join(GroupOf(fs, r), gs)), i, At(st.m, fs[i].addr)) ==
            LastGroup(WithOpen(fs, Apply(fs, st, r).value, gs), i, At(Apply(fs, st, r).value.m, fs[i].addr))
  {
    hide Apply, NewItems, Slots, Groups;
    WithOpenStep(fs, st, r, gs);
    ApplyFixed(fs, st, r);
    var st1 := Apply(fs, st, r).value;
    var all := WithOpen(fs, st, Join(GroupOf(fs, r), gs));
    var later := WithOpen(fs, st1, gs);
    assert later[0].i == r.i;
    if i != r.i {
      assert fs[i].addr != fs[r.i].addr;
    }
    if st.open.Some? && st.open != Some(r.i) {
      assert all[1..] == later;
    }
  }

  lemma FixedStep(fs: seq<Field>, st: State, r: Record, gs: seq<Group>, after: Cells)
    requires WellFormed(fs) && OpenOk(fs, st) && r.Known? && r.i in FixedFields(fs)
    requires Apply(fs, st, r).Some? && OpenOk(fs, Apply(fs, st, r).value)
    requires LastGroups(fs, Apply(fs, st, r).value.m, WithOpen(fs, Apply(fs, st, r).value, gs), after)
    ensures LastGroups(fs, st.m, WithOpen(fs, st, Join(GroupOf(fs, r), gs)), after)
  {
    forall i | i in FixedFields(fs)
      ensures At(after, fs[i].addr) ==
              LastGroup(WithOpen(fs, st, Join(GroupOf(fs, r), gs)), i, At(st.m, fs[i].addr))
    {
      FixedStepLast(fs, st, r, gs, i);
    }
  }

  lemma FixedEnd(fs: seq<Field>, st: State)
    requires WellFormed(fs) && OpenOk(fs, st)
    ensures ArrayComplete(fs, st) <==> Exact(fs, WithOpen(fs, st, []))
    ensures ArrayComplete(fs, st) ==> LastGroups(fs, st.m, WithOpen(fs, st, []), st.m)
  {
    if st.open.Some? {
      var c := At(st.m, fs[st.open.value].addr);
      var g := Group(st.open.value, c.items[..st.filled]);
      assert WithOpen(fs, st, []) == [g];
      assert g in [g];
      assert [g][1..] == [];
    }
  }

  lemma {:induction false} FoldFixed(fs: seq<Field>, st: State, recs: seq<Record>)
    requires WellFormed(fs) && OpenOk(fs, st) && AllOf(recs, FixedFields(fs))
    ensures (Fold(fs, st, recs).Some? && ArrayComplete(fs, Fold(fs, st, recs).value)) <==>
            ItemsOk(fs, recs) && Exact(fs, WithOpen(fs, st, Groups(fs, recs)))
    ensures Fold(fs, st, recs).Some? && ArrayComplete(fs, Fold(fs, st, recs).value) ==>
              LastGroups(fs, st.m, WithOpen(fs, st, Groups(fs, recs)), Fold(fs, st, recs).value.m)
    decreases |recs|
  {
    if recs == [] {
      FixedEnd(fs, st);
    } else {
      var r, rest := recs[0], recs[1..];
      var gs := Groups(fs, rest);
      ItemsOkCons(fs, recs);
      var st1 := Apply(fs, st, r);
      if st1.Some? {
        WithOpenStep(fs, st, r, gs);
        FoldFixed(fs, st1.value, rest);
        FixedStepExact(fs, st, r, gs);
        var end := Fold(fs, st1.value, rest);
        if end.Some? && ArrayComplete(fs, end.value) {
          FixedStep(fs, st, r, gs, end.value.m);
        }
        ApplyFixed(fs, st, r);
      } else if NewItems(fs[r.i], r.p).Some? {
        WithOpenBad(fs, st, r, gs);
      }
    }
  }

  lemma ItemsOkCons(fs: seq<Field>, recs: seq<Record>)
    requires recs != [] && recs[0].Known? && recs[0].i < |fs|
    ensures ItemsOk(fs, recs) <==> NewItems(fs[recs[0].i], recs[0].p).Some? && ItemsOk(fs, recs[1..])
  {
    if NewItems(fs[recs[0].i], recs[0].p).Some? && ItemsOk(fs, recs[1..]) {
      forall k | 0 <= k < |recs| && recs[k].Known? && recs[k].i < |fs|
        ensures NewItems(fs[recs[k].i], recs[k].p).Some?
      {
        if k > 0 { assert recs[k] == recs[1..][k - 1]; }
      }
    }
    if ItemsOk(fs, recs) {
      forall k | 0 <= k < |recs[1..]| && recs[1..][k].Known? && recs[1..][k].i < |fs|
        ensures NewItems(fs[recs[1..][k].i], recs[1..][k].p).Some?
      {
        assert recs[1..][k] == recs[k + 1];
      }
    }
  }

  lemma FixedSeparated(fs: seq<Field>)
    requires WellFormed(fs)
    ensures Separated(fs, FixedFields(fs))
  {
  }

  lemma {:induction false} FoldNoFixed(fs: seq<Field>, st: State, recs: seq<Record>)
    requires FixedFields(fs) == {} && OfFields(fs, recs) && Fold(fs, st, recs).Some?
    ensures Fold(fs, st, recs).value.open == st.open && Fold(fs, st, recs).value.filled == st.filled
    decreases |recs|
  {
    if recs != [] {
      assert recs[0].Known? ==> recs[0].i !in FixedFields(fs);
      FoldNoFixed(fs, Apply(fs, st, recs[0]).value, recs[1..]);
    }
  }

  /** Arrays without _count over whole runs. With a single tracker, the run gets through with the
      last array complete exactly when the other records succeed by themselves, every item
      decodes, and every maximal group of records of one such array, other records in between
      not counted, carries exactly as many items as the array has. Each array then holds its
      last group. */
  lemma FixedOverRun(fs: seq<Field>, m: Cells, recs: seq<Record>)
    requires WellFormed(fs) && OfFields(fs, recs)
    ensures var S := FixedFields(fs);
            var mine := Only(recs, S);
            var r := Fold(fs, Start(m), recs);
            && (r.Some? && ArrayComplete(fs, r.value) <==>
                Fold(fs, Start(m), Only(recs, Others(fs, S))).Some? && ItemsOk(fs, mine) && Exact(fs, Groups(fs, mine)))
            && (r.Some? && ArrayComplete(fs, r.value) ==> LastGroups(fs, m, Groups(fs, mine), r.value.m))
  {
    var S := FixedFields(fs);
    var mine := Only(recs, S);
    var others := Only(recs, Others(fs, S));
    FixedSeparated(fs);
    RecordsDoNotInterfere(fs, S, Start(m), recs);
    FoldFixed(fs, Start(m), mine);
    var r := Fold(fs, Start(m), recs);
    if r.Some? && S == {} {
      FoldNoFixed(fs, Start(m), recs);
    }
  }
}
