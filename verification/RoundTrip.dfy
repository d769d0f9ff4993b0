/**
 Encoding, then decoding: for every well-formed description and well-typed struct, what decoding
 the encoder's bytes does.
 */
module RoundTrip {
  import opened Wrappers
  import opened Varint
  import opened Integers
  import opened Schema
  import opened Encoding
  import opened Decoding

  // ----- what comes back -----

  /** Whether the encoder writes the field. */
  predicate Present(f: Field, c: Cell) {
    match f.rule
    case Required => true
    case Optional => Has(c)
    case Singular => !IsZeroVal(f, Item(c))
    case Repeated(_) => Items(c) != []
    case FixedCount(_) => true
    case Oneof => Which(c) == f.tag
  }

  function BytesOf(v: Val): seq<byte> {
    if v.Blob? then v.bytes else []
  }

  /** The value an encoded item decodes to: strings end at their first NUL. */
  function Normal(f: Field, v: Val): Val
    decreases f, 0
  {
    match f.ltype
    case String => Blob(CString(BytesOf(v)))
    case Submessage(fs) => Msg(NormalFrom(fs, |fs|, SubCells(v)))
    case _ => v
  }

  function NormalItems(f: Field, vs: seq<Val>): (r: seq<Val>)
    ensures |r| == |vs|
    ensures forall k :: 0 <= k < |vs| ==> r[k] == Normal(f, vs[k])
    decreases f, 1, |vs|
  {
    if vs == [] then [] else [Normal(f, vs[0])] + NormalItems(f, vs[1..])
  }

  function NormalCell(f: Field, c: Cell): Cell
    decreases f, 2
  {
    match f.rule
    case Required => One(Normal(f, Item(c)))
    case Singular => One(Normal(f, Item(c)))
    case Optional => Opt(true, Normal(f, Item(c)))
    case Repeated(_) => Arr(NormalItems(f, Items(c)))
    case FixedCount(n) => Fixed(NormalItems(f, Slots(c, n)))
    case Oneof => Union(f.tag, Normal(f, Item(c)))
  }

  /** The defaults, with the first k fields replaced where the encoder writes them. */
  function NormalFrom(fs: seq<Field>, k: nat, m: Cells): Cells
    requires k <= |fs|
    decreases fs, k
  {
    if k == 0 then Defaults(fs, |fs|)
    else
      var f := fs[k - 1];
      var c := At(m, f.addr);
      var before := NormalFrom(fs, k - 1, m);
      if Present(f, c) then before[f.addr := NormalCell(f, c)] else before
  }

  /** The normal form of a struct. */
  function NormalMsg(fs: seq<Field>, m: Cells): Cells {
    NormalFrom(fs, |fs|, m)
  }

  // ----- when it comes back -----

  /** What the decoder can read back: strings have their NUL inside the member, and the length
      of every submessage and packed array is below 2^32. */
  predicate FitsVal(f: Field, v: Val)
    decreases f, 0
  {
    match f.ltype
    case String => |CString(BytesOf(v))| < f.dataSize
    case Submessage(fs) =>
      var body := EncodeFrom(fs, 0, SubCells(v));
      body.Some? && |body.value| < TWO32 && FitsFrom(fs, 0, SubCells(v))
    case _ => true
  }

  predicate FitsItems(f: Field, vs: seq<Val>)
    decreases f, 1, |vs|
  {
    vs == [] || (FitsVal(f, vs[0]) && FitsItems(f, vs[1..]))
  }

  predicate FitsArray(f: Field, vs: seq<Val>)
    decreases f, 2
  {
    if f.ltype.Packable() then
      var body := EncodePacked(f, vs);
      body.Some? && |body.value| < TWO32
    else FitsItems(f, vs)
  }

  predicate FitsCell(f: Field, c: Cell)
    decreases f, 3
  {
    Present(f, c) ==>
      match f.rule
      case Repeated(_) => FitsArray(f, Items(c))
      case FixedCount(n) => FitsArray(f, Slots(c, n))
      case _ => FitsVal(f, Item(c))
  }

  /** All fields from the i-th on can be read back. */
  predicate FitsFrom(fs: seq<Field>, i: nat, m: Cells)
    requires i <= |fs|
    decreases fs, |fs| - i
  {
    i == |fs| || (FitsCell(fs[i], At(m, fs[i].addr)) && FitsFrom(fs, i + 1, m))
  }

  predicate Fits(fs: seq<Field>, m: Cells) {
    FitsFrom(fs, 0, m)
  }

  // ----- one item -----

  lemma TakeLength(b: seq<byte>, t: seq<byte>)
    requires |b| < TWO63
    ensures Decode32(WithLength(b) + t) == if |b| < TWO32 then Got(|b|, b + t) else Bad
    ensures TakeString(WithLength(b) + t) == if |b| < TWO32 then Got(b, t) else Bad
  {
    hide Encode, Decode32;
    SmallLength(|b|);
    Decode32OfEncode(|b|, b + t);
    assert WithLength(b) + t == Encode(|b|) + (b + t);
    TakeExact(b, t);
  }

  lemma SmallLength(n: nat)
    requires n < TWO63
    ensures n % TWO64 == n
  {
  }

  lemma TakeExact(b: seq<byte>, t: seq<byte>)
    ensures Take(|b|, b + t) == Got(b, t)
  {
    assert (b + t)[..|b|] == b;
    assert (b + t)[|b|..] == t;
  }

  lemma TakeEncodedWord(n: nat, v: nat, t: seq<byte>)
    requires v < Pow2(8 * n)
    ensures TakeWord(n, LittleEndian(v, n) + t) == Got(Num(v), t)
  {
    TakeExact(LittleEndian(v, n), t);
    LittleEndianRoundTrip(v, n);
  }

  lemma TakeEncoded32(n: nat, t: seq<byte>)
    requires n < TWO32
    ensures ToUnsigned(n, 4) == n
    ensures TakeWord(4, LittleEndian(n, 4) + t) == Got(Num(n), t)
  {
    hide LittleEndian, TakeWord;
    Pow2Words();
    TakeEncodedWord(4, n, t);
  }

  lemma TakeEncoded64(n: nat, t: seq<byte>)
    requires n < TWO64
    ensures ToUnsigned(n, 8) == n
    ensures TakeWord(8, LittleEndian(n, 8) + t) == Got(Num(n), t)
  {
    hide LittleEndian, TakeWord;
    Pow2Words();
    TakeEncodedWord(8, n, t);
  }

  lemma TakeEncodedBlob(b: seq<byte>, t: seq<byte>)
    requires |b| < TWO32
    ensures Decode32(WithLength(b) + t) == Got(|b|, b + t)
    ensures TakeBlob(|b|, b + t) == Got(Blob(b), t)
  {
    TakeLength(b, t);
    TakeExact(b, t);
  }

  lemma TakeEncodedInteger(f: Field, v: Val, t: seq<byte>)
    requires WellFormedField(f) && TypedVal(f, v) && f.ltype.Integer?
    ensures EncodeScalar(f, v).Some? && TakeScalar(f, EncodeScalar(f, v).value + t) == Got(v, t)
  {
    var kind := f.ltype.kind;
    IntegerRoundTrip(kind, f.dataSize, v.n);
    RoundTrip64(VarintOf(kind, f.dataSize, v.n).value, t);
  }

  lemma TakeEncodedNumber(f: Field, v: Val, t: seq<byte>)
    requires WellFormedField(f) && TypedVal(f, v) && f.ltype.Packable()
    ensures EncodeScalar(f, v).Some? && TakeScalar(f, EncodeScalar(f, v).value + t) == Got(v, t)
  {
    match f.ltype
    case Bool => Decode32OfEncode(v.n, t);
    case Integer(_) => TakeEncodedInteger(f, v, t);
    case Fixed32 => TakeEncoded32(v.n, t);
    case Fixed64 => TakeEncoded64(v.n, t);
  }

  lemma TakeEncodedString(f: Field, v: Val, t: seq<byte>)
    requires WellFormedField(f) && TypedVal(f, v) && f.ltype.String?
    ensures TakeScalar(f, WithLength(CString(v.bytes)) + t) == if FitsVal(f, v) then Got(Normal(f, v), t) else Bad
  {
    TakeEncodedBlob(CString(v.bytes), t);
  }

  lemma TakeEncodedBytes(f: Field, v: Val, t: seq<byte>)
    requires WellFormedField(f) && TypedVal(f, v)
    requires (f.ltype.Bytes? && EncodeScalar(f, v).Some?) || f.ltype.FixedLengthBytes?
    ensures TakeScalar(f, WithLength(v.bytes) + t) == Got(v, t)
  {
    TakeEncodedBlob(v.bytes, t);
    if f.ltype.FixedLengthBytes? && v.bytes == [] {
      assert Zeros(f.dataSize) == [];
    }
  }

  /** Reading an encoded item, whatever follows it. */
  lemma TakeScalarOfEncode(f: Field, v: Val, t: seq<byte>)
    requires WellFormedField(f) && TypedVal(f, v) && !f.ltype.Submessage?
    requires EncodeScalar(f, v).Some?
    ensures TakeScalar(f, EncodeScalar(f, v).value + t) == if FitsVal(f, v) then Got(Normal(f, v), t) else Bad
  {
    if f.ltype.Packable() {
      TakeEncodedNumber(f, v, t);
    } else if f.ltype.String? {
      TakeEncodedString(f, v, t);
    } else {
      TakeEncodedBytes(f, v, t);
    }
  }

  lemma EncodePackedNonempty(f: Field, vs: seq<Val>)
    requires f.ltype.Packable() && vs != [] && EncodePacked(f, vs).Some?
    ensures EncodePacked(f, vs).value != []
  {
    var e := EncodeScalar(f, vs[0]).value;
    assert e != [];
    assert EncodePacked(f, vs).value[0] == e[0];
  }

  lemma {:induction false} TakeAllOfEncode(f: Field, vs: seq<Val>)
    requires WellFormedField(f) && f.ltype.Packable()
    requires forall k :: 0 <= k < |vs| ==> TypedVal(f, vs[k])
    requires EncodePacked(f, vs).Some?
    ensures TakeAll(f, EncodePacked(f, vs).value) == Some(NormalItems(f, vs))
  {
    if vs != [] {
      var rest := EncodePacked(f, vs[1..]).value;
      TakeScalarOfEncode(f, vs[0], rest);
      TakeAllOfEncode(f, vs[1..]);
      var s := EncodePacked(f, vs).value;
      assert s == EncodeScalar(f, vs[0]).value + rest;
      EncodePackedNonempty(f, vs);
    }
  }

  // ----- one record -----

  /** Continuing a run after one record. */
  function RunAfter(fs: seq<Field>, st: Option<State>, s: seq<byte>): Option<(State, seq<byte>)> {
    if st.None? then None else Run(fs, st.value, s)
  }

  /** Continuing a run with what was read for the i-th field. */
  function RunPayload(fs: seq<Field>, i: nat, st: State, p: Parsed<Payload>): Option<(State, seq<byte>)> {
    if p.Bad? then None else RunAfter(fs, Apply(fs, st, Known(i, p.val)), p.rest)
  }

  lemma FindOwnTag(fs: seq<Field>, i: nat)
    requires WellFormed(fs) && i < |fs|
    ensures FindTag(fs, fs[i].tag) == Some(i)
  {
    var r := FindTag(fs, fs[i].tag);
    if r.Some? && r.value < i {
    } else if r.Some? && i < r.value {
    }
  }

  /** A tag in front of some bytes selects the field of that number. */
  lemma RunTagged(fs: seq<Field>, i: nat, st: State, wt: nat, s: seq<byte>)
    requires WellFormed(fs) && i < |fs| && wt < 8
    ensures Run(fs, st, TagBytes(wt, fs[i].tag) + s) == RunPayload(fs, i, st, TakePayload(fs[i], wt, s))
  {
    hide WellFormed, Apply, TakePayload, TakeRecord, TagBytes;
    TakeTagged(fs, i, wt, s);
  }

  lemma TakeTagged(fs: seq<Field>, i: nat, wt: nat, s: seq<byte>)
    requires WellFormed(fs) && i < |fs| && wt < 8
    ensures TagBytes(wt, fs[i].tag) + s != []
    ensures TakeRecord(fs, TagBytes(wt, fs[i].tag) + s) ==
            if TakePayload(fs[i], wt, s).Bad? then Malformed
            else Next(Known(i, TakePayload(fs[i], wt, s).val), TakePayload(fs[i], wt, s).rest)
  {
    hide WellFormed, WellFormedField, TakePayload, Decode32, Encode, FindTag;
    var tag := fs[i].tag;
    TagRange(fs, i);
    FindOwnTag(fs, i);
    Decode32OfEncode(8 * tag + wt, s);
    TagWordParts(tag, wt);
  }

  lemma TagRange(fs: seq<Field>, i: nat)
    requires WellFormed(fs) && i < |fs|
    ensures 1 <= fs[i].tag < 0x2000_0000
  {
    assert WellFormedField(fs[i]);
  }

  /** The payload read back from an encoded item. */
  function PayloadOf(f: Field, v: Val): Payload {
    match f.ltype
    case Submessage(fs) =>
      var body := EncodeFrom(fs, 0, SubCells(v));
      Body(if body.Some? then body.value else [])
    case _ => Vals([Normal(f, v)])
  }

  /** Whether the bytes of an encoded item parse, nested messages left unread. */
  predicate Parses(f: Field, v: Val) {
    match f.ltype
    case Submessage(fs) => PayloadOf(f, v).Body? && |PayloadOf(f, v).bytes| < TWO32
    case _ => FitsVal(f, v)
  }

  lemma RunItem(fs: seq<Field>, i: nat, st: State, v: Val, t: seq<byte>)
    requires WellFormed(fs) && i < |fs| && TypedVal(fs[i], v)
    requires EncodeRecord(fs[i], v).Some? && |EncodeRecord(fs[i], v).value| < TWO63
    ensures Run(fs, st, EncodeRecord(fs[i], v).value + t) ==
            if Parses(fs[i], v) then RunAfter(fs, Apply(fs, st, Known(i, PayloadOf(fs[i], v))), t) else None
  {
    var f := fs[i];
    assert WellFormedField(f);
    var wt := WireType(f.ltype);
    var body := EncodeVal(f, v).value;
    assert EncodeRecord(f, v).value + t == TagBytes(wt, f.tag) + (body + t);
    RunTagged(fs, i, st, wt, body + t);
    match f.ltype
    case Submessage(sub) => TakeLength(EncodeFrom(sub, 0, v.cells).value, t);
    case _ => TakeScalarOfEncode(f, v, t);
  }

  // ----- collecting array items -----

  function ApplyAfter(fs: seq<Field>, st: Option<State>, i: nat, vs: seq<Val>): Option<State> {
    if st.None? then None else Apply(fs, st.value, Known(i, Vals(vs)))
  }

  function StoreAfter(f: Field, c: Option<Cell>, filled: nat, vs: seq<Val>): Option<Cell> {
    if c.None? then None else Store(f, c.value, filled, Vals(vs))
  }

  /** Items arriving for an array are put after those in place, if there is room. */
  lemma StoreItems(f: Field, c: Cell, filled: nat, vs: seq<Val>)
    requires f.rule.Repeated? || f.rule.FixedCount?
    ensures Store(f, c, filled, Vals(vs)) ==
            if f.rule.Repeated? then
              if vs == [] || |Items(c)| + |vs| <= f.rule.max then Some(Arr(Items(c) + vs)) else None
            else if filled + |vs| <= f.rule.size then
              Some(Fixed(Slots(c, f.rule.size)[..filled] + vs + Slots(c, f.rule.size)[filled + |vs|..]))
            else None
  {
    assert NewItems(f, Vals(vs)) == Some(vs);
  }

  lemma StoreSplit(f: Field, c: Cell, filled: nat, a: seq<Val>, b: seq<Val>)
    requires f.rule.Repeated? || f.rule.FixedCount?
    ensures Store(f, c, filled, Vals(a + b)) == StoreAfter(f, Store(f, c, filled, Vals(a)), filled + |a|, b)
  {
    StoreItems(f, c, filled, a);
    StoreItems(f, c, filled, a + b);
    var mid := Store(f, c, filled, Vals(a));
    if mid.Some? {
      StoreItems(f, mid.value, filled + |a|, b);
      if f.rule.Repeated? {
        assert Items(c) + (a + b) == Items(c) + a + b;
      } else {
        SpliceTwice(Slots(c, f.rule.size), filled, a, b);
      }
    }
  }

  lemma SpliceTwice(was: seq<Val>, k: nat, a: seq<Val>, b: seq<Val>)
    requires k + |a| <= |was|
    ensures var mid := was[..k] + a + was[k + |a|..];
            && |mid| == |was|
            && (k + |a| + |b| <= |was| ==>
                was[..k] + (a + b) + was[k + |a + b|..] == mid[..k + |a|] + b + mid[k + |a| + |b|..])
  {
  }

  /** Items may arrive in one record or in several: the outcome is the same. */
  lemma ApplySplit(fs: seq<Field>, i: nat, st: State, a: seq<Val>, b: seq<Val>)
    requires i < |fs| && (fs[i].rule.Repeated? || fs[i].rule.FixedCount?)
    ensures Apply(fs, st, Known(i, Vals(a + b))) == ApplyAfter(fs, Apply(fs, st, Known(i, Vals(a))), i, b)
  {
    hide Store;
    var f := fs[i];
    var c := At(st.m, f.addr);
    var st1 := OpenArray(fs, st, i);
    if st1.Some? {
      var k := st1.value.filled;
      StoreSplit(f, c, k, a, b);
      var mid := Store(f, c, k, Vals(a));
      if mid.Some? {
        var m: Cells := st1.value.m;
        var m1: Cells := m[f.addr := mid.value];
        var end := Store(f, mid.value, k + |a|, Vals(b));
        if end.Some? {
          assert m1[f.addr := end.value] == m[f.addr := end.value];
        }
        if f.rule.Repeated? {
          StoreItems(f, mid.value, k, b);
          StoreItems(f, mid.value, k + |a|, b);
        }
      }
    }
  }

  // ----- the states a run over an encoded message goes through -----

  function AfterField(fs: seq<Field>, i: nat, m: Cells, st: State): State
    requires i < |fs|
  {
    var f := fs[i];
    var c := At(m, f.addr);
    if !Present(f, c) then st
    else State(st.m[f.addr := NormalCell(f, c)],
               if f.rule.FixedCount? then Some(i) else st.open,
               if f.rule.FixedCount? then f.rule.size else st.filled,
               MarkSeen(fs, i, st.seen))
  }

  /** The loop state once the first k fields have been read back. */
  function Expected(fs: seq<Field>, k: nat, m: Cells): State
    requires k <= |fs|
  {
    if k == 0 then Start(Defaults(fs, |fs|)) else AfterField(fs, k - 1, m, Expected(fs, k - 1, m))
  }

  lemma {:induction false} ExpectedFacts(fs: seq<Field>, k: nat, m: Cells)
    requires k <= |fs|
    ensures Expected(fs, k, m).m == NormalFrom(fs, k, m)
    ensures ArrayComplete(fs, Expected(fs, k, m))
    ensures Expected(fs, k, m).open.Some? ==> Expected(fs, k, m).open.value < k
    ensures forall r: nat :: r < RequiredBefore(fs, k) && r < MAX_REQUIRED ==> r in Expected(fs, k, m).seen
  {
    if k > 0 {
      ExpectedFacts(fs, k - 1, m);
    }
  }

  lemma {:induction false} DefaultsAt(fs: seq<Field>, k: nat, i: nat)
    requires WellFormed(fs) && i < k <= |fs|
    ensures fs[i].addr in Defaults(fs, k) && Defaults(fs, k)[fs[i].addr] == DefaultCell(fs[i])
    decreases k
  {
    if i < k - 1 {
      DefaultsAt(fs, k - 1, i);
    }
  }

  /** Before its turn, a field the encoder writes still has its default: a union is written by
      at most one of its members. */
  lemma {:induction false} Untouched(fs: seq<Field>, k: nat, m: Cells, i: nat)
    requires WellFormed(fs) && k <= i < |fs|
    requires fs[i].rule.Oneof? ==> Present(fs[i], At(m, fs[i].addr))
    ensures At(NormalFrom(fs, k, m), fs[i].addr) == DefaultCell(fs[i])
    decreases k
  {
    if k == 0 {
      DefaultsAt(fs, |fs|, i);
    } else {
      Untouched(fs, k - 1, m, i);
    }
  }

  // ----- the whole message -----

  /** A single item stored over its default. */
  lemma StoreItem(f: Field, v: Val, filled: nat)
    requires WellFormedField(f) && TypedVal(f, v)
    requires !f.rule.Repeated? && !f.rule.FixedCount?
    requires EncodeVal(f, v).Some? && |EncodeVal(f, v).value| < TWO63 && Parses(f, v)
    ensures Store(f, DefaultCell(f), filled, PayloadOf(f, v)) ==
            if FitsVal(f, v) then Some(ItemCell(f, v)) else None
    decreases f, 1, 0
  {
    ReplaceItem(f, v);
  }

  /** The cell of a field with a single item. */
  function ItemCell(f: Field, v: Val): Cell {
    match f.rule
    case Optional => Opt(true, Normal(f, v))
    case Oneof => Union(f.tag, Normal(f, v))
    case _ => One(Normal(f, v))
  }

  /** An item read over the default value, or over anything when it is not a submessage. */
  lemma ReplaceItem(f: Field, v: Val)
    requires WellFormedField(f) && TypedVal(f, v)
    requires EncodeVal(f, v).Some? && |EncodeVal(f, v).value| < TWO63 && Parses(f, v)
    ensures Replace(f, DefaultVal(f), PayloadOf(f, v)) == if FitsVal(f, v) then Some(Normal(f, v)) else None
    ensures !f.ltype.Submessage? ==> forall was :: Replace(f, was, PayloadOf(f, v)) == Some(Normal(f, v))
    decreases f, 0, 0
  {
    if f.ltype.Submessage? {
      var fs := f.ltype.fields;
      RunEncoded(fs, 0, v.cells);
      ExpectedFacts(fs, 0, v.cells);
      ExpectedFacts(fs, |fs|, v.cells);
      assert SubCells(DefaultVal(f)) == Defaults(fs, |fs|);
    }
  }

  /** An item added to an array. */
  lemma ApplyItem(fs: seq<Field>, i: nat, st: State, v: Val)
    requires WellFormed(fs) && i < |fs| && (fs[i].rule.Repeated? || fs[i].rule.FixedCount?)
    requires TypedVal(fs[i], v)
    requires EncodeVal(fs[i], v).Some? && |EncodeVal(fs[i], v).value| < TWO63 && Parses(fs[i], v)
    ensures Apply(fs, st, Known(i, PayloadOf(fs[i], v))) ==
            if FitsVal(fs[i], v) then Apply(fs, st, Known(i, Vals([Normal(fs[i], v)]))) else None
    decreases fs, 0, 0
  {
    var f := fs[i];
    assert WellFormedField(f);
    ReplaceItem(f, v);
    var p := PayloadOf(f, v);
    var st1 := OpenArray(fs, st, i);
    if f.ltype.Submessage? {
      assert NewItems(f, p) == if FitsVal(f, v) then Some([Normal(f, v)]) else None;
      assert NewItems(f, Vals([Normal(f, v)])) == Some([Normal(f, v)]);
      if st1.Some? {
        var c := At(st.m, f.addr);
        assert Store(f, c, st1.value.filled, p) ==
               if FitsVal(f, v) then Store(f, c, st1.value.filled, Vals([Normal(f, v)])) else None;
      }
    }
  }

  lemma RunRecords(fs: seq<Field>, i: nat, st: State, vs: seq<Val>, t: seq<byte>)
    requires WellFormed(fs) && i < |fs| && (fs[i].rule.Repeated? || fs[i].rule.FixedCount?)
    requires vs != [] && forall k :: 0 <= k < |vs| ==> TypedVal(fs[i], vs[k])
    requires EncodeRecords(fs[i], vs).Some? && |EncodeRecords(fs[i], vs).value| < TWO63
    ensures Run(fs, st, EncodeRecords(fs[i], vs).value + t) ==
            if FitsItems(fs[i], vs) then RunAfter(fs, Apply(fs, st, Known(i, Vals(NormalItems(fs[i], vs)))), t)
            else None
    decreases fs, 1, |vs|
  {
    var f := fs[i];
    var v := vs[0];
    var first := EncodeRecord(f, v).value;
    var others := EncodeRecords(f, vs[1..]).value;
    assert EncodeRecords(f, vs).value + t == first + (others + t);
    RunItem(fs, i, st, v, others + t);
    if Parses(f, v) {
      ApplyItem(fs, i, st, v);
    }
    var a := [Normal(f, v)];
    var st1 := Apply(fs, st, Known(i, Vals(a)));
    if |vs| == 1 {
      assert NormalItems(f, vs) == a;
      assert others + t == t;
    } else {
      var b := NormalItems(f, vs[1..]);
      assert NormalItems(f, vs) == a + b;
      ApplySplit(fs, i, st, a, b);
      if st1.Some? {
        RunRecords(fs, i, st1.value, vs[1..], t);
      }
    }
  }

  /** Items that can be encoded are not stale. */
  lemma {:induction false} EncodedNotStale(f: Field, vs: seq<Val>)
    requires if f.ltype.Packable() then EncodePacked(f, vs).Some? else EncodeRecords(f, vs).Some?
    ensures forall k :: 0 <= k < |vs| ==> !vs[k].Stale?
  {
    if vs != [] {
      EncodedNotStale(f, vs[1..]);
      assert EncodeScalar(f, Stale).None? && EncodeRecord(f, Stale).None?;
      forall k | 0 <= k < |vs|
        ensures !vs[k].Stale?
      {
        if k > 0 { assert vs[k] == vs[1..][k - 1]; }
      }
    }
  }

  /** The records of an array act as one record with all the items. */
  lemma RunArray(fs: seq<Field>, i: nat, st: State, vs: seq<Val>, max: nat, t: seq<byte>)
    requires WellFormed(fs) && i < |fs| && (fs[i].rule.Repeated? || fs[i].rule.FixedCount?)
    requires vs != [] && forall k :: 0 <= k < |vs| ==> TypedVal(fs[i], vs[k])
    requires EncodeArray(fs[i], vs, max).Some? && |EncodeArray(fs[i], vs, max).value| < TWO63
    ensures Run(fs, st, EncodeArray(fs[i], vs, max).value + t) ==
            if FitsArray(fs[i], vs) then RunAfter(fs, Apply(fs, st, Known(i, Vals(NormalItems(fs[i], vs)))), t)
            else None
    decreases fs, 2, 0
  {
    var f := fs[i];
    assert WellFormedField(f);
    if f.ltype.Packable() {
      var body := EncodePacked(f, vs).value;
      assert EncodeArray(f, vs, max).value + t == TagBytes(WT_STRING, f.tag) + (WithLength(body) + t);
      RunTagged(fs, i, st, WT_STRING, WithLength(body) + t);
      TakeLength(body, t);
      TakeAllOfEncode(f, vs);
    } else {
      RunRecords(fs, i, st, vs, t);
    }
  }

  lemma ApplyArray(fs: seq<Field>, i: nat, m: Cells, vs: seq<Val>)
    requires WellFormed(fs) && i < |fs|
    requires Present(fs[i], At(m, fs[i].addr))
    requires match fs[i].rule
             case Repeated(max) => vs == Items(At(m, fs[i].addr)) && |vs| <= max
             case FixedCount(n) => vs == Slots(At(m, fs[i].addr), n)
             case _ => false
    ensures Apply(fs, Expected(fs, i, m), Known(i, Vals(NormalItems(fs[i], vs)))) == Some(Expected(fs, i + 1, m))
  {
    hide WellFormed, NewItems, Store, Defaults, NormalFrom;
    var f := fs[i];
    var st := Expected(fs, i, m);
    ExpectedFacts(fs, i, m);
    Untouched(fs, i, m, i);
    var c := At(st.m, f.addr);
    assert c == DefaultCell(f);
    StoreItems(f, c, 0, NormalItems(f, vs));
    if f.rule.Repeated? {
      StoreItems(f, c, st.filled, NormalItems(f, vs));
      assert Items(c) + NormalItems(f, vs) == NormalItems(f, vs);
    } else {
      var n := f.rule.size;
      assert Slots(c, n)[..0] + NormalItems(f, vs) + Slots(c, n)[n..] == NormalItems(f, vs);
    }
  }

  lemma RunField(fs: seq<Field>, i: nat, m: Cells, t: seq<byte>)
    requires WellFormed(fs) && i < |fs| && Typed(fs, m)
    requires EncodeField(fs[i], At(m, fs[i].addr)).Some?
    requires |EncodeField(fs[i], At(m, fs[i].addr)).value| < TWO63
    ensures Run(fs, Expected(fs, i, m), EncodeField(fs[i], At(m, fs[i].addr)).value + t) ==
            if FitsCell(fs[i], At(m, fs[i].addr)) then Run(fs, Expected(fs, i + 1, m), t) else None
    decreases fs, 3, 0
  {
    var f := fs[i];
    var c := At(m, f.addr);
    assert WellFormedField(f) && TypedCell(f, c);
    if !Present(f, c) {
      assert EncodeField(f, c) == Some([]);
      assert [] + t == t;
    } else if f.rule.Repeated? {
      RunArray(fs, i, Expected(fs, i, m), Items(c), f.rule.max, t);
      ApplyArray(fs, i, m, Items(c));
    } else if f.rule.FixedCount? {
      var n := f.rule.size;
      EncodedNotStale(f, Slots(c, n));
      RunArray(fs, i, Expected(fs, i, m), Slots(c, n), n, t);
      ApplyArray(fs, i, m, Slots(c, n));
    } else {
      RunSingle(fs, i, m, t);
    }
  }

  lemma RunSingle(fs: seq<Field>, i: nat, m: Cells, t: seq<byte>)
    requires WellFormed(fs) && i < |fs| && Typed(fs, m)
    requires !fs[i].rule.Repeated? && !fs[i].rule.FixedCount? && Present(fs[i], At(m, fs[i].addr))
    requires EncodeField(fs[i], At(m, fs[i].addr)).Some?
    requires |EncodeField(fs[i], At(m, fs[i].addr)).value| < TWO63
    ensures Run(fs, Expected(fs, i, m), EncodeField(fs[i], At(m, fs[i].addr)).value + t) ==
            if FitsCell(fs[i], At(m, fs[i].addr)) then Run(fs, Expected(fs, i + 1, m), t) else None
    decreases fs, 2, 0
  {
    var f := fs[i];
    var c := At(m, f.addr);
    var st := Expected(fs, i, m);
    assert WellFormedField(f) && TypedCell(f, c);
    var v := Item(c);
    assert EncodeField(f, c) == EncodeRecord(f, v);
    RunItem(fs, i, st, v, t);
    ExpectedFacts(fs, i, m);
    Untouched(fs, i, m, i);
    if Parses(f, v) {
      StoreItem(f, v, st.filled);
      assert NormalCell(f, c) == ItemCell(f, v);
      assert At(st.m, f.addr) == DefaultCell(f);
      assert UnionTagOk(fs, f, Which(DefaultCell(f)));
    }
  }

  /** Decoding the encoder's bytes from the i-th field on, over what the earlier fields left:
      exact, also when it fails. */
  lemma RunEncoded(fs: seq<Field>, i: nat, m: Cells)
    requires WellFormed(fs) && i <= |fs| && Typed(fs, m)
    requires EncodeFrom(fs, i, m).Some? && |EncodeFrom(fs, i, m).value| < TWO63
    ensures Run(fs, Expected(fs, i, m), EncodeFrom(fs, i, m).value) ==
            if FitsFrom(fs, i, m) then Some((Expected(fs, |fs|, m), [])) else None
    decreases fs, 4, |fs| - i
  {
    if i < |fs| {
      RunField(fs, i, m, EncodeFrom(fs, i + 1, m).value);
      if FitsCell(fs[i], At(m, fs[i].addr)) {
        RunEncoded(fs, i + 1, m);
      }
    }
  }

  /** The round trip, exactly: for every well-formed description and well-typed struct that the
      encoder accepts, decoding its bytes gives the struct's normal form and leaves nothing when
      every string and length fits, and fails otherwise. (No C object reaches 2^63 bytes.) */
  lemma RoundTripExact(fs: seq<Field>, m: Cells)
    requires WellFormed(fs) && Typed(fs, m)
    requires EncodeMsg(fs, m).Some? && |EncodeMsg(fs, m).value| < TWO63
    ensures DecodeMsg(fs, EncodeMsg(fs, m).value) ==
            if Fits(fs, m) then Some((NormalMsg(fs, m), [])) else None
  {
    RunEncoded(fs, 0, m);
    ExpectedFacts(fs, 0, m);
    ExpectedFacts(fs, |fs|, m);
  }
}
