/**
 What the decoder computes (pb_decode.c, static fields), as a function of the struct and the
 input bytes. None is a failed decode; the struct it leaves behind is not described. The
 decoder itself, with its streams, iterator and bitset, is in Decoder.
 */
module Decoding {
  import opened Wrappers
  import opened Varint
  import opened Integers
  import opened Schema
  import opened Encoding

  // ----- one item -----

  /** n raw bytes. */
  function Take(n: nat, s: seq<byte>): Parsed<seq<byte>> {
    if n <= |s| then Got(s[..n], s[n..]) else Bad
  }

  /** A length and that many bytes. */
  function TakeString(s: seq<byte>): Parsed<seq<byte>> {
    match Decode32(s)
    case Bad => Bad
    case Got(n, rest) => Take(n, rest)
  }

  /** A word of the given number of bytes. */
  function TakeWord(n: nat, s: seq<byte>): Parsed<Val> {
    match Take(n, s)
    case Bad => Bad
    case Got(w, rest) => Got(Num(FromLittleEndian(w)), rest)
  }

  /** An item of any type but a submessage. */
  function TakeScalar(f: Field, s: seq<byte>): (r: Parsed<Val>)
    ensures r.Got? ==> |r.rest| < |s|
  {
    match f.ltype
    case Bool =>
      (match Decode32(s)
       case Bad => Bad
       case Got(n, rest) => Got(Num(if n != 0 then 1 else 0), rest))
    case Integer(kind) =>
      (match Decode64(s)
       case Bad => Bad
       case Got(w, rest) =>
         var n := IntegerOf(kind, f.dataSize, w);
         if n.Some? then Got(Num(n.value), rest) else Bad)
    case Fixed32 => TakeWord(4, s)
    case Fixed64 => TakeWord(8, s)
    case Bytes =>
      (match Decode32(s)
       case Bad => Bad
       case Got(n, rest) =>
         if n > PbSizeMax() || n + SIZE_WIDTH > f.dataSize then Bad else TakeBlob(n, rest))
    case String =>
      (match Decode32(s)
       case Bad => Bad
       case Got(n, rest) => if n + 1 > f.dataSize then Bad else TakeBlob(n, rest))
    case FixedLengthBytes =>
      (match Decode32(s)
       case Bad => Bad
       case Got(n, rest) =>
         if n > PbSizeMax() then Bad
         else if n == 0 then Got(Blob(Zeros(f.dataSize)), rest)
         else if n != f.dataSize then Bad
         else TakeBlob(n, rest))
    case _ => Bad
  }

  function TakeBlob(n: nat, s: seq<byte>): Parsed<Val> {
    match Take(n, s)
    case Bad => Bad
    case Got(b, rest) => Got(Blob(b), rest)
  }

  /** Items up to the end of the bytes. */
  function TakeAll(f: Field, s: seq<byte>): Option<seq<Val>>
    decreases |s|
  {
    if s == [] then Some([])
    else match TakeScalar(f, s)
      case Bad => None
      case Got(v, rest) =>
        var vs :- TakeAll(f, rest);
        Some([v] + vs)
  }

  // ----- one record -----

  /** What a record carries for a field: items, or the bytes of one submessage. */
  datatype Payload = Vals(vs: seq<Val>) | Body(bytes: seq<byte>)

  /** One item: the bytes of a submessage, a value of any other type. */
  function TakeItem(f: Field, s: seq<byte>): Parsed<Payload> {
    if f.ltype.Submessage? then
      match TakeString(s)
      case Bad => Bad
      case Got(b, rest) => Got(Body(b), rest)
    else
      match TakeScalar(f, s)
      case Bad => Bad
      case Got(v, rest) => Got(Vals([v]), rest)
  }

  /** A record of an array that carries all its items at once. */
  predicate IsPacked(f: Field, wt: nat) {
    (f.rule.Repeated? || f.rule.FixedCount?) && wt == WT_STRING && f.ltype.Packable()
  }

  /** The record a field's decoder reads. The wire type matters only for packable arrays. */
  function TakePayload(f: Field, wt: nat, s: seq<byte>): Parsed<Payload> {
    if IsPacked(f, wt) then
      match TakeString(s)
      case Bad => Bad
      case Got(b, rest) =>
        var vs := TakeAll(f, b);
        if vs.Some? then Got(Vals(vs.value), rest) else Bad
    else TakeItem(f, s)
  }

  /** The bytes after a skipped value (pb_decode.c:278-331). */
  function Skip(wt: nat, s: seq<byte>): (r: Parsed<()>)
    ensures r.Got? ==> |r.rest| <= |s|
  {
    if wt == WT_VARINT then
      var n := VarintLen(s);
      if n == 0 then Bad else Got((), s[n..])
    else if wt == WT_64BIT then SkipBytes(8, s)
    else if wt == WT_STRING then
      match Decode32(s)
      case Bad => Bad
      case Got(n, rest) => SkipBytes(n, rest)
    else if wt == WT_32BIT then SkipBytes(4, s)
    else Bad
  }

  function SkipBytes(n: nat, s: seq<byte>): Parsed<()> {
    if n <= |s| then Got((), s[n..]) else Bad
  }

  /** A record: for the i-th field, or for none. */
  datatype Record = Known(i: nat, p: Payload) | Unknown

  /** The next record, or the zero tag that ends a message early. */
  datatype Head = Malformed | Stop(rest: seq<byte>) | Next(rec: Record, rest: seq<byte>) {

    function Then(t: seq<byte>): Head {
      match this
      case Malformed => Malformed
      case Stop(r) => Stop(r + t)
      case Next(rec, r) => Next(rec, r + t)
    }
  }

  /** Reads one record. In an empty description the search for tag 0 stops at the terminator
      entry, whose type bits say bool, so such a record is read as a bool. */
  function TakeRecord(fs: seq<Field>, s: seq<byte>): (h: Head)
    ensures h.Next? || h.Stop? ==> |h.rest| < |s|
  {
    match Decode32(s)
    case Bad => Malformed
    case Got(word, rest) =>
      if word == 0 then Stop(rest)
      else
        var tag, wt := word / 8, word % 8;
        if fs == [] && tag == 0 then
          match Decode32(rest)
          case Bad => Malformed
          case Got(_, rest') => Next(Unknown, rest')
        else
          var i := FindTag(fs, tag);
          if i.None? then
            match Skip(wt, rest)
            case Bad => Malformed
            case Got(_, rest') => Next(Unknown, rest')
          else
            match TakePayload(fs[i.value], wt, rest)
            case Bad => Malformed
            case Got(p, rest') => Next(Known(i.value, p), rest')
  }

  // ----- the effect of a record -----

  /** Loop state of pb_decode_noinit: the struct, the array without _count whose items are being
      collected and how many it has, and the REQUIRED fields seen (by position among them). */
  datatype State = State(m: Cells, open: Option<nat>, filled: nat, seen: set<nat>)

  const MAX_REQUIRED: nat := 64

  /** A single item after a record: scalars are replaced, submessages merged into. */
  function Replace(f: Field, was: Val, p: Payload): Option<Val>
    decreases f, 0
  {
    match (p, f.ltype)
    case (Vals(vs), _) => if |vs| == 1 then Some(vs[0]) else None
    case (Body(b), Submessage(fs)) =>
      var m :- Decode(fs, SubCells(was), b);
      Some(Msg(m.0))
    case _ => None
  }

  /** The items a record adds to an array; array entries start from the defaults. */
  function NewItems(f: Field, p: Payload): Option<seq<Val>>
    decreases f, 1
  {
    match p
    case Vals(vs) => Some(vs)
    case Body(_) =>
      var v :- Replace(f, DefaultVal(f), p);
      Some([v])
  }

  /** The cell after a record, given how many items of an array without _count are in place. */
  function Store(f: Field, c: Cell, filled: nat, p: Payload): Option<Cell>
    decreases f, 2
  {
    match f.rule
    case Required =>
      var v :- Replace(f, Item(c), p);
      Some(One(v))
    case Singular =>
      var v :- Replace(f, Item(c), p);
      Some(One(v))
    case Optional =>
      var v :- Replace(f, Item(c), p);
      Some(Opt(true, v))
    case Repeated(max) =>
      var vs :- NewItems(f, p);
      if vs == [] || |Items(c)| + |vs| <= max then Some(Arr(Items(c) + vs)) else None
    case FixedCount(n) =>
      var vs :- NewItems(f, p);
      if filled + |vs| <= n then
        var was := Slots(c, n);
        Some(Fixed(was[..filled] + vs + was[filled + |vs|..]))
      else None
    case Oneof =>
      var was := if f.ltype.Submessage? && Which(c) != f.tag then DefaultVal(f) else Item(c);
      var v :- Replace(f, was, p);
      Some(Union(f.tag, v))
  }

  /** The fixed-count tracker when a record of field i arrives. */
  function OpenArray(fs: seq<Field>, st: State, i: nat): Option<State>
    requires i < |fs|
  {
    if !fs[i].rule.FixedCount? || st.open == Some(i) then Some(st)
    else if !ArrayComplete(fs, st) then None
    else Some(st.(open := Some(i), filled := 0))
  }

  predicate ArrayComplete(fs: seq<Field>, st: State) {
    match st.open
    case None => true
    case Some(i) => i < |fs| && fs[i].rule.FixedCount? && st.filled == fs[i].rule.size
  }

  /** A which_ value the oneof handling accepts: none, the new field, or some other field. */
  predicate UnionTagOk(fs: seq<Field>, f: Field, which: nat) {
    f.rule.Oneof? && which != 0 && which != f.tag ==> FindTag(fs, which).Some?
  }

  /** Number of items in a payload. */
  function Count(p: Payload): nat {
    if p.Vals? then |p.vs| else 1
  }

  function MarkSeen(fs: seq<Field>, i: nat, seen: set<nat>): set<nat>
    requires i < |fs|
  {
    var r := RequiredBefore(fs, i);
    if fs[i].rule.Required? && r < MAX_REQUIRED then seen + {r} else seen
  }

  function Apply(fs: seq<Field>, st: State, r: Record): Option<State>
    decreases fs, 0
  {
    match r
    case Unknown => Some(st)
    case Known(i, p) =>
      if i >= |fs| then None
      else
        var f := fs[i];
        var c := At(st.m, f.addr);
        var st1 :- OpenArray(fs, st, i);
        if !UnionTagOk(fs, f, Which(c)) then None
        else
          var c' :- Store(f, c, st1.filled, p);
          Some(State(st1.m[f.addr := c'], st1.open,
                     if f.rule.FixedCount? then st1.filled + Count(p) else st1.filled,
                     MarkSeen(fs, i, st1.seen)))
  }

  // ----- the loop -----

  /** All records up to the end of the bytes or a zero tag; with the bytes left. */
  function Run(fs: seq<Field>, st: State, s: seq<byte>): Option<(State, seq<byte>)>
    decreases fs, 1, |s|
  {
    if s == [] then Some((st, []))
    else match TakeRecord(fs, s)
      case Malformed => None
      case Stop(rest) => Some((st, rest))
      case Next(r, rest) =>
        var st' :- Apply(fs, st, r);
        Run(fs, st', rest)
  }

  /** The checks after the loop: the last array without _count is full, and the first 64
      REQUIRED fields were seen. */
  predicate Complete(fs: seq<Field>, st: State) {
    && ArrayComplete(fs, st)
    && forall r :: 0 <= r < RequiredBefore(fs, |fs|) && r < MAX_REQUIRED ==> r in st.seen
  }

  /** How one turn of the loop ends. */
  datatype Verdict = Continue | Finished | Failed

  function Start(m: Cells): State {
    State(m, None, 0, {})
  }

  /** pb_decode_noinit: the struct afterwards and the bytes left. */
  function Decode(fs: seq<Field>, m: Cells, s: seq<byte>): Option<(Cells, seq<byte>)>
    decreases fs, 2
  {
    var r :- Run(fs, Start(m), s);
    if Complete(fs, r.0) then Some((r.0.m, r.1)) else None
  }

  /** pb_decode: from the defaults. */
  function DecodeMsg(fs: seq<Field>, s: seq<byte>): Option<(Cells, seq<byte>)> {
    Decode(fs, Defaults(fs, |fs|), s)
  }
}
