/**
 The wire format in numbers: the bytes that fields become (pb_encode.c:147-232, 552-912), and what
 any such bytes, also ones this encoder would not write, are read as (pb_decode.c:406-483,
 1279-1564).
 */
module Wire {
  import opened Wrappers
  import opened Varint
  import opened Integers
  import opened Schema
  import opened Encoding
  import opened Decoding
  import opened RoundTrip
  import opened Runs

  // ----- what is written -----

  /** Integers of every width are written as 64-bit words, so a negative signed one takes ten
      bytes. */
  lemma IntegerOnWire(f: Field, n: int, t: seq<byte>)
    requires WellFormedField(f) && f.ltype.Integer? && InRange(f.ltype.kind, f.dataSize, n)
    ensures -TWO63 <= n
    ensures var w := WordOf(f.ltype.kind, n);
            && EncodeScalar(f, Num(n)) == Some(Encode(w))
            && Decode64(Encode(w) + t) == Got(w, t)
            && (f.ltype.kind.Signed? && n < 0 ==> |Encode(w)| == 10)
  {
    hide Encode, Decode64;
    IntegerRoundTrip(f.ltype.kind, f.dataSize, n);
    var w := WordOf(f.ltype.kind, n);
    RoundTrip64(w, t);
    if f.ltype.kind.Signed? && n < 0 {
      EncodeTenBytes(w);
    }
  }

  /** A fixed-width word is written lowest byte first, a bool as one byte, and anything else but
      an integer as a length and that many bytes. */
  lemma ItemOnWire(f: Field, v: Val, t: seq<byte>)
    requires WellFormedField(f) && TypedVal(f, v) && EncodeVal(f, v).Some?
    ensures var e := EncodeVal(f, v).value;
            && (f.ltype.Bool? ==> e == [v.n])
            && (f.ltype.Fixed32? ==> |e| == 4 && v.n == FourBytes(e[0], e[1], e[2], e[3]))
            && (f.ltype.Fixed64? ==>
                  |e| == 8 && v.n == FourBytes(e[0], e[1], e[2], e[3]) + TWO32 * FourBytes(e[4], e[5], e[6], e[7]))
            && (f.ltype.Bytes? || f.ltype.FixedLengthBytes? ==> Decode32(e + t) == Got(|v.bytes|, v.bytes + t))
            && (f.ltype.String? ==> Decode32(e + t) == Got(|CString(v.bytes)|, CString(v.bytes) + t))
  {
    hide Encode, Decode32, LittleEndian, FromLittleEndian;
    match f.ltype
    case Bool => assert Encode(v.n) == [v.n] by { SmallVarint(v.n); }
    case Fixed32 => WordOnWire(v.n, 4);
    case Fixed64 => WordOnWire(v.n, 8);
    case Bytes => TakeLength(v.bytes, t);
    case FixedLengthBytes => TakeLength(v.bytes, t);
    case String => TakeLength(CString(v.bytes), t);
    case _ =>
  }

  lemma SmallVarint(n: nat)
    requires n < 128
    ensures Encode(n) == [n]
  {
  }

  lemma WordOnWire(n: nat, size: nat)
    requires (size == 4 && n < TWO32) || (size == 8 && n < TWO64)
    ensures ToUnsigned(n, size) == n
    ensures var e := LittleEndian(n, size);
            n == FourBytes(e[0], e[1], e[2], e[3]) + if size == 4 then 0 else TWO32 * FourBytes(e[4], e[5], e[6], e[7])
  {
    hide LittleEndian, FromLittleEndian, FourBytes, Pow2;
    Pow2Words();
    LittleEndianRoundTrip(n, size);
    var e := LittleEndian(n, size);
    assert n == FromLittleEndian(e);
    WordBytes(e);
  }

  /** The wire types: 0 for varints, 1 for eight bytes, 5 for four bytes, 2 for the rest. */
  function TypeNumber(lt: LType): (n: nat)
    ensures n < 8
  {
    if lt.Bool? || lt.Integer? then 0
    else if lt.Fixed64? then 1
    else if lt.Fixed32? then 5
    else 2
  }

  lemma TagOnWire(wt: nat, tag: nat, t: seq<byte>)
    requires wt < 8 && tag < 0x2000_0000
    ensures Decode32(TagBytes(wt, tag) + t) == Got(8 * tag + wt, t)
  {
    Decode32OfEncode(8 * tag + wt, t);
  }

  /** A record starts with eight times the field number plus its wire type; the item follows. */
  lemma RecordOnWire(f: Field, v: Val, t: seq<byte>)
    requires WellFormedField(f) && EncodeRecord(f, v).Some?
    ensures EncodeVal(f, v).Some?
    ensures Decode32(EncodeRecord(f, v).value + t) == Got(8 * f.tag + TypeNumber(f.ltype), EncodeVal(f, v).value + t)
  {
    hide TagBytes, Decode32, EncodeVal;
    var body := EncodeVal(f, v).value;
    var wt := WireType(f.ltype);
    assert wt == TypeNumber(f.ltype);
    assert TagBytes(wt, f.tag) + body + t == TagBytes(wt, f.tag) + (body + t);
    TagOnWire(wt, f.tag, body + t);
  }

  /** Arrays of numbers are written packed: wire type 2, the length of all items, the items. Other
      arrays are written as one record for each item. */
  lemma ArrayOnWire(f: Field, vs: seq<Val>, max: nat, t: seq<byte>)
    requires WellFormedField(f) && vs != [] && EncodeArray(f, vs, max).Some?
    ensures var e := EncodeArray(f, vs, max).value;
            if f.ltype.Bool? || f.ltype.Integer? || f.ltype.Fixed32? || f.ltype.Fixed64? then
              var body := EncodePacked(f, vs);
              && body.Some? && Decode32(e + t) == Got(8 * f.tag + 2, WithLength(body.value) + t)
              && (|body.value| < TWO32 ==> Decode32(WithLength(body.value) + t) == Got(|body.value|, body.value + t))
            else EncodeRecords(f, vs) == Some(e)
  {
    hide TagBytes, Decode32, EncodePacked, EncodeRecords, WithLength;
    if f.ltype.Packable() {
      var body := EncodePacked(f, vs).value;
      var e := EncodeArray(f, vs, max).value;
      assert e + t == TagBytes(2, f.tag) + (WithLength(body) + t);
      TagOnWire(2, f.tag, WithLength(body) + t);
      if |body| < TWO32 { TakeLength(body, t); }
    }
  }

  function Joined(a: Option<seq<byte>>, b: Option<seq<byte>>): Option<seq<byte>> {
    if a.Some? && b.Some? then Some(a.value + b.value) else None
  }

  lemma JoinedJoined(a: Option<seq<byte>>, b: Option<seq<byte>>, c: Option<seq<byte>>)
    ensures Joined(Joined(a, b), c) == Joined(a, Joined(b, c))
  {
    if a.Some? && b.Some? && c.Some? {
      assert a.value + b.value + c.value == a.value + (b.value + c.value);
    }
  }

  lemma JoinedNothing(b: Option<seq<byte>>)
    ensures Joined(Some([]), b) == b
  {
    if b.Some? {
      assert [] + b.value == b.value;
    }
  }

  /** The items of an array are written in order, nothing between them. */
  lemma {:induction false} ItemsInOrder(f: Field, a: seq<Val>, b: seq<Val>)
    ensures EncodePacked(f, a + b) == Joined(EncodePacked(f, a), EncodePacked(f, b))
    ensures EncodeRecords(f, a + b) == Joined(EncodeRecords(f, a), EncodeRecords(f, b))
    decreases |a|
  {
    hide EncodeScalar, EncodeRecord;
    if a == [] {
      assert a + b == b;
      JoinedNothing(EncodePacked(f, b));
      JoinedNothing(EncodeRecords(f, b));
    } else {
      assert (a + b)[1..] == a[1..] + b;
      ItemsInOrder(f, a[1..], b);
      JoinedJoined(EncodeScalar(f, a[0]), EncodePacked(f, a[1..]), EncodePacked(f, b));
      JoinedJoined(EncodeRecord(f, a[0]), EncodeRecords(f, a[1..]), EncodeRecords(f, b));
    }
  }

  lemma {:induction false} LaterFields(a: seq<Field>, b: seq<Field>, j: nat, m: Cells)
    requires j <= |b|
    ensures EncodeFrom(a + b, |a| + j, m) == EncodeFrom(b, j, m)
    decreases |b| - j
  {
    hide EncodeField;
    if j < |b| {
      LaterFields(a, b, j + 1, m);
    }
  }

  lemma {:induction false} EarlierFields(a: seq<Field>, b: seq<Field>, i: nat, m: Cells)
    requires i <= |a|
    ensures EncodeFrom(a + b, i, m) == Joined(EncodeFrom(a, i, m), EncodeMsg(b, m))
    decreases |a| - i
  {
    hide EncodeField;
    if i == |a| {
      LaterFields(a, b, 0, m);
      JoinedNothing(EncodeMsg(b, m));
    } else {
      EarlierFields(a, b, i + 1, m);
      JoinedJoined(EncodeField(a[i], At(m, a[i].addr)), EncodeFrom(a, i + 1, m), EncodeMsg(b, m));
    }
  }

  /** The fields of a message are written in the order of the description: the bytes for a
      description in two parts are those for the first and then those for the second. */
  lemma FieldsInOrder(a: seq<Field>, b: seq<Field>, m: Cells)
    ensures EncodeMsg(a + b, m) == Joined(EncodeMsg(a, m), EncodeMsg(b, m))
  {
    EarlierFields(a, b, 0, m);
  }

  // ----- what is read -----

  /** Any varint, shortest or not, as a bool or integer: false only for zero, and an integer exactly
      when it has at most ten bytes and its word stands for a number the field can hold. */
  lemma VarintFromWire(f: Field, v: seq<byte>, t: seq<byte>)
    requires WellFormedField(f) && IsVarint(v)
    ensures f.ltype.Bool? && Denote(v) < TWO32 ==>
              TakeScalar(f, v + t) == Got(Num(if Denote(v) == 0 then 0 else 1), t)
    ensures f.ltype.Integer? ==>
              var n := WordValue(f.ltype.kind, f.dataSize, Denote(v) % TWO64);
              TakeScalar(f, v + t) ==
              if |v| <= 10 && InRange(f.ltype.kind, f.dataSize, n) then Got(Num(n), t) else Bad
  {
    hide Denote, Decode32, Decode64, WordValue, IntegerOf;
    if f.ltype.Bool? && Denote(v) < TWO32 {
      Decode32OfPadded(v, t);
    }
    if f.ltype.Integer? {
      Decode64Exact(v, t);
      IntegerAccepts(f.ltype.kind, f.dataSize, Denote(v) % TWO64);
    }
  }

  /** Four or eight bytes as a word, the lowest first. */
  lemma WordFromWire(f: Field, b: seq<byte>, t: seq<byte>)
    ensures f.ltype.Fixed32? && |b| == 4 ==>
              TakeScalar(f, b + t) == Got(Num(FourBytes(b[0], b[1], b[2], b[3])), t)
    ensures f.ltype.Fixed64? && |b| == 8 ==>
              TakeScalar(f, b + t) ==
              Got(Num(FourBytes(b[0], b[1], b[2], b[3]) + TWO32 * FourBytes(b[4], b[5], b[6], b[7])), t)
  {
    hide FromLittleEndian, FourBytes;
    WordBytes(b);
    TakeExact(b, t);
  }

  /** Any length and that many bytes. A byte array must fit its member behind its size and a string
      with a NUL; a member of fixed length must be given in full, or as nothing for all zeros. */
  lemma BytesFromWire(f: Field, v: seq<byte>, b: seq<byte>, t: seq<byte>)
    requires WellFormedField(f) && IsVarint(v) && Denote(v) == |b| && |b| < TWO32
    ensures f.ltype.Bytes? ==>
              TakeScalar(f, v + (b + t)) == if |b| + SIZE_WIDTH <= f.dataSize then Got(Blob(b), t) else Bad
    ensures f.ltype.String? ==> TakeScalar(f, v + (b + t)) == if |b| < f.dataSize then Got(Blob(b), t) else Bad
    ensures f.ltype.FixedLengthBytes? ==>
              TakeScalar(f, v + (b + t)) ==
              if b == [] then Got(Blob(Zeros(f.dataSize)), t)
              else if |b| == f.dataSize then Got(Blob(b), t)
              else Bad
  {
    hide Denote, Decode32;
    Decode32OfPadded(v, b + t);
    TakeExact(b, t);
    assert [] + t == t;
  }

  /** The wire type of a record for a known field is not looked at, unless it is an array of numbers
      and one of the types is 2, which makes the record a packed one. */
  lemma WireTypeIgnored(fs: seq<Field>, i: nat, wt: nat, wt': nat, s: seq<byte>)
    requires WellFormed(fs) && i < |fs| && wt < 8 && wt' < 8
    requires (fs[i].rule.Repeated? || fs[i].rule.FixedCount?) && fs[i].ltype.Packable() ==> (wt == 2 <==> wt' == 2)
    ensures TakeRecord(fs, Encode(8 * fs[i].tag + wt) + s) == TakeRecord(fs, Encode(8 * fs[i].tag + wt') + s)
  {
    hide TakeRecord, WellFormed, TakeItem;
    TakeTagged(fs, i, wt, s);
    TakeTagged(fs, i, wt', s);
  }

  // ----- packed arrays -----

  /** The bytes are one item and no more. */
  predicate IsItem(f: Field, p: seq<byte>) {
    TakeScalar(f, p).Got? && TakeScalar(f, p).rest == []
  }

  function Flat(ps: seq<seq<byte>>): seq<byte> {
    if ps == [] then [] else ps[0] + Flat(ps[1..])
  }

  /** A packed body made of items is read as these items. */
  lemma {:induction false} ItemsFromWire(f: Field, ps: seq<seq<byte>>)
    requires forall k :: 0 <= k < |ps| ==> IsItem(f, ps[k])
    ensures var vs := TakeAll(f, Flat(ps));
            vs.Some? && |vs.value| == |ps| && forall k :: 0 <= k < |ps| ==> TakeScalar(f, ps[k]) == Got(vs.value[k], [])
    decreases |ps|
  {
    hide TakeScalar;
    if ps != [] {
      var p, rest := ps[0], Flat(ps[1..]);
      assert IsItem(f, p);
      TakeScalarExtends(f, p, rest);
      assert [] + rest == rest;
      ItemsFromWire(f, ps[1..]);
      assert |TakeScalar(f, p).rest| < |p|;
      var others := TakeAll(f, rest).value;
      assert TakeAll(f, p + rest) == Some([TakeScalar(f, p).val] + others);
      assert forall k :: 0 < k < |ps| ==> ps[k] == ps[1..][k - 1];
    }
  }

  /** And only such bodies are read: whatever is read as some items is made of as many. */
  lemma {:induction false} ItemsOfBody(f: Field, s: seq<byte>) returns (ps: seq<seq<byte>>)
    requires f.ltype.Packable() && TakeAll(f, s).Some?
    ensures Flat(ps) == s && |ps| == |TakeAll(f, s).value|
    ensures forall k :: 0 <= k < |ps| ==> IsItem(f, ps[k])
    decreases |s|
  {
    hide TakeScalar;
    if s == [] {
      ps := [];
    } else {
      var rest := TakeScalar(f, s).rest;
      ItemInFront(f, s);
      var others := ItemsOfBody(f, rest);
      ps := [s[..|s| - |rest|]] + others;
      assert ps[1..] == others;
    }
  }

  lemma ItemInFront(f: Field, s: seq<byte>)
    requires f.ltype.Packable() && TakeScalar(f, s).Got?
    ensures var n := |s| - |TakeScalar(f, s).rest|;
            0 <= n && s[..n] + TakeScalar(f, s).rest == s && IsItem(f, s[..n])
  {
    if f.ltype.Bool? || f.ltype.Integer? {
      var n := VarintLen(s);
      VarintLenShape(s);
      VarintShape(s[..n], []);
      assert s[..n] + [] == s[..n] && s[..n][..n] == s[..n];
    } else {
      var n := if f.ltype.Fixed32? then 4 else 8;
      assert s[..n][..n] == s[..n];
    }
  }
}
