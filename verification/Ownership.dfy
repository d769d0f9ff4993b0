/**
 Heap ownership with PB_ENABLE_MALLOC (pb_decode.c:403-678, 734-760, 928-1090, 1131-1162,
 1424-1541): what decoding, failing and releasing do to the live blocks.

 Field values are read from the stream but not kept. An allocation may fail at any time. Left to
 chance, as no memory depends on it: whether an array of numbers in the struct is full, and whether
 the arrays of numbers without _count are complete at the end.
 */
module Ownership {
  import opened Wrappers
  import opened Varint
  import opened Schema
  import opened Encoding
  import opened Decoding
  import opened InputStream
  import opened Heap
  import opened Layout
  import opened Releasing
  import opened Feeding
  import opened Depth
  import Decoder

  // ----- what went wrong on the way -----

  /** The nesting of submessages; blocks freed or reached without being owned; owned blocks that
      nothing reaches any more. */
  datatype Toll = Toll(depth: nat, lost: multiset<nat>, leaked: multiset<nat>)

  function NoToll(depth: nat): Toll {
    Toll(depth, multiset{}, multiset{})
  }

  /** How an operation moved the live blocks: exactly from what the memory owned to what it
      reaches, but for the toll. Success takes no toll, and the heap breaks only when blocks are
      lost. */
  ghost predicate Outcome(ok: bool, before: multiset<nat>, after: multiset<nat>, broken: bool,
                          a: multiset<nat>, b: multiset<nat>, toll: Toll)
  {
    && (ok ==> toll.lost == multiset{} && toll.leaked == multiset{})
    && (toll.lost == multiset{} ==> !broken)
    && (!broken ==> Balanced(before, after, a, b, toll.lost, toll.leaked))
  }

  lemma Smooth(ok: bool, before: multiset<nat>, after: multiset<nat>, a: multiset<nat>, b: multiset<nat>, depth: nat)
    requires Moves(before, after, a, b)
    ensures Outcome(ok, before, after, false, a, b, NoToll(depth))
  {
    MovesIsBalanced(before, after, a, b);
  }

  lemma Untouched(ok: bool, live: multiset<nat>, a: multiset<nat>, depth: nat)
    ensures Outcome(ok, live, live, false, a, a, NoToll(depth)) && Moves(live, live, a, a)
  {
    Smooth(ok, live, live, a, a, depth);
  }

  lemma OutcomeThen(ok: bool, l0: multiset<nat>, l1: multiset<nat>, l2: multiset<nat>, broken: bool,
                    a: multiset<nat>, b: multiset<nat>, c: multiset<nat>, toll: Toll)
    requires Moves(l0, l1, a, b) && Outcome(ok, l1, l2, broken, b, c, toll)
    ensures Outcome(ok, l0, l2, broken, a, c, toll)
  {
    if !broken {
      MovesThen(l0, l1, l2, a, b, c, toll.lost, toll.leaked);
    }
  }

  lemma OutcomeBeside(ok: bool, before: multiset<nat>, after: multiset<nat>, broken: bool,
                      a: multiset<nat>, b: multiset<nat>, r: multiset<nat>, toll: Toll)
    requires Outcome(ok, before, after, broken, a, b, toll)
    ensures Outcome(ok, before, after, broken, a + r, b + r, toll)
  {
    if !broken {
      BalancedBeside(before, after, a, b, r, toll.lost, toll.leaked);
    }
  }

  lemma OutcomeMoves(before: multiset<nat>, after: multiset<nat>, broken: bool,
                     a: multiset<nat>, b: multiset<nat>, toll: Toll)
    requires Outcome(true, before, after, broken, a, b, toll)
    ensures !broken && Moves(before, after, a, b)
    ensures a <= before ==> b <= after
  {
    MovesIsBalanced(before, after, a, b);
    if a <= before {
      MovesWithin(before, after, a, b);
    }
  }

  // ----- arrays that can wrap -----

  predicate OwningField(ts: Table, ty: nat, f: HField)
    decreases ty, 0
  {
    f.pointer || (f.kind.Sub? && f.kind.ty < ty && Owning(ts, f.kind.ty))
  }

  /** Structs of the type can own a block. */
  predicate Owning(ts: Table, ty: nat)
    decreases ty, 1
  {
    ty < |ts| && exists i :: 0 <= i < |ts[ty]| && OwningField(ts, ty, ts[ty][i])
  }

  predicate FieldNoWrap(ts: Table, f: HField) {
    !f.pointer && f.kind.Sub? && f.rule.Repeated? && Owning(ts, f.kind.ty) ==> f.rule.max < PbSizeMax()
  }

  /** Every embedded array of structs that can own a block has fewer than PB_SIZE_MAX entries. */
  predicate NoWrap(ts: Table) {
    forall ty, i :: 0 <= ty < |ts| && 0 <= i < |ts[ty]| ==> FieldNoWrap(ts, ts[ty][i])
  }

  /** Structs of other types own nothing. */
  lemma {:induction false} NotOwning(ts: Table, ty: nat, m: Mem, strict: bool)
    requires TableOk(ts) && ShapedMsg(ts, ty, m, strict) && !Owning(ts, ty)
    ensures Ids(m) == multiset{}
    decreases m, 1
  {
    forall s | 0 <= s < |m.cells|
      ensures Ids(m.cells[s]) == multiset{}
    {
      NotOwningSlot(ts, ty, s, m.cells[s], strict);
    }
    AllEmpty(m.cells, |m.cells|);
  }

  lemma {:induction false} NotOwningSlot(ts: Table, ty: nat, s: nat, c: Mem, strict: bool)
    requires TableOk(ts) && ty < |ts| && s < |ts[ty]| && ShapedSlot(ts, ts[ty], s, c, strict) && !Owning(ts, ty)
    ensures Ids(c) == multiset{}
    decreases c, 3
  {
    hide TableOk;
    var f := ts[ty][s];
    FieldFacts(ts, ty, s);
    if f.slot == s {
      if f.rule.Oneof? {
        OneOfIds(c);
        var j := FindField(ts[ty], c.which);
        if c.which != 0 && j.Some? && ts[ty][j.value].slot == s && ts[ty][j.value].rule.Oneof? {
          FieldFacts(ts, ty, j.value);
          NotOwningField(ts, ty, ts[ty][j.value], c.mem, strict);
        }
      } else {
        NotOwningField(ts, ty, f, c, strict);
      }
    }
  }

  lemma {:induction false} NotOwningField(ts: Table, ty: nat, f: HField, c: Mem, strict: bool)
    requires TableOk(ts) && ShapedField(ts, f, c, strict) && !OwningField(ts, ty, f)
    requires f.kind.Sub? && !f.pointer ==> f.kind.ty < ty
    ensures Ids(c) == multiset{}
    decreases c, 2
  {
    hide TableOk;
    if f.kind.Sub? {
      if f.rule.Repeated? {
        forall k | 0 <= k < |c.items|
          ensures Ids(c.items[k]) == multiset{}
        {
          NotOwning(ts, f.kind.ty, c.items[k], strict && k < c.count);
        }
        ArrayIds(c);
        AllEmpty(c.items, Min(c.count, |c.items|));
      } else {
        NotOwning(ts, f.kind.ty, c, strict);
      }
    }
  }

  // ----- allocation -----

  function IdOf(block: Option<Block>): multiset<nat> {
    if block.None? then multiset{} else multiset{block.value.id}
  }

  /** allocate_field: room for arraySize entries of dataSize bytes. */
  method AllocateField(heap: Allocator, was: Option<Block>, dataSize: nat, arraySize: nat) returns (id: Option<nat>)
    requires heap.Valid() && IdOf(was) <= heap.live
    modifies heap`live, heap`next
    ensures heap.Valid()
    ensures id.None? ==> heap.live == old(heap.live)
    ensures id.Some? ==>
              && dataSize * arraySize > 0
              && Moves(old(heap.live), heap.live, IdOf(was), multiset{id.value})
    ensures id.Some? && dataSize <= SIZE_MAX && arraySize <= SIZE_MAX ==> dataSize * arraySize <= SIZE_MAX
  {
    if dataSize == 0 || arraySize == 0 {
      return None;
    }
    if SizeTooLarge(dataSize, arraySize) {
      return None;
    }
    if dataSize <= SIZE_MAX && arraySize <= SIZE_MAX {
      SizeGuardExact(dataSize, arraySize);
    }
    Positive(dataSize, arraySize);
    assert was.Some? ==> was.value.id in IdOf(was);
    id := heap.Realloc(was);
  }

  lemma Positive(a: nat, b: nat)
    requires a > 0 && b > 0
    ensures a * b > 0
  {
  }

  // ----- single values -----

  /** A value of a static field; for arrays of numbers, whether there is a free entry is left
      open. */
  method ReadValue(stream: IStream, f: HField, wireType: nat) returns (ok: bool)
    requires stream.Valid() && f.kind.Value? && !f.kind.f.ltype.Submessage? && !f.pointer
    modifies stream
    ensures stream.Valid() && stream.End() <= old(stream.End()) && (ok ==> stream.End() == old(stream.End()))
    ensures ok ==> stream.left <= old(stream.left)
    ensures !f.rule.Repeated? ==> (ok <==> TakeScalar(f.kind.f, old(stream.Rest())).Got?)
    ensures ok ==> TakeMember(f, wireType, old(stream.Rest())).Got?
    ensures ok ==> TakeMember(f, wireType, old(stream.Rest())).rest == stream.Rest()
  {
    var full: bool := *;
    if f.rule.Repeated? && wireType == WT_STRING && f.kind.f.ltype.Packable() {
      var made, substream := stream.MakeSubstream();
      if !made {
        return false;
      }
      ghost var stop, left := substream.End(), stream.left;
      ok := true;
      while ok && substream.left > 0 && !full
        invariant substream.Valid() && substream.End() == stop && fresh(substream)
        invariant stream.Valid() && stream.End() <= old(stream.End()) && stream.left == left
        decreases ok, substream.left
      {
        ok := ReadScalar(substream, f.kind.f);
        full := *;
      }
      if substream.left != 0 {
        return false;
      }
      var _ := stream.CloseSubstream(substream);
      assert stream.Rest() == stream.buf[stop..old(stream.End())];
      return;
    }
    if f.rule.Repeated? && full {
      return false;
    }
    ok := ReadScalar(stream, f.kind.f);
  }

  /** One value: the stream moves on. */
  method ReadScalar(stream: IStream, f: Field) returns (ok: bool)
    requires stream.Valid() && !f.ltype.Submessage?
    modifies stream
    ensures stream.Valid() && stream.End() == old(stream.End())
    ensures ok <==> TakeScalar(f, old(stream.Rest())).Got?
    ensures ok ==> TakeScalar(f, old(stream.Rest())).rest == stream.Rest() && stream.left < old(stream.left)
  {
    ghost var rest := stream.Rest();
    var v;
    ok, v := Decoder.DecScalar(stream, f);
    assert ok ==> |TakeScalar(f, rest).rest| < |rest|;
  }

  lemma FlatBlock(block: Option<Block>)
    requires block.Some? ==> block.value.items == []
    ensures Ids(Ptr(block)) == IdOf(block)
  {
  }

  /** The bytes a text block needs besides the text: the size in front of a byte array, the NUL behind
      a string. */
  function Overhead(f: Field): nat {
    if f.ltype.Bytes? then SIZE_WIDTH else 1
  }

  /** pb_read into a block, behind a header, and a NUL after it: there is room for all of it. */
  method ReadBytes(stream: IStream, block: Block, header: nat, size: nat, trailer: nat) returns (ok: bool)
    requires stream.Valid() && header + size + trailer <= block.capacity
    modifies stream
    ensures stream.Valid() && stream.End() == old(stream.End())
    ensures ok <==> Take(size, old(stream.Rest())).Got?
    ensures ok ==> Take(size, old(stream.Rest())).rest == stream.Rest()
  {
    var data;
    ok, data := stream.Read(size);
  }

  /** pb_dec_string and pb_dec_bytes for a pointer: the block holds the text and its overhead. */
  method ReadText(stream: IStream, heap: Allocator, f: Field, c: Mem) returns (ok: bool, r: Mem)
    requires stream.Valid() && heap.Valid() && ShapedText(c) && Ids(c) <= heap.live
    requires f.ltype.String? || f.ltype.Bytes?
    modifies stream, heap`live, heap`next
    ensures stream.Valid() && stream.End() <= old(stream.End()) && (ok ==> stream.End() == old(stream.End()))
    ensures ok ==> stream.left <= old(stream.left)
    ensures ok ==> TakeString(old(stream.Rest())).Got? && TakeString(old(stream.Rest())).rest == stream.Rest()
    ensures ok ==> r.Ptr? && r.block.Some?
    ensures ok ==> r.block.value.capacity == |TakeString(old(stream.Rest())).val| + Overhead(f)
    ensures heap.Valid() && Moves(old(heap.live), heap.live, Ids(c), Ids(r)) && ShapedText(r)
  {
    hide Ids, IdOf, Moves, Allocator.Valid;
    r := c;
    Untouched(true, heap.live, Ids(c), 0);
    var got, size := stream.DecodeVarint32();
    if !got || (f.ltype.Bytes? && size > PbSizeMax()) {
      return false, r;
    }
    var allocSize := if f.ltype.Bytes? then size + SIZE_WIDTH else size + 1;
    if (f.ltype.String? && size + 1 == TWO32) || stream.left < size {
      return false, r;
    }
    FlatBlock(c.block);
    var id := AllocateField(heap, c.block, allocSize, 1);
    if id.None? {
      return false, r;
    }
    var block := Block(id.value, allocSize, []);
    r := Ptr(Some(block));
    FlatBlock(r.block);
    BlockId(id.value, allocSize, []);
    if f.ltype.Bytes? {
      ok := ReadBytes(stream, block, SIZE_WIDTH, size, 0);
    } else {
      ok := ReadBytes(stream, block, 0, size, 1);
    }
  }

  lemma BlockId(id: nat, capacity: nat, items: seq<Mem>)
    ensures IdOf(Some(Block(id, capacity, items))) == multiset{id}
    ensures IdOf(None) == multiset{}
  {
  }

  // ----- packed arrays of numbers -----

  /** The capacity asked for when a packed array is full: enough for the remaining bytes, unless
      that would pass PB_SIZE_MAX. */
  function NextCapacity(reserved: nat, bytesLeft: nat, dataSize: nat): nat
    requires reserved <= PbSizeMax() && bytesLeft > 0 && dataSize > 0
  {
    var remain := (bytesLeft - 1) / dataSize + 1;
    if remain < PbSizeMax() - reserved then reserved + remain else reserved + 1
  }

  /** Growing keeps the capacity above the write index and at most PB_SIZE_MAX. */
  lemma GrowthIsSafe(size: nat, reserved: nat, bytesLeft: nat, dataSize: nat)
    requires size <= reserved <= PbSizeMax() && size < PbSizeMax() && size + 1 > reserved
    requires bytesLeft > 0 && dataSize > 0
    ensures size < NextCapacity(reserved, bytesLeft, dataSize) <= PbSizeMax()
  {
    Quotient(bytesLeft - 1, dataSize);
  }

  lemma Quotient(a: nat, b: nat)
    requires b > 0
    ensures a / b >= 0
  {
  }

  /** An array of numbers: inside its block, and its entries own nothing. */
  predicate Numbers(count: nat, block: Option<Block>) {
    && (block.None? ==> count == 0)
    && (block.Some? ==> block.value.items == [] && count <= block.value.capacity <= PbSizeMax())
  }

  lemma NumbersIds(count: nat, block: Option<Block>)
    requires Numbers(count, block)
    ensures Ids(PtrArray(count, block)) == IdOf(block)
  {
  }

  /** One number, written to an entry of the block: there is room for it. */
  method ReadIntoBlock(stream: IStream, f: Field, block: Block, index: nat) returns (ok: bool)
    requires stream.Valid() && !f.ltype.Submessage? && index < block.capacity
    modifies stream
    ensures stream.Valid() && stream.End() == old(stream.End())
    ensures ok <==> TakeScalar(f, old(stream.Rest())).Got?
    ensures ok ==> TakeScalar(f, old(stream.Rest())).rest == stream.Rest() && stream.left < old(stream.left)
  {
    ok := ReadScalar(stream, f);
  }

  /** The loop of the packed case of decode_pointer_field: every write is inside the block that is
      live, and the capacity at most PB_SIZE_MAX, through every growth. */
  method DecodeNumbers(substream: IStream, heap: Allocator, f: Field, dataSize: nat, count: nat, was: Option<Block>)
    returns (ok: bool, size: nat, block: Option<Block>)
    requires substream.Valid() && heap.Valid() && dataSize > 0 && !f.ltype.Submessage? && Numbers(count, was)
    requires IdOf(was) <= heap.live
    modifies substream, heap`live, heap`next
    ensures substream.Valid() && substream.End() == old(substream.End())
    ensures heap.Valid() && Moves(old(heap.live), heap.live, IdOf(was), IdOf(block)) && IdOf(block) <= heap.live
    ensures Numbers(size, block) && count <= size
    ensures ok ==> substream.left == 0
  {
    hide IdOf, Moves, Allocator.Valid, NextCapacity;
    Untouched(true, heap.live, IdOf(was), 0);
    ok, size, block := true, count, was;
    var allocatedSize: nat := size;
    while ok && substream.left > 0
      invariant substream.Valid() && substream.End() == old(substream.End())
      invariant count <= size <= allocatedSize <= PbSizeMax()
      invariant Numbers(size, block) && allocatedSize <= if block.Some? then block.value.capacity else 0
      invariant heap.Valid() && Moves(old(heap.live), heap.live, IdOf(was), IdOf(block)) && IdOf(block) <= heap.live
      decreases ok, substream.left
    {
      if size == PbSizeMax() {
        return false, size, block;
      }
      if size + 1 > allocatedSize {
        var capacity := NextCapacity(allocatedSize, substream.left, dataSize);
        GrowthIsSafe(size, allocatedSize, substream.left, dataSize);
        ghost var before := heap.live;
        var id := AllocateField(heap, block, dataSize, capacity);
        if id.None? {
          return false, size, block;
        }
        MovesOn(old(heap.live), before, heap.live, IdOf(was), IdOf(block), multiset{id.value});
        MovesWithin(before, heap.live, IdOf(block), multiset{id.value});
        allocatedSize := capacity;
        block := Some(Block(id.value, capacity, []));
        BlockId(id.value, capacity, []);
      }
      ok := ReadIntoBlock(substream, f, block.value, size);
      if ok {
        size := size + 1;
      }
    }
  }

  /** The packed case of decode_pointer_field. */
  method DecodePackedPointer(stream: IStream, heap: Allocator, f: HField, c: Mem) returns (ok: bool, r: Mem)
    requires stream.Valid() && heap.Valid() && f.dataSize > 0
    requires f.kind.Value? && !f.kind.f.ltype.Submessage?
    requires c.PtrArray? && Numbers(c.count, c.block) && Ids(c) <= heap.live
    modifies stream, heap`live, heap`next
    ensures stream.Valid() && stream.End() <= old(stream.End()) && (ok ==> stream.End() == old(stream.End()))
    ensures ok ==> stream.left < old(stream.left)
    ensures ok ==> TakeString(old(stream.Rest())).Got? && TakeString(old(stream.Rest())).rest == stream.Rest()
    ensures heap.Valid() && Moves(old(heap.live), heap.live, Ids(c), Ids(r))
    ensures r.PtrArray? && Numbers(r.count, r.block)
  {
    hide Ids, IdOf, Moves, Numbers, Allocator.Valid;
    var made, substream := stream.MakeSubstream();
    Untouched(true, heap.live, Ids(c), 0);
    if !made {
      return false, c;
    }
    NumbersIds(c.count, c.block);
    var size, block;
    ok, size, block := DecodeNumbers(substream, heap, f.kind.f, f.dataSize, c.count, c.block);
    NumbersIds(size, block);
    var _ := stream.CloseSubstream(substream);
    r := PtrArray(size, block);
  }

  // ----- submessages -----

  /** A run on an input that leaves nothing to chance does what Feeding says. */
  ghost predicate AsFed(fed: Fed, fields: seq<HField>, ok: bool, r: Mem, toll: Toll) {
    && (fed.Starved? ==> !ok && toll.lost == fed.lost && toll.leaked == multiset{})
    && (fed.Kept? && AllSeen(fields, fed.seen) ==> ok && r == fed.m)
  }

  ghost predicate AsStep(step: Step, ok: bool, r: Mem, rest: seq<byte>, toll: Toll) {
    && (step.Starving? ==> !ok && toll.lost == step.lost && toll.leaked == multiset{})
    && (step.Stored? ==> ok && r == step.c && rest == step.rest)
  }

  /** What decoding a submessage keeps. Array entries are decoded from the defaults, over memory
      that may hold anything and owns nothing. */
  ghost predicate SubDone(ts: Table, ty: nat, before: multiset<nat>, after: multiset<nat>, broken: bool,
                          m: Mem, init: bool, r: Mem, ok: bool, toll: Toll)
  {
    && Outcome(ok, before, after, broken, if init then multiset{} else Ids(m), Ids(r), toll)
    && ShapedMsg(ts, ty, r, ok)
    && ((if init then BlankEntry(ts, ty, m) else Clean(ts, ty, m)) ==>
          toll.lost == multiset{} && (ok ==> Clean(ts, ty, r)))
    && (NoWrap(ts) ==> toll.leaked == multiset{})
  }

  /** The depth a run went to is at most what the bytes say; a run that succeeds read them all, and
      went just that deep. */
  ghost predicate WentTo(depth: nat, nesting: nat, ok: bool) {
    depth <= nesting && (ok ==> depth == nesting)
  }

  ghost predicate SubWentTo(ts: Table, ty: nat, s: seq<byte>, ok: bool, toll: Toll, rest: seq<byte>) {
    && (ok ==> TakeString(s).Got? && rest == TakeString(s).rest)
    && WentTo(toll.depth, if TakeString(s).Got? then 1 + Nesting(ts, ty, TakeString(s).val) else 0, ok)
  }

  ghost predicate MemberWentTo(ts: Table, f: HField, wireType: nat, s: seq<byte>, ok: bool, toll: Toll,
                               rest: seq<byte>)
  {
    && (ok ==> TakeMember(f, wireType, s).Got? && rest == TakeMember(f, wireType, s).rest)
    && WentTo(toll.depth, MemberNesting(ts, f, wireType, s), ok)
  }

  lemma SubIsMember(ts: Table, f: HField, wireType: nat, s: seq<byte>, ok: bool, toll: Toll, rest: seq<byte>)
    requires f.kind.Sub? && SubWentTo(ts, f.kind.ty, s, ok, toll, rest)
    ensures MemberWentTo(ts, f, wireType, s, ok, toll, rest)
  {
    hide TakeString, Nesting;
  }

  lemma ValueWentNowhere(ts: Table, f: HField, wireType: nat, s: seq<byte>, ok: bool, toll: Toll, rest: seq<byte>)
    requires f.kind.Value? && toll.depth == 0
    requires ok ==> TakeMember(f, wireType, s).Got? && rest == TakeMember(f, wireType, s).rest
    ensures MemberWentTo(ts, f, wireType, s, ok, toll, rest)
  {
    hide TakeMember;
  }

  lemma NowhereOnFailure(ts: Table, f: HField, wireType: nat, s: seq<byte>, toll: Toll, rest: seq<byte>)
    requires toll.depth == 0
    ensures MemberWentTo(ts, f, wireType, s, false, toll, rest)
  {
    hide TakeMember, Nesting;
  }

  lemma ScalarMember(f: HField, wireType: nat, s: seq<byte>)
    requires f.kind.Value? && !(f.pointer && IsText(f.kind))
    requires !(f.rule.Repeated? && wireType == WT_STRING && f.kind.f.ltype.Packable())
    ensures TakeScalar(f.kind.f, s).Got? ==>
              && TakeMember(f, wireType, s).Got?
              && TakeMember(f, wireType, s).rest == TakeScalar(f.kind.f, s).rest
  {
    hide TakeScalar;
  }

  lemma TextMember(f: HField, wireType: nat, s: seq<byte>)
    requires f.kind.Value?
    requires (f.pointer && IsText(f.kind)) || (f.rule.Repeated? && wireType == WT_STRING && f.kind.f.ltype.Packable())
    ensures TakeString(s).Got? ==> TakeMember(f, wireType, s) == Got([], TakeString(s).rest)
  {
    hide TakeString;
  }

  /** pb_dec_submessage */
  method DecodeSub(stream: IStream, heap: Allocator, ts: Table, ty: nat, m: Mem, init: bool)
    returns (ok: bool, r: Mem, ghost toll: Toll)
    requires stream.Valid() && heap.Valid() && !heap.broken && TableOk(ts) && ty < |ts|
    requires ShapedMsg(ts, ty, m, !init) && (!init ==> Ids(m) <= heap.live)
    modifies stream, heap
    ensures stream.Valid() && stream.End() <= old(stream.End()) && (ok ==> stream.End() == old(stream.End()))
    ensures ok ==> stream.left < old(stream.left)
    ensures heap.Valid() && SubDone(ts, ty, old(heap.live), heap.live, heap.broken, m, init, r, ok, toll)
    ensures AsStep(FeedSub(ts, ty, m, init, old(stream.Rest())), ok, r, stream.Rest(), toll)
    ensures SubWentTo(ts, ty, old(stream.Rest()), ok, toll, stream.Rest())
    decreases stream.left, 1
  {
    hide Ids, Outcome, ShapedMsg, TableOk, Feed, FeedSub, Clean, Blank, NoWrap, AllSeen, Reset, SubDone, AsStep, AsFed;
    hide Allocator.Valid, Nesting;
    ghost var s := stream.Rest();
    var made, substream := stream.MakeSubstream();
    if !made {
      r, toll := m, if init then Toll(0, Ids(m), multiset{}) else NoToll(0);
      SubNotOpened(ts, ty, heap.live, m, init, s);
      return false, r, toll;
    }
    ok, r, toll := DecodeBody(substream, heap, ts, ty, m, init, s);
    var _ := stream.CloseSubstream(substream);
    StepRest(FeedSub(ts, ty, m, init, s), ok, r, TakeString(s).rest, stream.Rest(), toll);
  }

  /** The body of a submessage: pb_decode for a new array entry, pb_decode_noinit otherwise. */
  method DecodeBody(substream: IStream, heap: Allocator, ts: Table, ty: nat, m: Mem, init: bool, ghost s: seq<byte>)
    returns (ok: bool, r: Mem, ghost toll: Toll)
    requires substream.Valid() && heap.Valid() && !heap.broken && TableOk(ts) && ty < |ts|
    requires ShapedMsg(ts, ty, m, !init) && (!init ==> Ids(m) <= heap.live)
    requires TakeString(s).Got? && TakeString(s).val == substream.Rest()
    modifies substream, heap
    ensures substream.Valid() && substream.End() <= old(substream.End())
            && (ok ==> substream.End() == old(substream.End()))
    ensures heap.Valid() && SubDone(ts, ty, old(heap.live), heap.live, heap.broken, m, init, r, ok, toll)
    ensures AsStep(FeedSub(ts, ty, m, init, s), ok, r, TakeString(s).rest, toll)
    ensures WentTo(toll.depth, 1 + Nesting(ts, ty, old(substream.Rest())), ok)
    decreases substream.left, 9
  {
    hide Ids, Outcome, ShapedMsg, TableOk, Feed, FeedSub, Clean, Blank, NoWrap, AllSeen, Reset, SubDone, AsStep, AsFed;
    hide Allocator.Valid, TakeString, Nesting;
    ghost var body := substream.Rest();
    ghost var inner: Toll;
    if init {
      ok, r, inner := DecodeInit(substream, heap, ts, ty, m);
    } else {
      ok, r, inner := DecodeNoinit(substream, heap, ts, ty, m);
    }
    toll := inner.(depth := inner.depth + 1);
    SubDecoded(ts, ty, old(heap.live), heap.live, heap.broken, m, init, r, ok, inner, toll);
    SubFed(ts, ty, m, init, s, body, ok, r, inner, toll);
  }

  /** No length, or one beyond the end of the bytes. An array entry is then counted already but not
      initialized: whatever it reaches is now reached by the message. */
  lemma SubNotOpened(ts: Table, ty: nat, live: multiset<nat>, m: Mem, init: bool, s: seq<byte>)
    requires ShapedMsg(ts, ty, m, !init) && TakeString(s).Bad?
    ensures var toll := if init then Toll(0, Ids(m), multiset{}) else NoToll(0);
            && SubDone(ts, ty, live, live, false, m, init, m, false, toll)
            && forall rest :: AsStep(FeedSub(ts, ty, m, init, s), false, m, rest, toll)
  {
    hide Ids, ShapedMsg, Clean, Blank, NoWrap;
    MsgIsMemory(ts, ty, m, !init);
    assert live + multiset{} + Ids(m) == live + Ids(m) + multiset{};
    Untouched(false, live, Ids(m), 0);
  }

  lemma SubDecoded(ts: Table, ty: nat, before: multiset<nat>, after: multiset<nat>, broken: bool,
                   m: Mem, init: bool, r: Mem, ok: bool, inner: Toll, toll: Toll)
    requires toll == inner.(depth := inner.depth + 1)
    requires Outcome(ok, before, after, broken, if init then multiset{} else Ids(m), Ids(r), inner)
    requires ShapedMsg(ts, ty, r, ok) && (NoWrap(ts) ==> inner.leaked == multiset{})
    requires (if init then Blank(ts, ty, m) else Clean(ts, ty, m)) ==>
               inner.lost == multiset{} && (ok ==> Clean(ts, ty, r))
    ensures SubDone(ts, ty, before, after, broken, m, init, r, ok, toll)
  {
    hide Ids, ShapedMsg, Clean, Blank, NoWrap;
  }

  lemma SubFed(ts: Table, ty: nat, m: Mem, init: bool, s: seq<byte>, body: seq<byte>, ok: bool, r: Mem, inner: Toll,
      toll: Toll)
    requires ty < |ts| && ShapedMsg(ts, ty, m, !init) && TakeString(s).Got? && TakeString(s).val == body
    requires AsFed(Feed(ts, ty, if init then Reset(ts, ty, m) else m, {}, body), ts[ty], ok, r, inner)
    requires toll == inner.(depth := inner.depth + 1)
    ensures AsStep(FeedSub(ts, ty, m, init, s), ok, r, TakeString(s).rest, toll)
  {
    hide Ids, ShapedMsg, Feed, Reset, AllSeen;
  }

  /** The bytes left matter only after success. */
  lemma StepRest(step: Step, ok: bool, r: Mem, a: seq<byte>, b: seq<byte>, toll: Toll)
    requires AsStep(step, ok, r, a, toll) && (ok ==> a == b)
    ensures AsStep(step, ok, r, b, toll)
  {
  }

  lemma SameToll(ok: bool, before: multiset<nat>, after: multiset<nat>, broken: bool,
                 a: multiset<nat>, b: multiset<nat>, toll: Toll)
    ensures forall d: nat :: Outcome(ok, before, after, broken, a, b, toll.(depth := d)) <==>
                             Outcome(ok, before, after, broken, a, b, toll)
  {
  }

  /** pb_decode into any memory. A failed decode leaves exactly the blocks live that were live
      before, if no entry was counted that reaches foreign blocks and no count wrapped around;
      neither can happen when the memory is blank and the arrays are small enough. */
  method DecodeInit(stream: IStream, heap: Allocator, ts: Table, ty: nat, dest: Mem)
    returns (ok: bool, r: Mem, ghost toll: Toll)
    requires stream.Valid() && heap.Valid() && !heap.broken && TableOk(ts)
    requires ShapedMsg(ts, ty, dest, false)
    modifies stream, heap
    ensures stream.Valid() && stream.End() <= old(stream.End()) && (ok ==> stream.End() == old(stream.End()))
    ensures ok ==> stream.left <= old(stream.left)
    ensures heap.Valid() && Outcome(ok, old(heap.live), heap.live, heap.broken, multiset{}, Ids(r), toll)
    ensures ShapedMsg(ts, ty, r, ok) && (!ok ==> Ids(r) == multiset{})
    ensures !ok && toll.leaked == multiset{} ==>
              (toll.lost == multiset{} <==> heap.live == old(heap.live) && !heap.broken)
    ensures Blank(ts, ty, dest) ==> toll.lost == multiset{} && (ok ==> Clean(ts, ty, r))
    ensures NoWrap(ts) ==> toll.leaked == multiset{}
    ensures AsFed(Feed(ts, ty, Reset(ts, ty, dest), {}, old(stream.Rest())), ts[ty], ok, r, toll)
    ensures WentTo(toll.depth, Nesting(ts, ty, old(stream.Rest())), ok) && 2 * toll.depth <= old(stream.left)
    decreases stream.left, 8
  {
    hide Ids, Outcome, Freed, ShapedMsg, TableOk, Feed, Clean, Blank, NoWrap, AllSeen, Reset, Nesting, Allocator.Valid;
    ResetOwnsNothing(ts, ty, dest);
    r := Reset(ts, ty, dest);
    ok, r, toll := DecodeNoinit(stream, heap, ts, ty, r);
    if !ok {
      ghost var live, broken, reached := heap.live, heap.broken, Ids(r);
      r := Release(heap, ts, ty, r);
      AfterRelease(old(heap.live), live, broken, heap.live, heap.broken, reached, toll);
    }
  }

  /** Releasing what a failed decode reaches. */
  lemma AfterRelease(l0: multiset<nat>, l1: multiset<nat>, b1: bool, l2: multiset<nat>, b2: bool,
                     reached: multiset<nat>, toll: Toll)
    requires Outcome(false, l0, l1, b1, multiset{}, reached, toll)
    requires Freed(l1, b1, l2, b2, reached)
    ensures Outcome(false, l0, l2, b2, multiset{}, multiset{}, toll)
    ensures toll.leaked == multiset{} ==> (toll.lost == multiset{} <==> l2 == l0 && !b2)
  {
    if !b1 {
      forall id
        ensures l1[id] + toll.lost[id] == l0[id] + reached[id] + toll.leaked[id]
      {
        assert (l1 + multiset{} + toll.lost)[id] == (l0 + reached + toll.leaked)[id];
      }
    }
    if toll.lost == multiset{} {
      assert forall id :: reached[id] <= l1[id];
    }
    if !b2 {
      assert forall id :: (l2 + multiset{} + toll.lost)[id] == (l0 + multiset{} + toll.leaked)[id];
      if toll.leaked == multiset{} && l2 == l0 {
        assert forall id :: toll.lost[id] == 0;
      }
    }
  }

  // ----- members -----

  /** What a member decoder keeps. */
  ghost predicate MemberDone(ts: Table, f: HField, before: multiset<nat>, after: multiset<nat>, broken: bool,
                             c: Mem, r: Mem, ok: bool, toll: Toll)
  {
    && Outcome(ok, before, after, broken, Ids(c), Ids(r), toll)
    && ShapedField(ts, f, r, ok)
    && (CleanField(ts, f, c) ==> toll.lost == multiset{} && (ok ==> CleanField(ts, f, r)))
    && (NoWrap(ts) && FieldNoWrap(ts, f) ==> toll.leaked == multiset{})
  }

  /** A count stored as a pb_size_t. */
  function StoredCount(n: nat): nat {
    n % (PbSizeMax() + 1)
  }

  lemma SmallCount(n: nat)
    requires n <= PbSizeMax() + 1
    ensures StoredCount(n) == if n <= PbSizeMax() then n else 0
  {
  }

  /** decode_static_field, once the union is prepared. The count of a full array is raised before
      it is compared: with PB_SIZE_MAX entries it becomes zero and all entries are leaked. */
  method DecodeStatic(stream: IStream, heap: Allocator, ts: Table, f: HField, wireType: nat, c: Mem)
    returns (ok: bool, r: Mem, ghost toll: Toll)
    requires stream.Valid() && heap.Valid() && !heap.broken && TableOk(ts) && MemberOk(ts, f) && !f.pointer
    requires ShapedField(ts, f, c, true) && Ids(c) <= heap.live
    modifies stream, heap
    ensures stream.Valid() && stream.End() <= old(stream.End()) && (ok ==> stream.End() == old(stream.End()))
    ensures ok ==> stream.left <= old(stream.left)
    ensures heap.Valid() && MemberDone(ts, f, old(heap.live), heap.live, heap.broken, c, r, ok, toll)
    ensures AsStep(FeedField(ts, f, c, old(stream.Rest())), ok, r, stream.Rest(), toll)
    ensures f.kind.Sub? && f.rule.Repeated? && c.count == f.rule.max ==>
              && !ok && r == StaticArray(StoredCount(c.count + 1), c.items) && heap.live == old(heap.live)
              && toll.leaked == if f.rule.max < PbSizeMax() then multiset{} else Ids(c)
    ensures MemberWentTo(ts, f, wireType, old(stream.Rest()), ok, toll, stream.Rest())
    decreases stream.left, 3
  {
    hide Ids, Outcome, ShapedMsg, TableOk, FeedSub, Clean, Blank, NoWrap, Owning, BlankEntry, StoredCount, TakeScalar;
    hide Allocator.Valid, SubWentTo, MemberWentTo, TakeMember;
    ghost var s := stream.Rest();
    if f.kind.Value? {
      r, toll := c, NoToll(0);
      ok := ReadValue(stream, f, wireType);
      if !f.rule.Repeated? {
        ScalarMember(f, wireType, s);
      }
      Untouched(ok, heap.live, Ids(c), 0);
      ValueWentNowhere(ts, f, wireType, s, ok, toll, stream.Rest());
    } else if !f.rule.Repeated? {
      ok, r, toll := DecodeSub(stream, heap, ts, f.kind.ty, c, false);
      if !ok {
        MemberIsSub(ts, f, r);
      }
      SubIsMember(ts, f, wireType, s, ok, toll, stream.Rest());
    } else if c.count >= f.rule.max {
      r := StaticArray(StoredCount(c.count + 1), c.items);
      toll := Toll(0, multiset{}, if f.rule.max < PbSizeMax() then multiset{} else Ids(c));
      CountedTooMany(ts, f, c, heap.live);
      NowhereOnFailure(ts, f, wireType, s, toll, stream.Rest());
      ok := false;
    } else {
      ok, r, toll := DecodeStaticEntry(stream, heap, ts, f, c);
      SubIsMember(ts, f, wireType, s, ok, toll, stream.Rest());
    }
  }

  lemma MemberIsSub(ts: Table, f: HField, r: Mem)
    requires !f.pointer && f.kind.Sub? && !f.rule.Repeated? && ShapedMsg(ts, f.kind.ty, r, false)
    ensures ShapedField(ts, f, r, false)
  {
  }

  /** The overflow of an embedded array. */
  lemma CountedTooMany(ts: Table, f: HField, c: Mem, live: multiset<nat>)
    requires TableOk(ts) && MemberOk(ts, f) && !f.pointer && f.kind.Sub? && f.rule.Repeated?
    requires ShapedField(ts, f, c, true) && c.count >= f.rule.max
    ensures var r := StaticArray(StoredCount(c.count + 1), c.items);
            var toll := Toll(0, multiset{}, if f.rule.max < PbSizeMax() then multiset{} else Ids(c));
            MemberDone(ts, f, live, live, false, c, r, false, toll)
  {
    hide ShapedMsg, Ids, IdsFirst, NoWrap, Owning, BlankEntry, TableOk;
    var r := StaticArray(StoredCount(c.count + 1), c.items);
    SmallCount(c.count + 1);
    ArrayIds(c);
    ArrayIds(r);
    NoItems(c.items);
    FieldIsMemory(ts, f, c, true);
    forall k | 0 <= k < |c.items|
      ensures ShapedMsg(ts, f.kind.ty, c.items[k], false)
    {
      assert c.items[k] == c.items[k];
    }
    if FieldNoWrap(ts, f) && f.rule.max == PbSizeMax() {
      ArrayOwnsNothing(ts, f, c);
    }
    assert live + Ids(c) + multiset{} == live + Ids(r) + if f.rule.max < PbSizeMax() then multiset{} else Ids(c);
  }

  lemma ArrayOwnsNothing(ts: Table, f: HField, c: Mem)
    requires TableOk(ts) && !f.pointer && f.kind.Sub? && f.rule.Repeated? && ShapedField(ts, f, c, true)
    requires !Owning(ts, f.kind.ty)
    ensures Ids(c) == multiset{}
  {
    hide Owning, TableOk;
    forall k | 0 <= k < |c.items|
      ensures Ids(c.items[k]) == multiset{}
    {
      NotOwning(ts, f.kind.ty, c.items[k], k < c.count);
    }
    ArrayIds(c);
    AllEmpty(c.items, Min(c.count, |c.items|));
  }

  /** A new entry of an embedded array of submessages: it is counted first, and then the length of
      the submessage is read. Only after that are the defaults set. */
  method DecodeStaticEntry(stream: IStream, heap: Allocator, ts: Table, f: HField, c: Mem)
    returns (ok: bool, r: Mem, ghost toll: Toll)
    requires stream.Valid() && heap.Valid() && !heap.broken && TableOk(ts) && MemberOk(ts, f)
    requires !f.pointer && f.kind.Sub? && f.rule.Repeated?
    requires ShapedField(ts, f, c, true) && Ids(c) <= heap.live && c.count < f.rule.max
    modifies stream, heap
    ensures stream.Valid() && stream.End() <= old(stream.End()) && (ok ==> stream.End() == old(stream.End()))
    ensures ok ==> stream.left <= old(stream.left)
    ensures heap.Valid() && MemberDone(ts, f, old(heap.live), heap.live, heap.broken, c, r, ok, toll)
    ensures AsStep(FeedField(ts, f, c, old(stream.Rest())), ok, r, stream.Rest(), toll)
    ensures SubWentTo(ts, f.kind.ty, old(stream.Rest()), ok, toll, stream.Rest())
    decreases stream.left, 2
  {
    hide Ids, Outcome, ShapedMsg, TableOk, FeedSub, Clean, Blank, NoWrap, Owning, BlankEntry, Allocator.Valid;
    var size := c.count;
    r := StaticArray(size + 1, c.items);
    var item;
    ok, item, toll := DecodeSub(stream, heap, ts, f.kind.ty, r.items[size], true);
    r := StaticArray(size + 1, c.items[size := item]);
    EntryIds(c, item);
    EntryShape(ts, f, c, item, ok);
    OutcomeBeside(ok, old(heap.live), heap.live, heap.broken, multiset{}, Ids(item), Ids(c), toll);
    assert multiset{} + Ids(c) == Ids(c) && Ids(item) + Ids(c) == Ids(c) + Ids(item);
  }

  lemma EntryIds(c: Mem, item: Mem)
    requires c.StaticArray? && c.count < |c.items|
    ensures Ids(StaticArray(c.count + 1, c.items[c.count := item])) == Ids(c) + Ids(item)
  {
    hide Ids, IdsFirst;
    var items := c.items[c.count := item];
    ArrayIds(c);
    ArrayIds(StaticArray(c.count + 1, items));
    IdsFirstSame(c.items, items, c.count);
    NextItem(items, c.count);
  }

  lemma EntryShape(ts: Table, f: HField, c: Mem, item: Mem, ok: bool)
    requires MemberOk(ts, f) && !f.pointer && f.kind.Sub? && f.rule.Repeated?
    requires ShapedField(ts, f, c, true) && c.count < f.rule.max && ShapedMsg(ts, f.kind.ty, item, ok)
    ensures var r := StaticArray(c.count + 1, c.items[c.count := item]);
            ShapedField(ts, f, r, ok) && (CleanField(ts, f, c) ==> CleanField(ts, f, r))
  {
    hide ShapedMsg, BlankEntry;
    var items := c.items[c.count := item];
    forall k | 0 <= k < |items|
      ensures ShapedMsg(ts, f.kind.ty, items[k], ok && k < c.count + 1)
    {
      if k != c.count {
        assert ShapedMsg(ts, f.kind.ty, c.items[k], k < c.count);
        MsgIsMemory(ts, f.kind.ty, items[k], k < c.count);
      }
    }
  }

  // ----- pointers to one item -----

  /** decode_pointer_field for a single item. */
  method DecodePointer(stream: IStream, heap: Allocator, ts: Table, f: HField, ghost wireType: nat, c: Mem)
    returns (ok: bool, r: Mem, ghost toll: Toll)
    requires stream.Valid() && heap.Valid() && !heap.broken && TableOk(ts) && MemberOk(ts, f)
    requires f.pointer && !f.rule.Repeated?
    requires ShapedField(ts, f, c, true) && Ids(c) <= heap.live
    modifies stream, heap
    ensures stream.Valid() && stream.End() <= old(stream.End()) && (ok ==> stream.End() == old(stream.End()))
    ensures ok ==> stream.left <= old(stream.left)
    ensures heap.Valid() && MemberDone(ts, f, old(heap.live), heap.live, heap.broken, c, r, ok, toll)
    ensures MemberWentTo(ts, f, wireType, old(stream.Rest()), ok, toll, stream.Rest())
    decreases stream.left, 3
  {
    hide Ids, Outcome, Moves, ShapedMsg, TableOk, NoWrap, Owning, Allocator.Valid, IdOf, TakeScalar;
    hide SubWentTo, MemberWentTo, TakeMember, TakeString;
    r, toll := c, NoToll(0);
    ghost var s := stream.Rest();
    if f.kind.Sub? {
      ok, r, toll := DecodePointerSub(stream, heap, ts, f, c);
      SubIsMember(ts, f, wireType, s, ok, toll, stream.Rest());
      return;
    }
    if IsText(f.kind) {
      ok, r := ReadText(stream, heap, f.kind.f, c);
      Smooth(ok, old(heap.live), heap.live, Ids(c), Ids(r), 0);
      TextMember(f, wireType, s);
      ValueWentNowhere(ts, f, wireType, s, ok, toll, stream.Rest());
      return;
    }
    FlatBlock(c.block);
    var id := AllocateField(heap, c.block, f.dataSize, 1);
    if id.None? {
      Untouched(false, heap.live, Ids(c), 0);
      NowhereOnFailure(ts, f, wireType, s, toll, stream.Rest());
      return false, r, toll;
    }
    var block := Block(id.value, 1, []);
    r := Ptr(Some(block));
    FlatBlock(r.block);
    BlockId(id.value, 1, []);
    ok := ReadIntoBlock(stream, f.kind.f, block, 0);
    ScalarMember(f, wireType, s);
    ValueWentNowhere(ts, f, wireType, s, ok, toll, stream.Rest());
    Smooth(ok, old(heap.live), heap.live, Ids(c), Ids(r), 0);
  }

  /** A pointer to a submessage: an earlier one is released, not merged into. */
  method DecodePointerSub(stream: IStream, heap: Allocator, ts: Table, f: HField, c: Mem)
    returns (ok: bool, r: Mem, ghost toll: Toll)
    requires stream.Valid() && heap.Valid() && !heap.broken && TableOk(ts) && MemberOk(ts, f)
    requires f.pointer && !f.rule.Repeated? && f.kind.Sub?
    requires ShapedField(ts, f, c, true) && Ids(c) <= heap.live
    modifies stream, heap
    ensures stream.Valid() && stream.End() <= old(stream.End()) && (ok ==> stream.End() == old(stream.End()))
    ensures ok ==> stream.left <= old(stream.left)
    ensures heap.Valid() && MemberDone(ts, f, old(heap.live), heap.live, heap.broken, c, r, ok, toll)
    ensures SubWentTo(ts, f.kind.ty, old(stream.Rest()), ok, toll, stream.Rest())
    decreases stream.left, 2
  {
    hide Ids, Outcome, Moves, Freed, ShapedMsg, TableOk, NoWrap, Owning, Clean, Allocator.Valid, IdOf;
    FieldIsMemory(ts, f, c, true);
    r := ReleasePointer(heap, ts, f, c);
    ghost var bare := heap.live;
    AllGivenUp(old(heap.live), bare, heap.broken, Ids(c));
    FlatBlock(None);
    BlockId(0, 0, []);
    NothingIn(bare);
    var id := AllocateField(heap, None, f.dataSize, 1);
    if id.None? {
      toll := NoToll(0);
      Smooth(false, old(heap.live), heap.live, Ids(c), Ids(r), 0);
      return false, r, toll;
    }
    ghost var middle := heap.live;
    var item := Fresh(ts, f.kind.ty);
    FreshOwnsNothing(ts, f.kind.ty);
    NothingIn(middle);
    ok, item, toll := DecodeSub(stream, heap, ts, f.kind.ty, item, false);
    r := Ptr(Some(Block(id.value, 1, [item])));
    NewBlock(id.value, item);
    MovesOn(old(heap.live), bare, middle, Ids(c), multiset{}, multiset{id.value});
    OutcomeBeside(ok, middle, heap.live, heap.broken, multiset{}, Ids(item), multiset{id.value}, toll);
    Union(multiset{id.value}, Ids(item));
    OutcomeThen(ok, old(heap.live), middle, heap.live, heap.broken, Ids(c), multiset{id.value}, Ids(r), toll);
  }

  lemma Union(a: multiset<nat>, b: multiset<nat>)
    ensures multiset{} + a == a && b + a == a + b
  {
  }

  lemma NothingIn(live: multiset<nat>)
    ensures multiset{} <= live
  {
  }

  /** A memory's own blocks were freed. */
  lemma AllGivenUp(before: multiset<nat>, after: multiset<nat>, broken: bool, a: multiset<nat>)
    requires a <= before && Freed(before, false, after, broken, a)
    ensures !broken && Moves(before, after, a, multiset{})
  {
  }

  lemma NewBlock(id: nat, item: Mem)
    ensures Ids(Ptr(Some(Block(id, 1, [item])))) == multiset{id} + Ids(item)
  {
    NextItem([item], 0);
    NoItems([item]);
  }

  // ----- pointers to arrays -----

  function EntriesOf(c: Mem): seq<Mem>
    requires c.PtrArray?
  {
    if c.block.None? then [] else c.block.value.items
  }

  /** The array with one more entry in a new block. */
  function Grown(c: Mem, id: nat, item: Mem): Mem
    requires c.PtrArray?
  {
    PtrArray(c.count + 1, Some(Block(id, c.count + 1, EntriesOf(c) + [item])))
  }

  /** What is known of an array of submessages or texts: all its entries are counted. */
  predicate Entries(c: Mem) {
    && c.PtrArray? && (c.block.None? ==> c.count == 0)
    && c.count == |EntriesOf(c)|
  }

  lemma ArrayShape(ts: Table, f: HField, c: Mem)
    requires f.pointer && f.rule.Repeated? && ShapedField(ts, f, c, true)
    ensures c.PtrArray? && c.count <= PbSizeMax()
    ensures if f.kind.Value? && !IsText(f.kind) then Numbers(c.count, c.block) else Entries(c)
  {
  }

  lemma NumbersShape(ts: Table, f: HField, c: Mem, strict: bool)
    requires f.pointer && f.rule.Repeated? && f.kind.Value? && !IsText(f.kind) && c.PtrArray?
            && Numbers(c.count, c.block)
    ensures ShapedField(ts, f, c, strict) && CleanField(ts, f, c)
  {
  }

  /** What an array owns: its block and what its entries own. */
  lemma EntriesIds(c: Mem)
    requires Entries(c)
    ensures Ids(c) == IdsFirst(EntriesOf(c), |EntriesOf(c)|) + IdOf(c.block)
  {
    hide Ids, IdsFirst;
    if c.block.Some? {
      PointerIds(c);
    } else {
      NullIds(c);
      NoItems([]);
    }
  }

  lemma AppendIds(ms: seq<Mem>, m: Mem)
    ensures IdsFirst(ms + [m], |ms| + 1) == IdsFirst(ms, |ms|) + Ids(m)
  {
    hide Ids, IdsFirst;
    NextItem(ms + [m], |ms|);
    IdsFirstSame(ms + [m], ms, |ms|);
  }

  lemma GrownIds(c: Mem, id: nat, item: Mem)
    requires Entries(c)
    ensures Entries(Grown(c, id, item))
    ensures Ids(c) == IdsFirst(EntriesOf(c), |EntriesOf(c)|) + IdOf(c.block)
    ensures Ids(Grown(c, id, item)) == IdsFirst(EntriesOf(c), |EntriesOf(c)|) + (multiset{id} + Ids(item))
  {
    hide Ids, IdsFirst;
    EntriesIds(c);
    EntriesIds(Grown(c, id, item));
    AppendIds(EntriesOf(c), item);
  }

  /** The entries move along with the array they are in. */
  lemma ItemsGrow(start: multiset<nat>, middle: multiset<nat>, after: multiset<nat>, broken: bool,
                  c: Mem, id: nat, item: Mem, ok: bool, toll: Toll)
    requires Entries(c)
    requires Moves(start, middle, IdOf(c.block), multiset{id})
    requires Outcome(ok, middle, after, broken, multiset{}, Ids(item), toll)
    ensures Outcome(ok, start, after, broken, Ids(c), Ids(Grown(c, id, item)), toll)
  {
    hide Ids, IdsFirst, Outcome, Moves, IdOf;
    var inner := IdsFirst(EntriesOf(c), |EntriesOf(c)|);
    GrownIds(c, id, item);
    OutcomeBeside(ok, middle, after, broken, multiset{}, Ids(item), multiset{id}, toll);
    Union(multiset{id}, Ids(item));
    OutcomeThen(ok, start, middle, after, broken, IdOf(c.block), multiset{id}, multiset{id} + Ids(item), toll);
    OutcomeBeside(ok, start, after, broken, IdOf(c.block), multiset{id} + Ids(item), inner, toll);
    Union(inner, IdOf(c.block));
    Union(inner, multiset{id} + Ids(item));
  }

  lemma GrownShape(ts: Table, f: HField, c: Mem, id: nat, item: Mem, ok: bool)
    requires f.pointer && f.rule.Repeated? && ShapedField(ts, f, c, true) && c.count < PbSizeMax()
    requires f.kind.Sub? ==> ShapedMsg(ts, f.kind.ty, item, ok)
    requires f.kind.Value? ==> IsText(f.kind) && ShapedText(item)
    ensures ShapedField(ts, f, Grown(c, id, item), ok) && CleanField(ts, f, Grown(c, id, item))
  {
    hide ShapedMsg;
    var items := EntriesOf(c) + [item];
    if f.kind.Sub? {
      forall k | 0 <= k < c.count
        ensures ShapedMsg(ts, f.kind.ty, items[k], ok)
      {
        MsgIsMemory(ts, f.kind.ty, items[k], true);
      }
    }
  }

  lemma NumbersGrow(start: multiset<nat>, after: multiset<nat>, c: Mem, r: Mem, ok: bool)
    requires c.PtrArray? && Numbers(c.count, c.block) && r.PtrArray? && Numbers(r.count, r.block)
    requires Moves(start, after, IdOf(c.block), IdOf(r.block))
    ensures Outcome(ok, start, after, false, Ids(c), Ids(r), NoToll(0))
  {
    hide Ids, Numbers, Moves, IdOf;
    NumbersIds(c.count, c.block);
    NumbersIds(r.count, r.block);
    Smooth(ok, start, after, Ids(c), Ids(r), 0);
  }

  /** decode_pointer_field for one more item of an array: written to the last entry of a block that
      was given room for it. */
  method DecodePointerEntry(stream: IStream, heap: Allocator, ts: Table, f: HField, ghost wireType: nat, c: Mem)
    returns (ok: bool, r: Mem, ghost toll: Toll)
    requires stream.Valid() && heap.Valid() && !heap.broken && TableOk(ts) && MemberOk(ts, f)
    requires f.pointer && f.rule.Repeated?
    requires !(wireType == WT_STRING && f.kind.Value? && f.kind.f.ltype.Packable())
    requires ShapedField(ts, f, c, true) && Ids(c) <= heap.live
    modifies stream, heap
    ensures stream.Valid() && stream.End() <= old(stream.End()) && (ok ==> stream.End() == old(stream.End()))
    ensures ok ==> stream.left <= old(stream.left)
    ensures heap.Valid() && MemberDone(ts, f, old(heap.live), heap.live, heap.broken, c, r, ok, toll)
    ensures r != c ==> r.PtrArray? && r.block.Some? && r.count == c.count + 1 == r.block.value.capacity
    ensures MemberWentTo(ts, f, wireType, old(stream.Rest()), ok, toll, stream.Rest())
    decreases stream.left, 3
  {
    hide Ids, Outcome, Moves, ShapedMsg, ShapedField, CleanField;
    hide TableOk, NoWrap, Owning, Numbers, Entries, Clean, Blank;
    hide Allocator.Valid, IdOf;
    hide SubWentTo, MemberWentTo, TakeMember;
    r, toll := c, NoToll(0);
    ghost var s := stream.Rest();
    NowhereOnFailure(ts, f, wireType, s, toll, s);
    Untouched(false, heap.live, Ids(c), 0);
    FieldIsMemory(ts, f, c, true);
    PointerClean(ts, f, c);
    ArrayShape(ts, f, c);
    if c.count == PbSizeMax() {
      return false, r, toll;
    }
    BlockWithin(ts, f, c, heap.live);
    var id := AllocateField(heap, c.block, f.dataSize, c.count + 1);
    if id.None? {
      return false, r, toll;
    }
    ghost var middle := heap.live;
    if f.kind.Value? && !IsText(f.kind) {
      var block := Block(id.value, c.count + 1, []);
      r := PtrArray(c.count + 1, Some(block));
      OneMoreNumber(block, c.count + 1);
      BlockId(id.value, c.count + 1, []);
      ok := ReadIntoBlock(stream, f.kind.f, block, c.count);
      ScalarMember(f, wireType, s);
      ValueWentNowhere(ts, f, wireType, s, ok, toll, stream.Rest());
      NumbersGrow(old(heap.live), middle, c, r, ok);
      NumbersShape(ts, f, r, ok);
      return;
    }
    var item;
    ok, item, toll := DecodeItem(stream, heap, ts, f, wireType);
    r := Grown(c, id.value, item);
    ItemsGrow(old(heap.live), middle, heap.live, heap.broken, c, id.value, item, ok, toll);
    GrownShape(ts, f, c, id.value, item, ok);
  }

  /** A submessage or text for a new entry, which initialize_pointer_field has set up. */
  method DecodeItem(stream: IStream, heap: Allocator, ts: Table, f: HField, ghost wireType: nat)
    returns (ok: bool, item: Mem, ghost toll: Toll)
    requires stream.Valid() && heap.Valid() && !heap.broken && TableOk(ts) && MemberOk(ts, f)
    requires f.pointer && (f.kind.Value? ==> IsText(f.kind))
    modifies stream, heap
    ensures stream.Valid() && stream.End() <= old(stream.End()) && (ok ==> stream.End() == old(stream.End()))
    ensures ok ==> stream.left <= old(stream.left)
    ensures heap.Valid() && Outcome(ok, old(heap.live), heap.live, heap.broken, multiset{}, Ids(item), toll)
    ensures if f.kind.Sub? then ShapedMsg(ts, f.kind.ty, item, ok) else ShapedText(item)
    ensures toll.lost == multiset{} && (NoWrap(ts) ==> toll.leaked == multiset{})
    ensures MemberWentTo(ts, f, wireType, old(stream.Rest()), ok, toll, stream.Rest())
    decreases stream.left, 2
  {
    hide Ids, Outcome, Moves, ShapedMsg, TableOk, NoWrap, Clean, Blank, Allocator.Valid;
    hide SubWentTo, MemberWentTo, TakeMember, TakeString;
    ghost var s := stream.Rest();
    if f.kind.Sub? {
      item := Fresh(ts, f.kind.ty);
      FreshOwnsNothing(ts, f.kind.ty);
      ok, item, toll := DecodeSub(stream, heap, ts, f.kind.ty, item, true);
      SubIsMember(ts, f, wireType, s, ok, toll, stream.Rest());
    } else {
      FlatBlock(None);
      NothingIn(heap.live);
      ok, item := ReadText(stream, heap, f.kind.f, Ptr(None));
      toll := NoToll(0);
      Smooth(ok, old(heap.live), heap.live, multiset{}, Ids(item), 0);
      TextMember(f, wireType, s);
      ValueWentNowhere(ts, f, wireType, s, ok, toll, stream.Rest());
    }
  }

  lemma PointerClean(ts: Table, f: HField, c: Mem)
    requires f.pointer
    ensures CleanField(ts, f, c)
  {
  }

  lemma OneMoreNumber(block: Block, count: nat)
    requires block.items == [] && count <= block.capacity <= PbSizeMax()
    ensures Numbers(count, Some(block))
  {
  }

  lemma BlockWithin(ts: Table, f: HField, c: Mem, live: multiset<nat>)
    requires f.pointer && f.rule.Repeated? && ShapedField(ts, f, c, true) && Ids(c) <= live
    ensures IdOf(c.block) <= live
  {
    hide Ids;
    ArrayShape(ts, f, c);
    if f.kind.Value? && !IsText(f.kind) {
      NumbersIds(c.count, c.block);
    } else {
      EntriesIds(c);
      assert IdOf(c.block) <= Ids(c);
    }
  }

  /** decode_pointer_field and decode_static_field. */
  method DecodeMember(stream: IStream, heap: Allocator, ts: Table, f: HField, wireType: nat, c: Mem)
    returns (ok: bool, r: Mem, ghost toll: Toll)
    requires stream.Valid() && heap.Valid() && !heap.broken && TableOk(ts) && MemberOk(ts, f)
    requires ShapedField(ts, f, c, true) && Ids(c) <= heap.live
    modifies stream, heap
    ensures stream.Valid() && stream.End() <= old(stream.End()) && (ok ==> stream.End() == old(stream.End()))
    ensures ok ==> stream.left <= old(stream.left)
    ensures heap.Valid() && MemberDone(ts, f, old(heap.live), heap.live, heap.broken, c, r, ok, toll)
    ensures AsStep(FeedField(ts, f, c, old(stream.Rest())), ok, r, stream.Rest(), toll)
    ensures MemberWentTo(ts, f, wireType, old(stream.Rest()), ok, toll, stream.Rest())
    decreases stream.left, 4
  {
    hide Ids, Outcome, ShapedMsg, ShapedField, CleanField, TableOk, NoWrap, Owning, Allocator.Valid;
    hide MemberWentTo, TakeMember, TakeString;
    ghost var s := stream.Rest();
    if !f.pointer {
      ok, r, toll := DecodeStatic(stream, heap, ts, f, wireType, c);
    } else if !f.rule.Repeated? {
      ok, r, toll := DecodePointer(stream, heap, ts, f, wireType, c);
    } else if wireType == WT_STRING && f.kind.Value? && f.kind.f.ltype.Packable() {
      toll := NoToll(0);
      ArrayShape(ts, f, c);
      ok, r := DecodePackedPointer(stream, heap, f, c);
      Smooth(ok, old(heap.live), heap.live, Ids(c), Ids(r), 0);
      NumbersShape(ts, f, r, ok);
      TextMember(f, wireType, s);
      ValueWentNowhere(ts, f, wireType, s, ok, toll, stream.Rest());
    } else {
      ok, r, toll := DecodePointerEntry(stream, heap, ts, f, wireType, c);
    }
  }

  // ----- unions -----

  /** The memory of a union about to hold the i-th field (pb_release_union_field and the first
      part of the ONEOF cases): kept if it holds that field already, else released and fresh. */
  method PrepareUnion(heap: Allocator, ts: Table, ty: nat, i: nat, c: Mem) returns (mem: Mem)
    requires heap.Valid() && !heap.broken && TableOk(ts) && ty < |ts| && i < |ts[ty]|
    requires ts[ty][i].rule.Oneof? && FieldOk(ts, ty, i)
    requires ShapedUnion(ts, ts[ty], ts[ty][i].slot, c, true) && Ids(c) <= heap.live
    modifies heap
    ensures heap.Valid() && !heap.broken && Moves(old(heap.live), heap.live, Ids(c), Ids(mem))
    ensures ShapedField(ts, ts[ty][i], mem, true)
    ensures CleanSlot(ts, ts[ty], ts[ty][i].slot, c) ==> CleanField(ts, ts[ty][i], mem)
    ensures c.which != ts[ty][i].tag ==> Ids(mem) == multiset{}
  {
    hide Ids, Moves, Freed, ShapedMsg, TableOk, Clean, Allocator.Valid;
    var fields := ts[ty];
    var f := fields[i];
    OneOfIds(c);
    FindInTable(ts, ty, i);
    if c.which == f.tag {
      Untouched(true, heap.live, Ids(c), 0);
      return c.mem;
    }
    FreedNothing(heap.live, heap.broken);
    if c.which != 0 {
      var j := FindField(fields, c.which).value;
      FieldIsMemory(ts, fields[j], c.mem, true);
      var _ := ReleaseField(heap, ts, fields[j], c.mem);
    }
    AllGivenUp(old(heap.live), heap.live, heap.broken, Ids(c));
    if f.pointer {
      NullIds(Ptr(None));
      return Ptr(None);
    }
    if f.kind.Sub? {
      FreshOwnsNothing(ts, f.kind.ty);
      return Fresh(ts, f.kind.ty);
    }
    FlatIds();
    return Flat;
  }

  lemma FlatIds()
    ensures Ids(Flat) == multiset{}
  {
  }

  /** What a field decoder keeps, in terms of the cell. */
  ghost predicate SlotDone(ts: Table, ty: nat, s: nat, before: multiset<nat>, after: multiset<nat>, broken: bool,
                           c: Mem, r: Mem, ok: bool, toll: Toll)
    requires ty < |ts| && s < |ts[ty]|
  {
    && Outcome(ok, before, after, broken, Ids(c), Ids(r), toll)
    && ShapedSlot(ts, ts[ty], s, r, ok)
    && (CleanSlot(ts, ts[ty], s, c) ==> toll.lost == multiset{} && (ok ==> CleanSlot(ts, ts[ty], s, r)))
    && (NoWrap(ts) ==> toll.leaked == multiset{})
  }

  /** decode_field */
  method DecodeField(stream: IStream, heap: Allocator, ts: Table, ty: nat, i: nat, wireType: nat, c: Mem)
    returns (ok: bool, r: Mem, ghost toll: Toll)
    requires stream.Valid() && heap.Valid() && !heap.broken && TableOk(ts) && ty < |ts| && i < |ts[ty]|
    requires FieldOk(ts, ty, i) && ShapedSlot(ts, ts[ty], ts[ty][i].slot, c, true) && Ids(c) <= heap.live
    modifies stream, heap
    ensures stream.Valid() && stream.End() <= old(stream.End()) && (ok ==> stream.End() == old(stream.End()))
    ensures ok ==> stream.left <= old(stream.left)
    ensures heap.Valid() && SlotDone(ts, ty, ts[ty][i].slot, old(heap.live), heap.live, heap.broken, c, r, ok, toll)
    ensures AsStep(FeedField(ts, ts[ty][i], c, old(stream.Rest())), ok, r, stream.Rest(), toll)
    ensures MemberWentTo(ts, ts[ty][i], wireType, old(stream.Rest()), ok, toll, stream.Rest())
    decreases stream.left, 5
  {
    hide Ids, Moves, Outcome, ShapedField, ShapedSlot, CleanField, CleanSlot, TableOk, NoWrap, FieldNoWrap, MemberDone;
    hide SlotDone, FeedField, Allocator.Valid;
    hide MemberWentTo;
    var f := ts[ty][i];
    SlotIsMember(ts, ty, i, c);
    if !f.rule.Oneof? {
      ok, r, toll := DecodeMember(stream, heap, ts, f, wireType, c);
      MemberIsSlot(ts, ty, i, old(heap.live), heap.live, heap.broken, c, r, ok, toll);
      return;
    }
    var mem := PrepareUnion(heap, ts, ty, i, c);
    ghost var middle := heap.live;
    MovesWithin(old(heap.live), middle, Ids(c), Ids(mem));
    var mem';
    ok, mem', toll := DecodeMember(stream, heap, ts, f, wireType, mem);
    r := OneOf(f.tag, mem');
    MemberIsUnion(ts, ty, i, old(heap.live), middle, heap.live, heap.broken, c, mem, mem', ok, toll);
    NoFeedForUnions(ts, f, c, stream.Rest(), old(stream.Rest()), ok, r, toll);
  }

  lemma NoFeedForUnions(ts: Table, f: HField, c: Mem, rest: seq<byte>, s: seq<byte>, ok: bool, r: Mem, toll: Toll)
    requires f.rule.Oneof?
    ensures AsStep(FeedField(ts, f, c, s), ok, r, rest, toll)
  {
  }

  lemma SlotIsMember(ts: Table, ty: nat, i: nat, c: Mem)
    requires ty < |ts| && i < |ts[ty]| && FieldOk(ts, ty, i) && ShapedSlot(ts, ts[ty], ts[ty][i].slot, c, true)
    ensures MemberOk(ts, ts[ty][i])
    ensures if ts[ty][i].rule.Oneof? then ShapedUnion(ts, ts[ty], ts[ty][i].slot, c, true)
            else ShapedField(ts, ts[ty][i], c, true)
  {
    hide ShapedField, ShapedUnion;
  }

  lemma MemberIsSlot(ts: Table, ty: nat, i: nat, before: multiset<nat>, after: multiset<nat>, broken: bool,
                     c: Mem, r: Mem, ok: bool, toll: Toll)
    requires ty < |ts| && i < |ts[ty]| && FieldOk(ts, ty, i) && !ts[ty][i].rule.Oneof?
    requires MemberDone(ts, ts[ty][i], before, after, broken, c, r, ok, toll)
    ensures SlotDone(ts, ty, ts[ty][i].slot, before, after, broken, c, r, ok, toll)
  {
    hide Ids, Outcome, ShapedField, CleanField, NoWrap, FieldNoWrap;
    WrapAt(ts, ty, i);
  }

  lemma MemberIsUnion(ts: Table, ty: nat, i: nat, before: multiset<nat>, middle: multiset<nat>, after: multiset<nat>,
      broken: bool,
                      c: Mem, mem: Mem, r: Mem, ok: bool, toll: Toll)
    requires TableOk(ts) && ty < |ts| && i < |ts[ty]| && FieldOk(ts, ty, i) && ts[ty][i].rule.Oneof?
    requires Moves(before, middle, Ids(c), Ids(mem))
    requires CleanSlot(ts, ts[ty], ts[ty][i].slot, c) ==> CleanField(ts, ts[ty][i], mem)
    requires MemberDone(ts, ts[ty][i], middle, after, broken, mem, r, ok, toll)
    ensures SlotDone(ts, ty, ts[ty][i].slot, before, after, broken, c, OneOf(ts[ty][i].tag, r), ok, toll)
  {
    hide Ids, Outcome, Moves, ShapedField, CleanField, NoWrap, FieldNoWrap, TableOk;
    WrapAt(ts, ty, i);
    FindInTable(ts, ty, i);
    OneOfIds(OneOf(ts[ty][i].tag, r));
    OutcomeThen(ok, before, middle, after, broken, Ids(c), Ids(mem), Ids(r), toll);
    var u := OneOf(ts[ty][i].tag, r);
    assert Outcome(ok, before, after, broken, Ids(c), Ids(u), toll);
    assert ShapedUnion(ts, ts[ty], ts[ty][i].slot, u, ok);
    assert ok ==> CleanField(ts, ts[ty][i], mem) ==> CleanSlot(ts, ts[ty], ts[ty][i].slot, u);
  }

  lemma WrapAt(ts: Table, ty: nat, i: nat)
    requires ty < |ts| && i < |ts[ty]|
    ensures NoWrap(ts) ==> FieldNoWrap(ts, ts[ty][i])
  {
  }

  // ----- the loop -----

  /** A cell of a struct changes hands. */
  lemma StructOutcome(ok: bool, start: multiset<nat>, before: multiset<nat>, after: multiset<nat>, broken: bool,
                      was: multiset<nat>, m: Mem, s: nat, c: Mem, toll: Toll)
    requires m.Struct? && s < |m.cells| && Moves(start, before, was, Ids(m))
    requires Outcome(ok, before, after, broken, Ids(m.cells[s]), Ids(c), toll)
    ensures Outcome(ok, start, after, broken, was, Ids(Struct(m.cells[s := c])), toll)
  {
    hide Ids, IdsFirst, Moves, Balanced;
    StructIds(m);
    StructIds(Struct(m.cells[s := c]));
    if !broken {
      BalancedCell(before, after, m.cells, |m.cells|, s, c, toll.lost, toll.leaked);
      MovesThen(start, before, after, was, Ids(m), Ids(Struct(m.cells[s := c])), toll.lost, toll.leaked);
    }
  }

  lemma CellLive(live: multiset<nat>, m: Mem, s: nat)
    requires m.Struct? && s < |m.cells| && Ids(m) <= live
    ensures Ids(m.cells[s]) <= live
  {
    hide Ids, IdsFirst;
    StructIds(m);
    IdsUpdate(m.cells, |m.cells|, s, m.cells[s]);
  }

  /** What decoding into an initialized struct keeps. */
  ghost predicate RunDone(ts: Table, ty: nat, before: multiset<nat>, after: multiset<nat>, broken: bool,
                          m: Mem, r: Mem, ok: bool, toll: Toll)
  {
    && Outcome(ok, before, after, broken, Ids(m), Ids(r), toll)
    && ShapedMsg(ts, ty, r, ok)
    && (Clean(ts, ty, m) ==> toll.lost == multiset{} && (ok ==> Clean(ts, ty, r)))
    && (NoWrap(ts) ==> toll.leaked == multiset{})
  }

  /** One record, on an input that leaves nothing to chance. */
  ghost predicate AsRecord(before: Fed, after: Fed, verdict: Verdict, arraysBefore: bool, arrays: bool, toll: Toll) {
    before.Open? ||
    match verdict
    case Continue => before == after && arrays == arraysBefore
    case Finished => false
    case Failed => before.Starved? && toll.lost == before.lost && toll.leaked == multiset{}
  }

  lemma RunOn(ts: Table, ty: nat, l0: multiset<nat>, l1: multiset<nat>, b1: bool, l2: multiset<nat>, b2: bool,
              m: Mem, r: Mem, r': Mem, ok: bool, t1: Toll, t2: Toll, depth: nat)
    requires RunDone(ts, ty, l0, l1, b1, m, r, true, t1) && RunDone(ts, ty, l1, l2, b2, r, r', ok, t2)
    ensures RunDone(ts, ty, l0, l2, b2, m, r', ok, t2.(depth := depth))
  {
    hide Ids, ShapedMsg, Clean, NoWrap, Moves, Outcome;
    OutcomeMoves(l0, l1, b1, Ids(m), Ids(r), t1);
    OutcomeThen(ok, l0, l1, l2, b2, Ids(m), Ids(r), Ids(r'), t2);
    SameToll(ok, l0, l2, b2, Ids(m), Ids(r'), t2);
  }

  lemma RunNothing(ts: Table, ty: nat, live: multiset<nat>, m: Mem, ok: bool, depth: nat)
    requires ShapedMsg(ts, ty, m, true)
    ensures RunDone(ts, ty, live, live, false, m, m, ok, NoToll(depth))
  {
    hide Ids, ShapedMsg, Clean, NoWrap;
    Untouched(ok, live, Ids(m), depth);
    MsgIsMemory(ts, ty, m, true);
  }

  lemma RunFacts(ts: Table, ty: nat, before: multiset<nat>, after: multiset<nat>, broken: bool, m: Mem, r: Mem,
      toll: Toll)
    requires RunDone(ts, ty, before, after, broken, m, r, true, toll) && Ids(m) <= before
    ensures !broken && ShapedMsg(ts, ty, r, true) && Ids(r) <= after
  {
    hide Ids, ShapedMsg, Clean, NoWrap;
    OutcomeMoves(before, after, broken, Ids(m), Ids(r), toll);
  }

  /** A record of the i-th field, in terms of the struct. */
  lemma RunField(ts: Table, ty: nat, i: nat, before: multiset<nat>, after: multiset<nat>, broken: bool,
                 m: Mem, c: Mem, ok: bool, toll: Toll)
    requires ty < |ts| && i < |ts[ty]| && ShapedMsg(ts, ty, m, true) && ts[ty][i].slot < |ts[ty]| == |m.cells|
    requires SlotDone(ts, ty, ts[ty][i].slot, before, after, broken, m.cells[ts[ty][i].slot], c, ok, toll)
    ensures RunDone(ts, ty, before, after, broken, m, Struct(m.cells[ts[ty][i].slot := c]), ok, toll)
  {
    hide Ids, ShapedMsg, ShapedSlot, Clean, CleanSlot, NoWrap, Outcome;
    var s := ts[ty][i].slot;
    SlotsOf(ts, ty, m, true);
    SetSlot(ts, ty, m, s, c, ok);
    Untouched(true, before, Ids(m), 0);
    StructOutcome(ok, before, before, after, broken, Ids(m), m, s, c, toll);
    CleanStep(ts, ty, m, s, c);
  }

  lemma RecordFed(ts: Table, ty: nat, i: nat, m: Mem, seen: set<nat>, s: seq<byte>, word: nat, body: seq<byte>,
                  ok: bool, c: Mem, rest: seq<byte>, arrays: bool, toll: Toll)
    requires s != [] && Decode32(s) == Got(word, body) && word != 0
    requires ty < |ts| && m.Struct? && |m.cells| == |ts[ty]|
    requires FindField(ts[ty], word / 8) == Some(i) && ts[ty][i].slot < |m.cells|
    requires AsStep(FeedField(ts, ts[ty][i], m.cells[ts[ty][i].slot], body), ok, c, rest, toll)
    ensures AsRecord(Feed(ts, ty, m, seen, s),
                     Feed(ts, ty, Struct(m.cells[ts[ty][i].slot := c]), MarkField(ts[ty], i, seen), rest),
                     if ok then Continue else Failed, arrays, arrays || IsNumberArray(ts[ty][i]), toll)
  {
    hide Feed, FeedField;
    FeedRecord(ts, ty, m, seen, s, word, body, i);
    ArraysUnclear(ts, ts[ty][i], m.cells[ts[ty][i].slot], body);
  }

  /** One record of the input, as far as nesting goes. */
  ghost predicate RecordWentTo(ts: Table, ty: nat, s: seq<byte>, verdict: Verdict, depth: nat, rest: seq<byte>) {
    match verdict
    case Continue => Nesting(ts, ty, s) == Max(depth, Nesting(ts, ty, rest))
    case Finished => depth == Nesting(ts, ty, s) == 0
    case Failed => depth <= Nesting(ts, ty, s)
  }

  /** A zero tag or a malformed one ends what is read. */
  lemma NoTagWentTo(ts: Table, ty: nat, s: seq<byte>, verdict: Verdict, rest: seq<byte>)
    requires s != [] && (Decode32(s).Bad? || Decode32(s).val == 0) && !verdict.Continue?
    ensures RecordWentTo(ts, ty, s, verdict, 0, rest)
  {
  }

  /** Records that are of no field. */
  lemma OtherWentTo(ts: Table, ty: nat, s: seq<byte>, tag: nat, wireType: nat, body: seq<byte>, ok: bool,
      rest: seq<byte>)
    requires ty < |ts| && s != [] && wireType < 8 && 8 * tag + wireType > 0
    requires Decode32(s) == Got(8 * tag + wireType, body)
    requires if ts[ty] == [] && tag == 0 then ok ==> Decode32(body).Got? && Decode32(body).rest == rest
             else FindField(ts[ty], tag).None? && (ok ==> Skip(wireType, body) == Got((), rest))
    ensures RecordWentTo(ts, ty, s, if ok then Continue else Failed, 0, rest)
  {
    hide Skip, Decode32;
    TagWordParts(tag, wireType);
  }

  lemma FieldWentTo(ts: Table, ty: nat, s: seq<byte>, tag: nat, wireType: nat, body: seq<byte>, i: nat,
                    ok: bool, toll: Toll, rest: seq<byte>)
    requires ty < |ts| && s != [] && wireType < 8 && 8 * tag + wireType > 0
    requires Decode32(s) == Got(8 * tag + wireType, body) && FindField(ts[ty], tag) == Some(i)
    requires MemberWentTo(ts, ts[ty][i], wireType, body, ok, toll, rest)
    ensures RecordWentTo(ts, ty, s, if ok then Continue else Failed, toll.depth, rest)
  {
    hide TakeMember, Decode32;
    TagWordParts(tag, wireType);
  }

  /** The loop body of pb_decode_noinit. */
  method DecodeRecord(stream: IStream, heap: Allocator, ts: Table, ty: nat, m: Mem, seen: set<nat>, arrays: bool)
    returns (verdict: Verdict, r: Mem, seen': set<nat>, arrays': bool, ghost toll: Toll)
    requires stream.Valid() && stream.left > 0 && heap.Valid() && !heap.broken && TableOk(ts)
    requires ShapedMsg(ts, ty, m, true) && Ids(m) <= heap.live
    modifies stream, heap
    ensures stream.Valid() && stream.End() <= old(stream.End())
    ensures !verdict.Failed? ==> stream.End() == old(stream.End()) && stream.left < old(stream.left)
    ensures heap.Valid() && RunDone(ts, ty, old(heap.live), heap.live, heap.broken, m, r, !verdict.Failed?, toll)
    ensures AsRecord(Feed(ts, ty, m, seen, old(stream.Rest())), Feed(ts, ty, r, seen', stream.Rest()),
                     verdict, arrays, arrays', toll)
    ensures RecordWentTo(ts, ty, old(stream.Rest()), verdict, toll.depth, stream.Rest())
    decreases stream.left, 6
  {
    hide Ids, Moves, Outcome, ShapedMsg, ShapedSlot, TableOk;
    hide FieldOk, Feed, FeedField, Clean, CleanSlot, NoWrap, AllSeen;
    hide RunDone, SlotDone, AsStep, MarkField, RecordWentTo, MemberWentTo, Nesting, Skip, Allocator.Valid;
    r, seen', arrays', toll := m, seen, arrays, NoToll(0);
    ghost var s := stream.Rest();
    SlotsOf(ts, ty, m, true);
    FeedHead(ts, ty, m, seen, s);
    RunNothing(ts, ty, heap.live, m, true, 0);
    RunNothing(ts, ty, heap.live, m, false, 0);
    var got, wireType, tag, eof := stream.DecodeTag();
    if !got {
      verdict := if eof then Finished else Failed;
      NoTagWentTo(ts, ty, s, verdict, stream.Rest());
      return;
    }
    TagWordParts(tag, wireType);
    ghost var body := stream.Rest();
    if ts[ty] == [] && tag == 0 {
      var read, _ := stream.DecodeVarint32();
      verdict := if read then Continue else Failed;
      OtherWentTo(ts, ty, s, tag, wireType, body, read, stream.Rest());
      return;
    }
    var i := FindField(ts[ty], tag);
    if i.None? {
      var skipped := stream.SkipField(wireType);
      verdict := if skipped then Continue else Failed;
      OtherWentTo(ts, ty, s, tag, wireType, body, skipped, stream.Rest());
      return;
    }
    FieldFacts(ts, ty, i.value);
    var slot := ts[ty][i.value].slot;
    CellLive(heap.live, m, slot);
    var ok, c;
    ok, c, toll := DecodeField(stream, heap, ts, ty, i.value, wireType, m.cells[slot]);
    RunField(ts, ty, i.value, old(heap.live), heap.live, heap.broken, m, c, ok, toll);
    RecordFed(ts, ty, i.value, m, seen, s, 8 * tag + wireType, body, ok, c, stream.Rest(), arrays, toll);
    r := Struct(m.cells[slot := c]);
    seen' := MarkField(ts[ty], i.value, seen);
    arrays' := arrays || IsNumberArray(ts[ty][i.value]);
    verdict := if ok then Continue else Failed;
    FieldWentTo(ts, ty, s, tag, wireType, body, i.value, ok, toll, stream.Rest());
  }

  /** pb_decode_noinit: through any run, failing allocations included, the live blocks change by
      exactly those the struct gave up and those it now reaches, but for the toll of a failure. */
  method DecodeNoinit(stream: IStream, heap: Allocator, ts: Table, ty: nat, m: Mem)
    returns (ok: bool, r: Mem, ghost toll: Toll)
    requires stream.Valid() && heap.Valid() && !heap.broken && TableOk(ts)
    requires ShapedMsg(ts, ty, m, true) && Ids(m) <= heap.live
    modifies stream, heap
    ensures stream.Valid() && stream.End() <= old(stream.End()) && (ok ==> stream.End() == old(stream.End()))
    ensures ok ==> stream.left <= old(stream.left)
    ensures heap.Valid() && RunDone(ts, ty, old(heap.live), heap.live, heap.broken, m, r, ok, toll)
    ensures AsFed(Feed(ts, ty, m, {}, old(stream.Rest())), ts[ty], ok, r, toll)
    ensures WentTo(toll.depth, Nesting(ts, ty, old(stream.Rest())), ok) && 2 * toll.depth <= old(stream.left)
    decreases stream.left, 7
  {
    hide Ids, Moves, Outcome, ShapedMsg, TableOk, Feed, Clean, NoWrap, AllSeen, RunDone, Nesting, Allocator.Valid;
    ghost var nesting := Nesting(ts, ty, stream.Rest());
    NestingBound(ts, ty, stream.Rest());
    ghost var fed := Feed(ts, ty, m, {}, stream.Rest());
    ghost var depth: nat := 0;
    r, toll := m, NoToll(0);
    RunNothing(ts, ty, heap.live, m, true, 0);
    var seen: set<nat> := {};
    var arrays := false;
    var verdict := Continue;
    while verdict.Continue? && stream.left > 0
      invariant stream.Valid() && stream.End() == old(stream.End()) && stream.left <= old(stream.left)
      invariant heap.Valid() && !verdict.Failed?
      invariant RunDone(ts, ty, old(heap.live), heap.live, heap.broken, m, r, true, toll)
      invariant fed.Open? || (verdict.Continue? && fed == Feed(ts, ty, r, seen, stream.Rest()) && !arrays)
      invariant toll.depth == depth
      invariant nesting == if verdict.Continue? then Max(depth, Nesting(ts, ty, stream.Rest())) else depth
      decreases stream.left, verdict.Continue?
    {
      RunFacts(ts, ty, old(heap.live), heap.live, heap.broken, m, r, toll);
      ghost var live, broken, before, t := heap.live, heap.broken, r, toll;
      verdict, r, seen, arrays, toll := DecodeRecord(stream, heap, ts, ty, r, seen, arrays);
      depth := Max(depth, toll.depth);
      RunOn(ts, ty, old(heap.live), live, broken, heap.live, heap.broken, m, before, r, !verdict.Failed?, t, toll,
          depth);
      toll := toll.(depth := depth);
      if verdict.Failed? {
        return false, r, toll;
      }
    }
    RunFacts(ts, ty, old(heap.live), heap.live, heap.broken, m, r, toll);
    SlotsOf(ts, ty, r, true);
    if stream.left == 0 {
      NestingNone(ts, ty);
      FeedEnd(ts, ty, r, seen, stream.Rest());
    }
    var complete: bool := *;
    ok := AllSeen(ts[ty], seen) && (arrays ==> complete);
    RunNothing(ts, ty, heap.live, r, ok, 0);
    RunOn(ts, ty, old(heap.live), heap.live, heap.broken, heap.live, heap.broken, m, r, r, ok, toll, NoToll(0), depth);
    toll := NoToll(0).(depth := depth);
  }

  predicate IsNumberArray(f: HField) {
    !f.pointer && f.kind.Value? && f.rule.Repeated?
  }

  lemma ArraysUnclear(ts: Table, f: HField, c: Mem, s: seq<byte>)
    ensures IsNumberArray(f) ==> FeedField(ts, f, c, s).Unclear?
  {
  }

  /** Where the record at the front is not that of a field, nothing is said. */
  lemma FeedHead(ts: Table, ty: nat, m: Mem, seen: set<nat>, s: seq<byte>)
    requires s != []
    ensures Decode32(s).Bad? || Decode32(s).val == 0 || ty >= |ts| || FindField(ts[ty], Decode32(s).val / 8).None? ==>
              Feed(ts, ty, m, seen, s).Open?
  {
  }

  lemma FeedEnd(ts: Table, ty: nat, m: Mem, seen: set<nat>, s: seq<byte>)
    requires ty < |ts| && m.Struct? && |m.cells| == |ts[ty]| && s == []
    ensures Feed(ts, ty, m, seen, s) == Kept(m, seen)
  {
  }

  lemma CleanStep(ts: Table, ty: nat, m: Mem, s: nat, c: Mem)
    requires ty < |ts| && m.Struct? && s < |m.cells| == |ts[ty]|
    ensures Clean(ts, ty, m) ==> CleanSlot(ts, ts[ty], s, m.cells[s])
    ensures Clean(ts, ty, m) && CleanSlot(ts, ts[ty], s, c) ==> Clean(ts, ty, Struct(m.cells[s := c]))
  {
  }
}
