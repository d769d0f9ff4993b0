/**
 The heap of a build with PB_ENABLE_MALLOC, and memory seen as what it owns (pb_decode.c:486-550).

 A pointer and the block it points to are one node, so that a struct with everything reachable
 from it is a tree; blocks carry the identity the allocator gave them. Ids collects the
 identities a tree reaches, with multiplicity: a block reached twice or one that is not live shows
 up in it. Memory that was never initialized is such a tree too: what lies in it is read as the
 struct it has room for.
 */
module Heap {
  import opened Wrappers
  import opened Varint
  import opened Integers
  import opened Schema

  /** Memory: values without pointers; structs; pointers to one item; arrays of submessages inside
      a struct with their _count; pointers to an array with its _count; unions with which_. */
  datatype Mem =
    | Flat
    | Struct(cells: seq<Mem>)
    | Ptr(block: Option<Block>)
    | StaticArray(count: nat, items: seq<Mem>)
    | PtrArray(count: nat, block: Option<Block>)
    | OneOf(which: nat, mem: Mem)

  /** An allocated block: how many entries it has room for (bytes, for a text), and those that can
      own something. */
  datatype Block = Block(id: nat, capacity: nat, items: seq<Mem>)

  /** Stands for what is found behind a NULL pointer. No block has this identity. */
  const NULL_READ: nat := 0

  function Min(a: nat, b: nat): nat {
    if a < b then a else b
  }

  /** The blocks reachable from a piece of memory, as pb_release reaches them: array entries up
      to the count, clamped to the array; the selected member of a union. */
  function Ids(m: Mem): multiset<nat>
    decreases m, 0
  {
    match m
    case Flat => multiset{}
    case Struct(cells) => IdsFirst(cells, |cells|)
    case Ptr(b) => if b.None? then multiset{} else multiset{b.value.id} + IdsFirst(b.value.items, |b.value.items|)
    case StaticArray(count, items) => IdsFirst(items, Min(count, |items|))
    case PtrArray(count, b) =>
      if b.None? then if count == 0 then multiset{} else multiset{NULL_READ}
      else multiset{b.value.id} + IdsFirst(b.value.items, Min(count, |b.value.items|))
    case OneOf(which, mem) => if which == 0 then multiset{} else Ids(mem)
  }

  function IdsFirst(ms: seq<Mem>, n: nat): multiset<nat>
    requires n <= |ms|
    decreases ms, n
  {
    if n == 0 then multiset{} else IdsFirst(ms, n - 1) + Ids(ms[n - 1])
  }

  lemma {:induction false} IdsFirstSame(a: seq<Mem>, b: seq<Mem>, n: nat)
    requires n <= |a| && n <= |b| && forall k :: 0 <= k < n ==> a[k] == b[k]
    ensures IdsFirst(a, n) == IdsFirst(b, n)
    decreases n
  {
    hide Ids;
    if n > 0 {
      IdsFirstSame(a, b, n - 1);
    }
  }

  /** What the other cells own does not depend on the i-th. */
  lemma {:induction false} IdsUpdate(ms: seq<Mem>, n: nat, i: nat, m: Mem)
    requires i < n <= |ms|
    ensures Ids(ms[i]) <= IdsFirst(ms, n)
    ensures IdsFirst(ms[i := m], n) == IdsFirst(ms, n) - Ids(ms[i]) + Ids(m)
    decreases n
  {
    hide Ids;
    if i == n - 1 {
      IdsFirstSame(ms, ms[i := m], n - 1);
    } else {
      IdsUpdate(ms, n - 1, i, m);
      ReplacePart(IdsFirst(ms, n - 1), Ids(ms[i]), Ids(m), Ids(ms[n - 1]));
    }
  }

  lemma ReplacePart(p: multiset<nat>, a: multiset<nat>, b: multiset<nat>, c: multiset<nat>)
    requires a <= p
    ensures a <= p + c && p - a + b + c == p + c - a + b
  {
  }

  // ----- the books -----

  /** How an operation on memory that owned a before and reaches b afterwards moved the live
      blocks. leaked are live blocks nothing reaches any more; lost are blocks that were freed or
      became reachable without being the memory's own. */
  ghost predicate Balanced(before: multiset<nat>, after: multiset<nat>, a: multiset<nat>, b: multiset<nat>,
                           lost: multiset<nat>, leaked: multiset<nat>)
  {
    after + a + lost == before + b + leaked
  }

  /** Nothing was lost or leaked: the blocks in a were given up and those in b gained. */
  ghost predicate Moves(before: multiset<nat>, after: multiset<nat>, a: multiset<nat>, b: multiset<nat>) {
    after + a == before + b
  }

  lemma MovesThen(l0: multiset<nat>, l1: multiset<nat>, l2: multiset<nat>,
                  a: multiset<nat>, b: multiset<nat>, c: multiset<nat>, lost: multiset<nat>, leaked: multiset<nat>)
    requires Moves(l0, l1, a, b) && Balanced(l1, l2, b, c, lost, leaked)
    ensures Balanced(l0, l2, a, c, lost, leaked)
  {
    forall id
      ensures (l2 + a + lost)[id] == (l0 + c + leaked)[id]
    {
      assert (l1 + a)[id] == (l0 + b)[id] && (l2 + b + lost)[id] == (l1 + c + leaked)[id];
    }
  }

  lemma MovesIsBalanced(before: multiset<nat>, after: multiset<nat>, a: multiset<nat>, b: multiset<nat>)
    ensures Moves(before, after, a, b) <==> Balanced(before, after, a, b, multiset{}, multiset{})
  {
    assert after + a + multiset{} == after + a && before + b + multiset{} == before + b;
  }

  lemma MovesOn(l0: multiset<nat>, l1: multiset<nat>, l2: multiset<nat>,
                a: multiset<nat>, b: multiset<nat>, c: multiset<nat>)
    requires Moves(l0, l1, a, b) && Moves(l1, l2, b, c)
    ensures Moves(l0, l2, a, c)
  {
    MovesIsBalanced(l1, l2, b, c);
    MovesThen(l0, l1, l2, a, b, c, multiset{}, multiset{});
    MovesIsBalanced(l0, l2, a, c);
  }

  /** What is owned beside stays owned. */
  lemma BalancedBeside(before: multiset<nat>, after: multiset<nat>, a: multiset<nat>, b: multiset<nat>,
                       r: multiset<nat>, lost: multiset<nat>, leaked: multiset<nat>)
    requires Balanced(before, after, a, b, lost, leaked)
    ensures Balanced(before, after, a + r, b + r, lost, leaked)
  {
    forall id
      ensures (after + (a + r) + lost)[id] == (before + (b + r) + leaked)[id]
    {
      assert (after + a + lost)[id] == (before + b + leaked)[id];
    }
  }

  /** A cell of a struct or array changed hands. */
  lemma BalancedCell(before: multiset<nat>, after: multiset<nat>, ms: seq<Mem>, n: nat, i: nat, m: Mem,
                     lost: multiset<nat>, leaked: multiset<nat>)
    requires i < n <= |ms| && Balanced(before, after, Ids(ms[i]), Ids(m), lost, leaked)
    ensures Balanced(before, after, IdsFirst(ms, n), IdsFirst(ms[i := m], n), lost, leaked)
  {
    hide Ids, IdsFirst, Balanced;
    IdsUpdate(ms, n, i, m);
    var r := IdsFirst(ms, n) - Ids(ms[i]);
    assert IdsFirst(ms, n) == Ids(ms[i]) + r && IdsFirst(ms[i := m], n) == Ids(m) + r;
    BalancedBeside(before, after, Ids(ms[i]), Ids(m), r, lost, leaked);
  }

  lemma MovesWithin(before: multiset<nat>, after: multiset<nat>, a: multiset<nat>, b: multiset<nat>)
    requires Moves(before, after, a, b) && a <= before
    ensures b <= after
  {
    forall id
      ensures b[id] <= after[id]
    {
      assert (after + a)[id] == (before + b)[id];
    }
  }

  /** Blocks freed one after the other; the heap breaks when one of them is not live. */
  ghost predicate Freed(before: multiset<nat>, brokenBefore: bool, after: multiset<nat>, broken: bool,
      a: multiset<nat>) {
    && after == before - a
    && (broken <==> brokenBefore || !(a <= before))
  }

  lemma FreedOn(l0: multiset<nat>, b0: bool, l1: multiset<nat>, b1: bool, l2: multiset<nat>, b2: bool,
                a: multiset<nat>, c: multiset<nat>)
    requires Freed(l0, b0, l1, b1, a) && Freed(l1, b1, l2, b2, c)
    ensures Freed(l0, b0, l2, b2, a + c)
  {
    assert l0 - a - c == l0 - (a + c);
    if a + c <= l0 {
      assert a <= l0;
      assert forall id :: c[id] <= l0[id] - a[id];
    }
  }

  lemma FreedNothing(live: multiset<nat>, broken: bool)
    ensures Freed(live, broken, live, broken, multiset{})
  {
  }

  // ----- the allocator -----

  class Allocator {
    var live: multiset<nat>
    var next: nat
    /** A block was freed that was not live, or a NULL pointer was read. */
    ghost var broken: bool

    ghost predicate Valid()
      reads this
    {
      next > NULL_READ && forall id :: id in live ==> NULL_READ < id < next && live[id] == 1
    }

    /** pb_realloc: may fail at any time and then changes nothing; otherwise the old block, if
        any, is replaced by a new one. */
    method Realloc(was: Option<Block>) returns (id: Option<nat>)
      requires Valid() && (was.Some? ==> was.value.id in live)
      modifies this`live, this`next
      ensures Valid()
      ensures id.None? ==> live == old(live)
      ensures id.Some? ==>
                live == (if was.Some? then old(live) - multiset{was.value.id} else old(live)) + multiset{id.value}
      ensures id.Some? ==> id.value !in old(live)
    {
      var fails: bool := *;
      if fails {
        return None;
      }
      if was.Some? {
        live := live - multiset{was.value.id};
      }
      id := Some(next);
      live := live + multiset{next};
      next := next + 1;
    }

    /** pb_free */
    method Free(id: nat)
      requires Valid()
      modifies this`live, this`broken
      ensures Valid() && Freed(old(live), old(broken), live, broken, multiset{id})
    {
      if id !in live {
        broken := true;
        assert live - multiset{id} == live;
      }
      live := live - multiset{id};
    }

    /** An access through a NULL pointer. */
    method ReadNull()
      requires Valid()
      modifies this`broken
      ensures Valid() && Freed(live, old(broken), live, broken, multiset{NULL_READ})
    {
      broken := true;
      assert live - multiset{NULL_READ} == live;
      assert NULL_READ in multiset{NULL_READ};
    }
  }

  // ----- allocate_field -----

  /** size_t: 64 bits */
  const SIZE_MAX: nat := 0xFFFF_FFFF_FFFF_FFFF
  const CHECK_LIMIT: nat := 0x1_0000_0000

  /** The overflow guard: a division only when one factor has bits in the upper half. */
  predicate SizeTooLarge(dataSize: nat, arraySize: nat)
    requires arraySize > 0
  {
    (dataSize >= CHECK_LIMIT || arraySize >= CHECK_LIMIT) && SIZE_MAX / arraySize < dataSize
  }

  /** For sizes of type size_t, the guard lets through exactly the pairs whose product is one. */
  lemma SizeGuardExact(dataSize: nat, arraySize: nat)
    requires 0 < dataSize <= SIZE_MAX && 0 < arraySize <= SIZE_MAX
    ensures SizeTooLarge(dataSize, arraySize) <==> dataSize * arraySize > SIZE_MAX
  {
    if dataSize < CHECK_LIMIT && arraySize < CHECK_LIMIT {
      Product(dataSize, arraySize, CHECK_LIMIT - 1);
    } else {
      DivisionGuard(SIZE_MAX, dataSize, arraySize);
    }
  }

  lemma Product(a: nat, b: nat, m: nat)
    requires a <= m && b <= m
    ensures a * b <= m * m
  {
    MulMonotonic(a, b, m);
    MulMonotonic(m, a, m);
    assert m * a == a * m;
  }

  lemma DivisionGuard(max: nat, d: nat, a: nat)
    requires a > 0
    ensures max / a < d <==> d * a > max
  {
    var q := max / a;
    assert a * q + max % a == max;
    if q < d {
      MulMonotonic(a, q + 1, d);
      assert a * (q + 1) == a * q + a;
    } else {
      MulMonotonic(a, d, q);
    }
    assert a * d == d * a;
  }
}
