/**
 Integers of the three varint kinds and the fixed-width words: the casts, the zigzag shifts and
 the width checks of pb_encode.c:630-671, 776-833 and pb_decode.c:1279-1328, 1339-1422.

 C's fixed-width integers are modelled by unbounded ones, with every conversion that can wrap
 written out.
 */
module Integers {
  import opened Wrappers
  import opened Varint

  /** PB_LTYPE_VARINT, PB_LTYPE_UVARINT and PB_LTYPE_SVARINT. */
  datatype IntKind = Signed | Unsigned | ZigZag

  predicate IsWidth(size: nat) {
    size == 1 || size == 2 || size == 4 || size == 8
  }

  /** Number of values of an integer of `size` bytes. */
  function Span(size: nat): (n: nat)
    ensures n > 0 && n % 2 == 0
  {
    if size == 1 then 0x100
    else if size == 2 then 0x1_0000
    else if size == 4 then TWO32
    else TWO64
  }

  /** The integers a field of this kind and width can hold. */
  predicate InRange(kind: IntKind, size: nat, n: int) {
    if kind.Unsigned? then 0 <= n < Span(size) else -(Span(size) / 2) <= n < Span(size) / 2
  }

  /** Conversion to an unsigned integer of `size` bytes. */
  function ToUnsigned(n: int, size: nat): (u: nat)
    ensures u < Span(size)
  {
    if size == 1 then n % 0x100
    else if size == 2 then n % 0x1_0000
    else if size == 4 then n % TWO32
    else n % TWO64
  }

  /** Conversion to a two's complement integer of `size` bytes. */
  function ToSigned(n: int, size: nat): int {
    var u := ToUnsigned(n, size);
    if u < Span(size) / 2 then u else u - Span(size)
  }

  /** Bitwise complement of a 64-bit word. */
  function Not64(u: nat): nat
    requires u < TWO64
  {
    TWO64 - 1 - u
  }

  function ZigZagOf(n: int): (u: nat)
    ensures u < TWO64
  {
    var shifted := 2 * ToUnsigned(n, 8) % TWO64;
    if n < 0 then Not64(shifted) else shifted
  }

  function UnZigZag(u: nat): int
    requires u < TWO64
  {
    if u % 2 == 1 then ToSigned(Not64(u / 2), 8) else ToSigned(u / 2, 8)
  }

  /** The 64-bit word written for an integer field; none for an invalid data_size. */
  function VarintOf(kind: IntKind, size: nat, n: int): (v: Option<nat>)
    ensures v.Some? ==> v.value < TWO64
  {
    if !IsWidth(size) then None
    else if kind.ZigZag? then Some(ZigZagOf(n))
    else Some(ToUnsigned(n, 8))
  }

  /** The integer stored for a 64-bit word, if the field can hold it. Signed fields of up to
      four bytes first cut the word to 32 bits. */
  function IntegerOf(kind: IntKind, size: nat, v: nat): Option<int>
    requires v < TWO64
  {
    var value := match kind
      case Signed => if size == 8 then ToSigned(v, 8) else ToSigned(v, 4)
      case Unsigned => v
      case ZigZag => UnZigZag(v);
    if !IsWidth(size) then None
    else
      var clamped := if kind.Unsigned? then ToUnsigned(value, size) else ToSigned(value, size);
      if clamped == value then Some(value) else None
  }

  // ----- zigzag -----

  /** Zigzag is the bijection 0, -1, 1, -2, ... of the int64 range onto the uint64 range. */
  lemma ZigZagBijection(n: int, u: nat)
    requires -TWO63 <= n < TWO63 && u < TWO64
    ensures ZigZagOf(n) == if n < 0 then -2 * n - 1 else 2 * n
    ensures UnZigZag(ZigZagOf(n)) == n
    ensures -TWO63 <= UnZigZag(u) < TWO63 && ZigZagOf(UnZigZag(u)) == u
  {
    ZigZagValue(n);
    UnZigZagValue(ZigZagOf(n));
    UnZigZagValue(u);
    ZigZagValue(UnZigZag(u));
  }

  lemma ZigZagValue(n: int)
    requires -TWO63 <= n < TWO63
    ensures ZigZagOf(n) == if n < 0 then -2 * n - 1 else 2 * n
  {
    if n < 0 {
      assert ToUnsigned(n, 8) == n + TWO64;
      assert 2 * (n + TWO64) % TWO64 == 2 * n + TWO64;
    } else {
      assert ToUnsigned(n, 8) == n;
    }
  }

  lemma UnZigZagValue(u: nat)
    requires u < TWO64
    ensures UnZigZag(u) == if u % 2 == 1 then -(u / 2) - 1 else u / 2
  {
    var h := u / 2;
    assert ToUnsigned(h, 8) == h;
    assert ToUnsigned(Not64(h), 8) == Not64(h);
  }

  // ----- integer fields -----

  /** The 64-bit word that carries an integer: sign-extended, or zigzag. */
  function WordOf(kind: IntKind, n: int): nat
    requires -TWO63 <= n
  {
    if kind.ZigZag? then if n < 0 then -2 * n - 1 else 2 * n
    else if n < 0 then n + TWO64 else n
  }

  /** An integer of any width is written as its 64-bit word, and reading that at the same width gives
      it back. */
  lemma IntegerRoundTrip(kind: IntKind, size: nat, n: int)
    requires IsWidth(size) && InRange(kind, size, n)
    ensures -TWO63 <= n && VarintOf(kind, size, n) == Some(WordOf(kind, n))
    ensures IntegerOf(kind, size, VarintOf(kind, size, n).value) == Some(n)
  {
    hide ToSigned, UnZigZag;
    WordWritten(kind, size, n);
    match kind
    case ZigZag =>
      ZigZagBijection(n, 0);
      ToSignedOfSmall(n, size);
    case Unsigned =>
    case Signed =>
      ToSignedOfUnsigned(n, size);
      ToSignedOfSmall(n, size);
  }

  lemma WordWritten(kind: IntKind, size: nat, n: int)
    requires IsWidth(size) && InRange(kind, size, n)
    ensures -TWO63 <= n && VarintOf(kind, size, n) == Some(WordOf(kind, n))
  {
    hide ZigZagOf;
    if kind.ZigZag? { ZigZagValue(n); }
  }

  lemma ToSignedOfSmall(n: int, size: nat)
    requires -(Span(size) / 2) <= n < Span(size) / 2
    ensures ToSigned(n, size) == n
  {
    if n < 0 {
      assert ToUnsigned(n, size) == n + Span(size);
    }
  }

  /** A signed value survives the widening to 64 bits and, up to four bytes, the later cut to 32. */
  lemma ToSignedOfUnsigned(n: int, size: nat)
    requires IsWidth(size) && -(Span(size) / 2) <= n < Span(size) / 2
    ensures ToSigned(ToUnsigned(n, 8), if size == 8 then 8 else 4) == n
  {
    assert ToUnsigned(n, 8) == if n < 0 then n + TWO64 else n;
    if size != 8 && n < 0 {
      assert (n + TWO64) % TWO32 == n + TWO32;
    }
  }

  /** The number a 64-bit word stands for in a field: the word itself, its zigzag counterpart, or its
      two's complement reading, for which fields of up to four bytes look at the low 32 bits. */
  function WordValue(kind: IntKind, size: nat, v: nat): int {
    if kind.Unsigned? then v
    else if kind.ZigZag? then if v % 2 == 1 then -(v / 2) - 1 else v / 2
    else if size == 8 then if v < TWO63 then v else v - TWO64
    else if v % TWO32 < TWO31 then v % TWO32 else v % TWO32 - TWO32
  }

  /** Exactly which words a field accepts, and what it then stores: those whose number fits it. */
  lemma IntegerAccepts(kind: IntKind, size: nat, v: nat)
    requires IsWidth(size) && v < TWO64
    ensures var n := WordValue(kind, size, v);
            IntegerOf(kind, size, v) == if InRange(kind, size, n) then Some(n) else None
  {
    match kind
    case Unsigned =>
    case ZigZag =>
      UnZigZagValue(v);
      FitsIffUnchanged(UnZigZag(v), size);
    case Signed => FitsIffUnchanged(ToSigned(v, if size == 8 then 8 else 4), size);
  }

  lemma FitsIffUnchanged(n: int, size: nat)
    ensures ToSigned(n, size) == n <==> -(Span(size) / 2) <= n < Span(size) / 2
  {
    if -(Span(size) / 2) <= n < Span(size) / 2 {
      ToSignedOfSmall(n, size);
    }
  }

  // ----- fixed-width words -----

  /** The n low bytes of a word, least significant first. */
  function LittleEndian(v: nat, n: nat): (s: seq<byte>)
    ensures |s| == n
  {
    if n == 0 then [] else [v % 256] + LittleEndian(v / 256, n - 1)
  }

  function FromLittleEndian(s: seq<byte>): nat {
    if s == [] then 0 else s[0] + 256 * FromLittleEndian(s[1..])
  }

  lemma {:induction false} LittleEndianRoundTrip(v: nat, n: nat)
    requires v < Pow2(8 * n)
    ensures FromLittleEndian(LittleEndian(v, n)) == v
  {
    if n > 0 {
      assert Pow2(8 * n) == 256 * Pow2(8 * (n - 1)) by { Pow2Plus7(8 * (n - 1)); }
      LittleEndianRoundTrip(v / 256, n - 1);
      assert LittleEndian(v, n)[1..] == LittleEndian(v / 256, n - 1);
    }
  }

  lemma {:induction false} FromLittleEndianBound(s: seq<byte>)
    ensures FromLittleEndian(s) < Pow2(8 * |s|)
  {
    if s != [] {
      FromLittleEndianBound(s[1..]);
      assert Pow2(8 * |s|) == 256 * Pow2(8 * (|s| - 1)) by { Pow2Plus7(8 * (|s| - 1)); }
    }
  }

  /** A word of four bytes, the lowest first. */
  function FourBytes(a: nat, b: nat, c: nat, d: nat): nat {
    a + 0x100 * b + 0x1_0000 * c + 0x100_0000 * d
  }

  /** Words of four and eight bytes, byte by byte. */
  lemma WordBytes(s: seq<byte>)
    ensures |s| == 4 ==> FromLittleEndian(s) == FourBytes(s[0], s[1], s[2], s[3])
    ensures |s| == 8 ==>
              FromLittleEndian(s) == FourBytes(s[0], s[1], s[2], s[3]) + TWO32 * FourBytes(s[4], s[5], s[6], s[7])
  {
    if |s| == 4 {
      LowBytes(s);
      assert s[4..] == [];
    } else if |s| == 8 {
      LowBytes(s);
      LowBytes(s[4..]);
      assert s[4..][4..] == [];
    }
  }

  lemma LowBytes(s: seq<byte>)
    requires |s| >= 4
    ensures FromLittleEndian(s) == FourBytes(s[0], s[1], s[2], s[3]) + TWO32 * FromLittleEndian(s[4..])
  {
    assert s[1..][1..] == s[2..] && s[2..][1..] == s[3..] && s[3..][1..] == s[4..];
    assert FromLittleEndian(s[3..]) == s[3] + 256 * FromLittleEndian(s[4..]);
    assert FromLittleEndian(s[2..]) == s[2] + 256 * FromLittleEndian(s[3..]);
    assert FromLittleEndian(s[1..]) == s[1] + 256 * FromLittleEndian(s[2..]);
  }

  lemma Pow2Words()
    ensures Pow2(32) == TWO32 && Pow2(64) == TWO64
  {
    Pow2Values();
    assert Pow2(32) == 16 * Pow2(28) by { assert Pow2(32) == 2 * Pow2(31) == 4 * Pow2(30) == 8 * Pow2(29); }
    assert Pow2(64) == 2 * Pow2(63);
  }
}
