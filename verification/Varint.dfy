/**
 Base 128 varints (pb_decode.c:187-276, pb_encode.c:608-628).

 A varint is read up to and including its first byte below 128. The two decoders of the
 source differ in what they accept and in how many low bits they keep; here both are stated
 by the number the bytes denote, not by their loops.
 */
module Varint {
  import opened Wrappers

  const TWO31 := 0x8000_0000
  const TWO32 := 0x1_0000_0000
  const TWO63 := 0x8000_0000_0000_0000
  const TWO64 := 0x1_0000_0000_0000_0000

  /** Two to the power n: the value of `1 << n`. */
  function Pow2(n: nat): (p: nat)
    ensures p >= 1
  {
    if n == 0 then 1 else 2 * Pow2(n - 1)
  }

  /** Number of bytes up to and including the first one below 128; 0 when there is none. */
  function VarintLen(s: seq<byte>): (n: nat)
    ensures n <= |s|
  {
    if s == [] then 0
    else if s[0] < 128 then 1
    else
      var n := VarintLen(s[1..]);
      if n == 0 then 0 else n + 1
  }

  /** The little-endian base-128 number a byte string stands for. */
  function Denote(s: seq<byte>): nat {
    if s == [] then 0 else s[0] % 128 + 128 * Denote(s[1..])
  }

  /** The 64-bit decoder: one to ten bytes, value modulo 2^64. */
  function Decode64(s: seq<byte>): (r: Parsed<nat>)
    ensures r.Got? ==> r.val < TWO64 && |r.rest| < |s|
  {
    var n := VarintLen(s);
    if 1 <= n <= 10 then Got(Denote(s[..n]) % TWO64, s[n..]) else Bad
  }

  /** The byte the 32-bit decoder takes for sign extension at byte position i. */
  function SignExtension(i: nat): byte {
    if 7 * i < 63 then 0xFF else 0x01
  }

  /** Bit 31 of the number a varint denotes; it lies in the fifth byte. */
  predicate Bit31(v: seq<byte>)
    requires |v| > 4
  {
    v[4] / 8 % 2 == 1
  }

  /**
   The bits above 31 that the 32-bit decoder lets pass: none in a five-byte varint; in a
   longer one, each byte from the sixth on is empty or extends a set bit 31. (Bits 32 to 34,
   which lie in the fifth byte, are not looked at when more bytes follow.)
   */
  predicate Accepts32(v: seq<byte>) {
    && (|v| == 5 ==> v[4] % 128 < 16)
    && (forall i :: 5 <= i < |v| ==> v[i] % 128 == 0 || (Bit31(v) && v[i] == SignExtension(i)))
  }

  /** The 32-bit decoder. */
  function Decode32(s: seq<byte>): (r: Parsed<nat>)
    ensures r.Got? ==> r.val < TWO32 && |r.rest| < |s|
  {
    var n := VarintLen(s);
    if n >= 1 && Accepts32(s[..n]) then Got(Denote(s[..n]) % TWO32, s[n..]) else Bad
  }

  /** The encoding of a number: seven bits a byte, least significant first. */
  function Encode(v: nat): (s: seq<byte>)
    ensures |s| >= 1
  {
    if v < 128 then [v] else [128 + v % 128] + Encode(v / 128)
  }

  // ----- reading does not depend on what follows -----

  lemma {:induction false} VarintLenExtends(s: seq<byte>, t: seq<byte>)
    requires VarintLen(s) > 0
    ensures VarintLen(s + t) == VarintLen(s)
  {
    if s[0] >= 128 {
      VarintLenExtends(s[1..], t);
      assert (s + t)[1..] == s[1..] + t;
    }
  }

  lemma Decode64Extends(s: seq<byte>, t: seq<byte>)
    requires Decode64(s).Got?
    ensures Decode64(s + t) == Decode64(s).Then(t)
  {
    VarintLenExtends(s, t);
    var n := VarintLen(s);
    assert (s + t)[..n] == s[..n];
    assert (s + t)[n..] == s[n..] + t;
  }

  lemma Decode32Extends(s: seq<byte>, t: seq<byte>)
    requires Decode32(s).Got?
    ensures Decode32(s + t) == Decode32(s).Then(t)
  {
    VarintLenExtends(s, t);
    var n := VarintLen(s);
    assert (s + t)[..n] == s[..n];
    assert (s + t)[n..] == s[n..] + t;
  }

  // ----- the two decoders agree -----

  /** Where both decoders accept, they consume the same bytes and the short result is the
      long one modulo 2^32. */
  lemma DecodersAgree(s: seq<byte>)
    requires Decode32(s).Got? && Decode64(s).Got?
    ensures Decode32(s).rest == Decode64(s).rest
    ensures Decode32(s).val == Decode64(s).val % TWO32
  {
    var v := Denote(s[..VarintLen(s)]);
    assert v == TWO64 * (v / TWO64) + v % TWO64;
    assert TWO64 == TWO32 * TWO32;
    var q := TWO32 * (v / TWO64);
    assert v == TWO32 * q + v % TWO64;
  }

  // ----- encode then decode -----

  lemma {:induction false} EncodeIsVarint(v: nat, t: seq<byte>)
    ensures VarintLen(Encode(v) + t) == |Encode(v)|
    ensures Denote(Encode(v)) == v
  {
    if v >= 128 {
      EncodeIsVarint(v / 128, t);
      assert (Encode(v) + t)[1..] == Encode(v / 128) + t;
      assert Encode(v)[1..] == Encode(v / 128);
    } else {
      assert Encode(v)[1..] == [];
    }
  }

  /** Byte count of an encoding, from a bound on the number. */
  lemma {:induction false} EncodeLength(v: nat, k: nat)
    requires 1 <= k && v < Pow2(7 * k)
    ensures |Encode(v)| <= k
    ensures k >= 2 && v >= Pow2(7 * (k - 1)) ==> |Encode(v)| == k
    decreases k
  {
    if k == 1 {
      Pow2Plus7(0);
    } else {
      Pow2Plus7(7 * (k - 1));
      Pow2Plus7(7 * (k - 2));
      if v >= 128 {
        EncodeLength(v / 128, k - 1);
        if k == 2 { Pow2Plus7(0); }
      } else {
        if k == 2 { Pow2Plus7(0); }
        Pow2Monotonic(7, 7 * (k - 1));
      }
    }
  }

  lemma Pow2Plus7(n: nat)
    ensures Pow2(n + 7) == 128 * Pow2(n)
  {
    assert Pow2(n + 7) == 2 * Pow2(n + 6) == 4 * Pow2(n + 5) == 8 * Pow2(n + 4);
    assert Pow2(n + 4) == 2 * Pow2(n + 3) == 4 * Pow2(n + 2) == 8 * Pow2(n + 1);
  }

  /** Every 64-bit number fits the encoder's ten-byte buffer, and decoding its encoding in
      front of anything gives the number back and leaves the rest. */
  lemma RoundTrip64(v: nat, t: seq<byte>)
    requires v < TWO64
    ensures |Encode(v)| <= 10
    ensures Decode64(Encode(v) + t) == Got(v, t)
  {
    hide Encode, Denote;
    EncodeFits(v);
    EncodeIsVarint(v, t);
    var e := Encode(v);
    assert (e + t)[..|e|] == e;
    assert (e + t)[|e|..] == t;
  }

  lemma EncodeFits(v: nat)
    requires v < TWO64
    ensures |Encode(v)| <= 10
  {
    Pow2Values();
    EncodeLength(v, 10);
  }

  lemma PowZero()
    ensures Pow2(0) == 1
  {
  }

  lemma Pow2Values()
    ensures Pow2(7) == 0x80 && Pow2(14) == 0x4000 && Pow2(21) == 0x20_0000 && Pow2(28) == 0x1000_0000
    ensures Pow2(35) == 0x8_0000_0000 && Pow2(42) == 0x400_0000_0000 && Pow2(49) == 0x2_0000_0000_0000
    ensures Pow2(56) == 0x100_0000_0000_0000 && Pow2(63) == TWO63 && Pow2(70) == 0x40_0000_0000_0000_0000
  {
    hide Pow2;
    PowZero();
    Pow2Plus7(0); Pow2Plus7(7); Pow2Plus7(14); Pow2Plus7(21); Pow2Plus7(28);
    Pow2Plus7(35); Pow2Plus7(42); Pow2Plus7(49); Pow2Plus7(56); Pow2Plus7(63);
  }

  /** The last byte of an encoding is the leading base-128 digit: below 128, and zero only
      for the number zero. */
  lemma {:induction false} EncodeLast(v: nat)
    ensures Encode(v)[|Encode(v)| - 1] < 128
    ensures v > 0 ==> Encode(v)[|Encode(v)| - 1] > 0
  {
    if v >= 128 {
      EncodeLast(v / 128);
    }
  }

  /** The i-th base-128 digit. */
  function Digit(v: nat, i: nat): (d: nat)
    ensures d < 128
  {
    if i == 0 then v % 128 else Digit(v / 128, i - 1)
  }

  /** The 64-bit numbers whose encodings the 32-bit decoder reads: those below 2^32, and those with
      bits 31 and 63 set in which each of the seven-bit groups in between is all zeros or all
      ones. */
  predicate Reads32(v: nat) {
    v < TWO32 ||
    (v >= TWO63 && v / TWO31 % 2 == 1 && forall i :: 5 <= i < 9 ==> Digit(v, i) == 0 || Digit(v, i) == 127)
  }

  lemma {:induction false} EncodeDigit(v: nat, i: nat)
    requires i < |Encode(v)|
    ensures Encode(v)[i] == Digit(v, i) + if i < |Encode(v)| - 1 then 128 else 0
    decreases i
  {
    if i > 0 {
      assert Encode(v)[1..] == Encode(v / 128);
      EncodeDigit(v / 128, i - 1);
    }
  }

  /** On the encoding of any 64-bit number, exactly when the 32-bit decoder succeeds; it then
      returns the number modulo 2^32. */
  lemma Decode32Exact(v: nat, t: seq<byte>)
    requires v < TWO64
    ensures Decode32(Encode(v) + t) == if Reads32(v) then Got(v % TWO32, t) else Bad
  {
    hide Encode, Denote, Accepts32, Reads32;
    var e := Encode(v);
    EncodeIsVarint(v, t);
    assert (e + t)[..|e|] == e;
    assert (e + t)[|e|..] == t;
    if v < TWO63 {
      Accepts32Encode(v);
      ReadsLow(v);
    } else {
      Accepts32High(v);
    }
  }

  lemma ReadsLow(v: nat)
    requires v < TWO63
    ensures Reads32(v) <==> v < TWO32
  {
    hide Digit;
  }

  lemma Accepts32High(v: nat)
    requires TWO63 <= v < TWO64
    ensures Accepts32(Encode(v)) <==> Reads32(v)
  {
    hide Encode, Pow2, Digit;
    var e := Encode(v);
    EncodeTenBytes(v);
    EncodeDigit(v, 4);
    FifthDigitBit(v);
    forall i | 5 <= i < 9
      ensures (e[i] % 128 == 0 || e[i] == SignExtension(i)) <==> (Digit(v, i) == 0 || Digit(v, i) == 127)
    {
      EncodeDigit(v, i);
    }
    EncodeDigit(v, 9);
    TenthDigit(v);
    assert e[9] == 1 == SignExtension(9);
    if Accepts32(e) {
      forall i | 5 <= i < 9
        ensures Digit(v, i) == 0 || Digit(v, i) == 127
      {
        assert e[i] % 128 == 0 || (Bit31(e) && e[i] == SignExtension(i));
      }
      assert e[9] % 128 == 0 || (Bit31(e) && e[9] == SignExtension(9));
    }
  }

  lemma EncodeTenBytes(v: nat)
    requires TWO63 <= v < TWO64
    ensures |Encode(v)| == 10
  {
    hide Encode, Pow2;
    Pow2Values();
    EncodeLength(v, 10);
  }

  lemma ThreeDigits(v: nat, i: nat)
    ensures Digit(v, i + 3) == Digit(v / 128 / 128 / 128, i)
  {
    assert Digit(v, i + 3) == Digit(v / 128, i + 2);
    assert Digit(v / 128, i + 2) == Digit(v / 128 / 128, i + 1);
  }

  lemma FifthDigitBit(v: nat)
    ensures Digit(v, 4) / 8 % 2 == v / TWO31 % 2
  {
    ThreeDigits(v, 1);
    assert Digit(v / 128 / 128 / 128, 1) == Digit(v / 128 / 128 / 128 / 128, 0);
    var q := v / 0x1000_0000;
    assert v / 128 / 128 / 128 / 128 == q;
    DigitBit(q);
    assert v / TWO31 == q / 8;
  }

  lemma DigitBit(q: nat)
    ensures q % 128 / 8 % 2 == q / 8 % 2
  {
    assert q == 128 * (q / 128) + q % 128;
    assert q / 8 == 16 * (q / 128) + q % 128 / 8;
  }

  lemma TenthDigit(v: nat)
    requires TWO63 <= v < TWO64
    ensures Digit(v, 9) == 1
  {
    var a := v / 128 / 128 / 128;
    var b := a / 128 / 128 / 128;
    assert a == v / 0x20_0000;
    assert b == a / 0x20_0000;
    assert b / 128 / 128 / 128 == b / 0x20_0000 == 1;
    ThreeDigits(v, 6);
    ThreeDigits(a, 3);
    ThreeDigits(b, 0);
  }

  /** Below 2^63 this is to be below 2^32. Tags and lengths are read this way. */
  lemma Decode32OfEncode(v: nat, t: seq<byte>)
    requires v < TWO63
    ensures Decode32(Encode(v) + t) == if v < TWO32 then Got(v, t) else Bad
  {
    var e := Encode(v);
    EncodeIsVarint(v, t);
    assert (e + t)[..|e|] == e;
    assert (e + t)[|e|..] == t;
    Accepts32Encode(v);
  }

  lemma Accepts32Encode(v: nat)
    requires v < TWO63
    ensures Accepts32(Encode(v)) <==> v < TWO32
  {
    hide Encode, Pow2;
    Pow2Values();
    if v < 0x1000_0000 {
      EncodeLength(v, 4);
    } else if v < 0x8_0000_0000 {
      EncodeLength(v, 5);
      EncodeFifth(v);
      FifthDigit(v);
    } else {
      EncodeLongRejected(v);
    }
  }

  lemma FifthDigit(v: nat)
    requires v < 0x8_0000_0000
    ensures v / 128 / 128 / 128 / 128 % 128 < 16 <==> v < TWO32
  {
    assert v / 128 / 128 / 128 / 128 == v / 0x1000_0000;
  }

  lemma EncodeFifth(v: nat)
    requires |Encode(v)| >= 5
    ensures Encode(v)[4] % 128 == v / 128 / 128 / 128 / 128 % 128
  {
    var e := Encode(v);
    var v1 := v / 128;
    var v2 := v1 / 128;
    var v3 := v2 / 128;
    assert e[1..] == Encode(v1);
    assert e[2..] == Encode(v1)[1..] == Encode(v2);
    assert e[3..] == Encode(v2)[1..] == Encode(v3);
    assert e[4..] == Encode(v3)[1..] == Encode(v3 / 128);
    assert e[4] == Encode(v3 / 128)[0];
  }

  lemma EncodeLongRejected(v: nat)
    requires 0x8_0000_0000 <= v < TWO63
    ensures !Accepts32(Encode(v))
  {
    var e := Encode(v);
    EncodeLongLength(v);
    var last := |e| - 1;
    EncodeLast(v);
    assert 5 <= last && e[last] % 128 != 0 && e[last] != SignExtension(last);
  }

  lemma EncodeLongLength(v: nat)
    requires 0x8_0000_0000 <= v < TWO63
    ensures 6 <= |Encode(v)| <= 9
  {
    Pow2Values();
    EncodeLength(v, 9);
    EncodeBound(v);
    if |Encode(v)| <= 5 {
      Pow2Monotonic(7 * |Encode(v)|, 35);
    }
  }

  lemma {:induction false} EncodeBound(v: nat)
    ensures v < Pow2(7 * |Encode(v)|)
  {
    if v >= 128 {
      EncodeBound(v / 128);
      Pow2Plus7(7 * |Encode(v / 128)|);
    } else {
      Pow2Plus7(0);
    }
  }

  lemma {:induction false} Pow2Monotonic(m: nat, n: nat)
    requires m <= n
    ensures Pow2(m) <= Pow2(n)
    decreases n - m
  {
    if m < n {
      Pow2Monotonic(m + 1, n);
    }
  }

  /** A negative 32-bit integer is encoded as its 64-bit sign extension; the 32-bit decoder
      reads it as the integer modulo 2^32. */
  lemma Decode32OfNegative(v: nat, t: seq<byte>)
    requires TWO64 - TWO31 <= v < TWO64
    ensures Decode32(Encode(v) + t) == Got(v % TWO32, t)
  {
    var e := Encode(v);
    EncodeIsVarint(v, t);
    assert (e + t)[..|e|] == e;
    assert (e + t)[|e|..] == t;
    EncodeNegative(v);
  }

  lemma EncodeNegative(v: nat)
    requires TWO64 - TWO31 <= v < TWO64
    ensures Accepts32(Encode(v))
  {
    var e := Encode(v);
    var v1 := v / 128;
    var v2 := v1 / 128;
    var v3 := v2 / 128;
    var v4 := v3 / 128;
    EncodeAllOnes(v4 / 128);
    assert e[1..] == Encode(v1);
    assert e[2..] == Encode(v1)[1..] == Encode(v2);
    assert e[3..] == Encode(v2)[1..] == Encode(v3);
    assert e[4..] == Encode(v3)[1..] == Encode(v4);
    assert e[5..] == Encode(v4)[1..] == [0xFF, 0xFF, 0xFF, 0xFF, 0x01];
    assert e[4] == Encode(v4)[0] == 128 + v4 % 128;
    assert Bit31(e);
    forall i | 5 <= i < |e|
      ensures e[i] == SignExtension(i)
    {
      assert e[i] == e[5..][i - 5];
    }
  }

  lemma EncodeAllOnes(v: nat)
    requires v == 0x1FFF_FFFF
    ensures Encode(v) == [0xFF, 0xFF, 0xFF, 0xFF, 0x01]
  {
    assert Encode(1) == [1];
    assert Encode(0xFF) == [0xFF] + Encode(1);
    assert Encode(0x7FFF) == [0xFF] + Encode(0xFF);
    assert Encode(0x3F_FFFF) == [0xFF] + Encode(0x7FFF);
    assert Encode(0x1FFF_FFFF) == [0xFF] + Encode(0x3F_FFFF);
  }

  // ----- varints by their bytes -----

  /** A varint by its bytes: any number from 128 on, then one below. */
  predicate IsVarint(v: seq<byte>) {
    && v != [] && v[|v| - 1] < 128
    && forall k :: 0 <= k < |v| - 1 ==> v[k] >= 128
  }

  lemma {:induction false} VarintShape(v: seq<byte>, t: seq<byte>)
    requires IsVarint(v)
    ensures VarintLen(v + t) == |v|
    ensures (v + t)[..|v|] == v && (v + t)[|v|..] == t
    decreases |v|
  {
    if v[0] >= 128 {
      assert (v + t)[1..] == v[1..] + t;
      VarintShape(v[1..], t);
    }
  }

  lemma {:induction false} VarintLenShape(s: seq<byte>)
    requires VarintLen(s) > 0
    ensures IsVarint(s[..VarintLen(s)])
    decreases |s|
  {
    if s[0] >= 128 {
      var n := VarintLen(s);
      VarintLenShape(s[1..]);
      assert s[..n] == [s[0]] + s[1..][..n - 1];
    }
  }

  /** Every varint of up to ten bytes is read, shortest or not, and its number cut to 64 bits. */
  lemma Decode64Exact(v: seq<byte>, t: seq<byte>)
    requires IsVarint(v)
    ensures Decode64(v + t) == if |v| <= 10 then Got(Denote(v) % TWO64, t) else Bad
  {
    VarintShape(v, t);
  }

  /** Every varint of a number below 2^32 is read as that number by the 32-bit decoder, however
      many empty bytes it is padded with. */
  lemma Decode32OfPadded(v: seq<byte>, t: seq<byte>)
    requires IsVarint(v) && Denote(v) < TWO32
    ensures Decode32(v + t) == Got(Denote(v), t)
  {
    hide Denote, Pow2;
    VarintShape(v, t);
    Pow2Values();
    if |v| > 4 {
      forall i | 4 <= i < |v|
        ensures v[i] % 128 == 0 || (i == 4 && v[4] % 128 < 16)
      {
        DigitBound(v, i);
        Pow2Monotonic(28, 7 * i);
        if i > 4 {
          Pow2Monotonic(35, 7 * i);
          if v[i] % 128 >= 1 { MulMonotonic(Pow2(7 * i), 1, v[i] % 128); }
        }
      }
    }
  }

  /** Each digit with its weight is at most the whole. */
  lemma {:induction false} DigitBound(v: seq<byte>, i: nat)
    requires i < |v|
    ensures Pow2(7 * i) * (v[i] % 128) <= Denote(v)
    decreases i
  {
    if i == 0 {
      PowZero();
    } else {
      DigitBound(v[1..], i - 1);
      Pow2Plus7(7 * (i - 1));
      assert 7 * (i - 1) + 7 == 7 * i;
      assert Pow2(7 * i) * (v[i] % 128) == 128 * (Pow2(7 * (i - 1)) * (v[i] % 128));
    }
  }

  // ----- the encoding is the unique shortest varint -----

  /** Any varint that denotes v is at least as long as the encoding, and equal to it when it
      is as short. */
  lemma {:induction false} EncodeIsShortest(s: seq<byte>)
    requires |s| > 0 && VarintLen(s) == |s|
    ensures |Encode(Denote(s))| <= |s|
    ensures |Encode(Denote(s))| == |s| ==> s == Encode(Denote(s))
  {
    var v := Denote(s);
    if s[0] < 128 {
      assert s[1..] == [];
    } else {
      EncodeIsShortest(s[1..]);
      assert v / 128 == Denote(s[1..]) && v % 128 == s[0] % 128;
      if v >= 128 {
        assert s == [s[0]] + s[1..];
      }
    }
  }

  // ----- facts for the loops that read and write varints -----

  /** A run of continuation bytes in front of a varint. */
  lemma {:induction false} VarintLenSkip(s: seq<byte>, i: nat)
    requires i <= |s|
    requires forall k :: 0 <= k < i ==> s[k] >= 128
    ensures VarintLen(s) == if VarintLen(s[i..]) == 0 then 0 else i + VarintLen(s[i..])
  {
    if i > 0 {
      VarintLenSkip(s[1..], i - 1);
      assert s[1..][i - 1..] == s[i..];
    } else {
      assert s[0..] == s;
    }
  }

  lemma {:induction false} DenoteSnoc(s: seq<byte>, b: byte)
    ensures Denote(s + [b]) == Denote(s) + b % 128 * Pow2(7 * |s|)
    ensures Denote(s) < Pow2(7 * |s|)
  {
    if s == [] {
      assert (s + [b])[1..] == [];
    } else {
      var t := s[1..];
      var d := b % 128;
      DenoteSnoc(t, b);
      assert (s + [b])[1..] == t + [b];
      assert 7 * |s| == 7 * |t| + 7;
      Pow2Plus7(7 * |t|);
      Distribute(s[0] % 128, Denote(t), d, Pow2(7 * |t|));
    }
  }

  lemma MulMonotonic(a: int, x: int, y: int)
    requires 0 <= a && x <= y
    ensures a * x <= a * y
  {
  }

  lemma Distribute(a: int, x: int, d: int, p: int)
    ensures a + 128 * (x + d * p) == a + 128 * x + d * (128 * p)
  {
  }
}
