/**
 pb_istream_t and the primitive readers (pb_decode.c:86-400). The methods advance the stream in
 place; their contracts tie what they read and what they leave to the functions of Varint and
 Decoding.
 */
module InputStream {
  import opened Wrappers
  import opened Varint
  import Integers
  import opened Schema
  import opened Encoding
  import opened Decoding
  import Runs

  class IStream {
    /** The bytes behind `state`; never written by the decoder. */
    const buf: seq<byte>
    /** The stream is not a memory buffer: skipping reads 16 bytes at a time. */
    const chunked: bool
    /** `state` and `bytes_left`. */
    var pos: nat
    var left: nat

    ghost predicate Valid()
      reads this
    {
      pos + left <= |buf|
    }

    /** Where the stream ends in the buffer. */
    ghost function End(): nat
      reads this
    {
      pos + left
    }

    /** The bytes still to be read. */
    ghost function Rest(): (s: seq<byte>)
      requires Valid()
      reads this
      ensures |s| == left
    {
      buf[pos..pos + left]
    }

    /** pb_istream_from_buffer; also a stream on another source with the same bytes. */
    constructor (bytes: seq<byte>, custom: bool)
      ensures Valid() && Rest() == bytes && buf == bytes && chunked == custom && pos == 0
    {
      buf := bytes;
      chunked := custom;
      pos := 0;
      left := |bytes|;
      new;
      assert bytes[0..|bytes|] == bytes;
    }

    /** A copy of a stream struct, at the same place but with its own length. */
    constructor At(parent: IStream, size: nat)
      requires parent.pos + size <= |parent.buf|
      ensures Valid() && buf == parent.buf && chunked == parent.chunked
      ensures pos == parent.pos && left == size
    {
      buf := parent.buf;
      chunked := parent.chunked;
      pos := parent.pos;
      left := size;
    }

    /** pb_read into a buffer. */
    method Read(count: nat) returns (ok: bool, data: seq<byte>)
      requires Valid()
      modifies this
      ensures Valid() && End() == old(End())
      ensures ok <==> Take(count, old(Rest())).Got?
      ensures ok ==> Take(count, old(Rest())) == Got(data, Rest()) && pos == old(pos) + count
      ensures !ok ==> pos == old(pos) && left == old(left)
    {
      if count == 0 {
        assert old(Rest())[..0] == [] && old(Rest())[0..] == Rest();
        return true, [];
      }
      if left < count {
        return false, [];
      }
      data := [];
      var i := 0;
      while i < count
        invariant 0 <= i <= count
        invariant data == buf[pos..pos + i]
      {
        data := data + [buf[pos + i]];
        i := i + 1;
      }
      assert data == Rest()[..count];
      assert buf[pos + count..pos + left] == Rest()[count..];
      pos := pos + count;
      left := left - count;
      return true, data;
    }

    /** pb_read with a NULL buffer. */
    method SkipBytes(n: nat) returns (ok: bool)
      requires Valid()
      modifies this
      ensures Valid() && End() == old(End())
      ensures ok <==> n <= old(left)
      ensures ok ==> Rest() == old(Rest())[n..] && pos == old(pos) + n
    {
      if n == 0 {
        return true;
      }
      if chunked {
        var count: nat := n;
        while count > 16
          invariant Valid() && End() == old(End())
          invariant count <= n && pos == old(pos) + (n - count)
        {
          var got, _ := Read(16);
          if !got {
            return false;
          }
          count := count - 16;
        }
        var got, _ := Read(count);
        assert got ==> buf[pos..pos + left] == old(Rest())[n..];
        return got;
      }
      if left < n {
        return false;
      }
      pos := pos + n;
      left := left - n;
      assert buf[pos..pos + left] == old(Rest())[n..];
      return true;
    }

    /** pb_readbyte */
    method ReadByte() returns (ok: bool, b: byte)
      requires Valid()
      modifies this
      ensures Valid() && End() == old(End())
      ensures ok <==> old(left) > 0
      ensures ok ==> b == buf[old(pos)] && pos == old(pos) + 1
      ensures !ok ==> pos == old(pos)
    {
      if left == 0 {
        return false, 0;
      }
      b := buf[pos];
      pos := pos + 1;
      left := left - 1;
      return true, b;
    }

    /** pb_decode_varint. The bits of the new byte are above those of result, so the `|` of the
        source is an addition. */
    method DecodeVarint() returns (ok: bool, dest: nat)
      requires Valid()
      modifies this
      ensures Valid() && End() == old(End())
      ensures ok <==> Decode64(old(Rest())).Got?
      ensures ok ==> Decode64(old(Rest())) == Got(dest, Rest())
    {
      hide Reading64, Decode64, Denote, VarintLen;
      ghost var s := Rest();
      ReadNothing64(s);
      var bitpos := 0;
      var result: nat := 0;
      ghost var i: nat := 0;
      var more := true;
      while more
        invariant Valid() && End() == old(End())
        invariant bitpos == 7 * i && i <= |s| && Rest() == s[i..]
        invariant i == 0 ==> more
        invariant i <= 10 && Reading64(s, i, result)
        invariant i > 0 ==> (more <==> s[i - 1] >= 128)
        decreases 11 - i, more
      {
        if bitpos >= 64 {
          TooLong64(s, i, result);
          return false, 0;
        }
        var got, b := ReadByte();
        if !got {
          TooShort64(s, result);
          return false, 0;
        }
        assert b == s[i] && Rest() == s[i + 1..];
        ReadDigit(s, i, result);
        result := result + b % 128 * Pow2(bitpos) % TWO64;
        bitpos := bitpos + 7;
        i := i + 1;
        more := b >= 128;
      }
      ReadAll64(s, i, result);
      return true, result;
    }

    /** pb_decode_varint32_eof */
    method DecodeVarint32Eof() returns (ok: bool, dest: nat, eof: bool)
      requires Valid()
      modifies this
      ensures Valid() && End() == old(End())
      ensures ok <==> Decode32(old(Rest())).Got?
      ensures ok ==> Decode32(old(Rest())) == Got(dest, Rest())
      ensures eof <==> old(left) == 0
    {
      ghost var s := Rest();
      eof := false;
      var got, b := ReadByte();
      if !got {
        if left == 0 {
          eof := true;
        }
        return false, 0, eof;
      }
      assert b == s[0];
      assert Rest() == s[1..];
      assert s[..1] == [] + [b];
      DenoteSnoc([], b);
      if b < 128 {
        return true, b, eof;
      }
      ok, dest := DecodeMultibyte(b, s);
    }

    /** The multibyte case of pb_decode_varint32_eof, after the first byte. */
    method DecodeMultibyte(first: byte, ghost s: seq<byte>) returns (ok: bool, dest: nat)
      requires Valid() && s != [] && s[0] == first >= 128 && Rest() == s[1..]
      requires Reading32(s, 1, first % 128)
      modifies this
      ensures Valid() && End() == old(End())
      ensures ok <==> Decode32(s).Got?
      ensures ok ==> Decode32(s) == Got(dest, Rest())
    {
      var b := first;
      var bitpos := 7;
      var result: nat := b % 128;
      ghost var i: nat := 1;
      var more := true;
      while more
        invariant Valid() && End() == old(End())
        invariant bitpos == 7 * i && 1 <= i <= |s| && Rest() == s[i..]
        invariant i == 1 ==> more
        invariant Reading32(s, i, result)
        invariant s[i - 1] == b && (more <==> b >= 128)
        decreases |s| - i, more
      {
        ReadingMore(s, i, result);
        var got;
        got, b := ReadByte();
        if !got {
          return false, 0;
        }
        assert b == s[i] && Rest() == s[i + 1..];
        if bitpos >= 32 {
          var signExtension: byte := if bitpos < 63 then 0xFF else 0x01;
          LowBits(s, i);
          if b % 128 != 0 && (result / TWO31 == 0 || b != signExtension) {
            NotAccepted(s, i);
            return false, 0;
          }
          ReadHigh(s, i, result);
        } else {
          ReadLow(s, i, result);
          result := result + b % 128 * Pow2(bitpos) % TWO32;
        }
        bitpos := bitpos + 7;
        i := i + 1;
        more := b >= 128;
      }
      ReadAll(s, i, result);
      if bitpos == 35 && b / 16 % 8 != 0 {
        return false, 0;
      }
      return true, result;
    }

    /** pb_decode_varint32 */
    method DecodeVarint32() returns (ok: bool, dest: nat)
      requires Valid()
      modifies this
      ensures Valid() && End() == old(End())
      ensures ok <==> Decode32(old(Rest())).Got?
      ensures ok ==> Decode32(old(Rest())) == Got(dest, Rest())
    {
      var got, v, _ := DecodeVarint32Eof();
      return got, v;
    }

    /** pb_skip_varint */
    method SkipVarint() returns (ok: bool)
      requires Valid()
      modifies this
      ensures Valid() && End() == old(End())
      ensures ok <==> VarintLen(old(Rest())) > 0
      ensures ok ==> Rest() == old(Rest())[VarintLen(old(Rest()))..]
    {
      ghost var s := Rest();
      ghost var i: nat := 0;
      var more := true;
      while more
        invariant Valid() && End() == old(End())
        invariant pos == old(pos) + i && i <= |s|
        invariant i == 0 ==> more
        invariant forall k :: 0 <= k < i - 1 ==> s[k] >= 128
        invariant i > 0 ==> (more <==> s[i - 1] >= 128)
        decreases |s| - i, more
      {
        VarintLenSkip(s, i);
        var got, data := Read(1);
        if !got {
          return false;
        }
        assert data[0] == s[i];
        more := data[0] >= 128;
        i := i + 1;
      }
      VarintLenSkip(s, i - 1);
      assert Rest() == s[i..];
      return true;
    }

    /** pb_skip_string */
    method SkipString() returns (ok: bool)
      requires Valid()
      modifies this
      ensures Valid() && End() == old(End())
      ensures ok <==> Skip(WT_STRING, old(Rest())).Got?
      ensures ok ==> Skip(WT_STRING, old(Rest())) == Got((), Rest())
    {
      var got, length := DecodeVarint32();
      if !got {
        return false;
      }
      ok := SkipBytes(length);
    }

    /** pb_skip_field: moves behind the value at the front, or fails when there is none of this wire
        type. */
    method SkipField(wireType: nat) returns (ok: bool)
      requires Valid()
      modifies this
      ensures Valid() && End() == old(End())
      ensures ok <==> Skip(wireType, old(Rest())).Got?
      ensures ok ==> Skip(wireType, old(Rest())) == Got((), Rest())
      ensures ok ==> left <= old(left) && Runs.ValueShape(wireType, old(Rest())[..old(left) - left])
      ensures !ok ==> forall n :: 0 <= n <= old(left) ==> !Runs.ValueShape(wireType, old(Rest())[..n])
    {
      ghost var s := Rest();
      if Skip(wireType, s).Got? {
        Runs.SkippedIsValue(wireType, s);
      } else {
        forall n | 0 <= n <= left
          ensures !Runs.ValueShape(wireType, s[..n])
        {
          if Runs.ValueShape(wireType, s[..n]) { Runs.ValueIsSkipped(wireType, s, n); }
        }
      }
      if wireType == WT_VARINT {
        ok := SkipVarint();
      } else if wireType == WT_64BIT {
        ok := SkipBytes(8);
      } else if wireType == WT_STRING {
        ok := SkipString();
      } else if wireType == WT_32BIT {
        ok := SkipBytes(4);
      } else {
        ok := false;
      }
    }

    /** pb_decode_tag */
    method DecodeTag() returns (ok: bool, wireType: nat, tag: nat, eof: bool)
      requires Valid()
      modifies this
      ensures Valid() && End() == old(End())
      ensures ok <==> Decode32(old(Rest())).Got? && Decode32(old(Rest())).val != 0
      ensures ok ==> Decode32(old(Rest())) == Got(8 * tag + wireType, Rest()) && wireType < 8
      ensures !ok ==> (eof <==> old(left) == 0 || Decode32(old(Rest())).Got?)
      ensures !ok && eof && old(left) > 0 ==> Decode32(old(Rest())) == Got(0, Rest())
    {
      var got, temp, end := DecodeVarint32Eof();
      if !got {
        return false, 0, 0, end;
      }
      if temp == 0 {
        return false, 0, 0, true;
      }
      return true, temp % 8, temp / 8, end;
    }

    /** pb_make_string_substream. Until the substream is closed, this stream's length no longer
        counts the bytes of the substream but its position is still in front of them. */
    method MakeSubstream() returns (ok: bool, sub: IStream)
      requires Valid()
      modifies this
      ensures Valid() && fresh(sub) && sub.Valid()
      ensures ok <==> TakeString(old(Rest())).Got?
      ensures ok ==>
                && sub.buf == buf && sub.chunked == chunked && sub.pos == pos
                && sub.End() + left == old(End())
                && TakeString(old(Rest())) == Got(sub.Rest(), buf[sub.End()..old(End())])
      ensures ok ==> Decode32(old(Rest())).Got? && sub.left == Decode32(old(Rest())).val
      ensures ok ==> sub.left + left < old(left)
      ensures !ok ==> End() == old(End())
    {
      var got, size := DecodeVarint32();
      if !got || left < size {
        sub := new IStream.At(this, 0);
        return false, sub;
      }
      sub := new IStream.At(this, size);
      assert Rest()[..size] == sub.Rest();
      assert Rest()[size..] == buf[sub.End()..old(End())];
      left := left - size;
      return true, sub;
    }

    /** pb_close_string_substream: whatever the substream left unread is skipped, so the parent
        ends up behind the whole substream. */
    method CloseSubstream(sub: IStream) returns (ok: bool)
      requires Valid() && sub.Valid() && sub != this
      requires sub.buf == buf && sub.End() + left <= |buf|
      modifies this, sub
      ensures ok && Valid()
      ensures pos == old(sub.End()) && left == old(left)
    {
      if sub.left > 0 {
        var skipped := sub.SkipBytes(sub.left);
        if !skipped {
          return false;
        }
      }
      pos := sub.pos;
      return true;
    }
  }

  // ----- facts for the varint loops -----

  /** A byte above the 32 bits that the decoder lets pass. */
  ghost predicate Extends(s: seq<byte>, k: nat)
    requires 4 < k < |s|
  {
    s[k] % 128 == 0 || (s[4] / 8 % 2 == 1 && s[k] == SignExtension(k))
  }

  /** What the 32-bit decoder knows after i bytes. */
  ghost predicate Reading32(s: seq<byte>, i: nat, result: nat)
    requires 1 <= i <= |s|
  {
    && (forall k :: 0 <= k < i - 1 ==> s[k] >= 128)
    && result == Denote(s[..i]) % TWO32
    && (forall k :: 5 <= k < i ==> Extends(s, k))
  }

  /** What the 64-bit decoder knows after i bytes. */
  ghost predicate Reading64(s: seq<byte>, i: nat, result: nat)
    requires i <= |s|
  {
    && i <= 10
    && (forall k :: 0 <= k < i - 1 ==> s[k] >= 128)
    && result == Denote(s[..i]) % TWO64
  }

  lemma ReadNothing64(s: seq<byte>)
    ensures Reading64(s, 0, 0)
  {
  }

  /** Ten bytes, and the last one is not the end. */
  lemma TooLong64(s: seq<byte>, i: nat, result: nat)
    requires 10 <= i <= |s| && Reading64(s, i, result) && s[i - 1] >= 128
    ensures Decode64(s).Bad?
  {
    VarintLenSkip(s, i);
  }

  /** The bytes end before the varint does. */
  lemma TooShort64(s: seq<byte>, result: nat)
    requires Reading64(s, |s|, result) && (s != [] ==> s[|s| - 1] >= 128)
    ensures Decode64(s).Bad?
  {
    VarintLenSkip(s, |s|);
  }

  lemma ReadAll64(s: seq<byte>, i: nat, result: nat)
    requires 1 <= i <= |s| && Reading64(s, i, result) && s[i - 1] < 128
    ensures Decode64(s) == Got(result, s[i..])
  {
    VarintLenSkip(s, i - 1);
  }

  lemma ReadDigit(s: seq<byte>, i: nat, result: nat)
    requires i <= 9 && i < |s| && Reading64(s, i, result) && (i > 0 ==> s[i - 1] >= 128)
    ensures Reading64(s, i + 1, result + s[i] % 128 * Pow2(7 * i) % TWO64)
  {
    assert s[..i + 1] == s[..i] + [s[i]];
    DenoteSnoc(s[..i], s[i]);
    AddDigit64(Denote(s[..i]), s[i] % 128, i);
  }

  lemma ReadingMore(s: seq<byte>, i: nat, result: nat)
    requires 1 <= i <= |s| && Reading32(s, i, result) && s[i - 1] >= 128
    ensures VarintLen(s) == 0 || i < VarintLen(s)
  {
    VarintLenSkip(s, i);
  }

  lemma ReadLow(s: seq<byte>, i: nat, result: nat)
    requires 1 <= i <= 4 && i < |s| && Reading32(s, i, result) && s[i - 1] >= 128
    ensures Reading32(s, i + 1, result + s[i] % 128 * Pow2(7 * i) % TWO32)
  {
    assert s[..i + 1] == s[..i] + [s[i]];
    DenoteSnoc(s[..i], s[i]);
    AddDigit32(Denote(s[..i]), s[i] % 128, i);
  }

  lemma ReadHigh(s: seq<byte>, i: nat, result: nat)
    requires 5 <= i < |s| && Reading32(s, i, result) && s[i - 1] >= 128 && Extends(s, i)
    ensures Reading32(s, i + 1, result)
  {
    assert s[..i + 1] == s[..i] + [s[i]];
    DenoteSnoc(s[..i], s[i]);
    AddHighDigit(Denote(s[..i]), s[i] % 128, i);
  }

  /** At the last byte only the bits of a five-byte varint above the 32nd are left to check. */
  lemma ReadAll(s: seq<byte>, i: nat, result: nat)
    requires 2 <= i <= |s| && Reading32(s, i, result) && s[i - 1] < 128
    ensures Decode32(s) == if i == 5 && s[4] / 16 % 8 != 0 then Bad else Got(result, s[i..])
  {
    VarintLenSkip(s, i - 1);
    assert VarintLen(s) == i;
    var v := s[..i];
    forall k | 5 <= k < i
      ensures v[k] % 128 == 0 || (Bit31(v) && v[k] == SignExtension(k))
    {
      assert Extends(s, k);
    }
  }

  lemma NotAccepted(s: seq<byte>, k: nat)
    requires 4 < k < |s| && !Extends(s, k)
    ensures forall n :: k < n <= |s| ==> !Accepts32(s[..n])
  {
    forall n | k < n <= |s|
      ensures !Accepts32(s[..n])
    {
      var v := s[..n];
      assert v[k] == s[k] && v[4] == s[4];
    }
  }

  lemma AddDigit64(d: nat, x: nat, i: nat)
    requires i <= 9 && d < Pow2(7 * i) && x < 128
    ensures d % TWO64 + x * Pow2(7 * i) % TWO64 == (d + x * Pow2(7 * i)) % TWO64
  {
    if i == 9 {
      Pow2Bound(63, 63, TWO63);
      AddBit63(d, x);
    } else {
      DigitBound(d, x, i);
      Pow2Bound(7 * (i + 1), 63, TWO63);
      NoWrap64(d, x * Pow2(7 * i));
    }
  }

  lemma Pow2Bound(m: nat, n: nat, v: nat)
    requires m <= n && ((n == 28 && v == 0x1000_0000) || (n == 63 && v == TWO63))
    ensures Pow2(m) <= v && (m == n ==> Pow2(m) == v)
  {
    Pow2Values();
    Pow2Monotonic(m, n);
  }

  lemma NoWrap64(d: nat, y: nat)
    requires d + y <= TWO63
    ensures d % TWO64 + y % TWO64 == (d + y) % TWO64
  {
  }

  lemma NoWrap32(d: nat, y: nat)
    requires d + y <= TWO31
    ensures d % TWO32 + y % TWO32 == (d + y) % TWO32
  {
  }

  lemma AddBit63(d: nat, x: nat)
    requires d < TWO63 && x < 128
    ensures d % TWO64 + x * TWO63 % TWO64 == (d + x * TWO63) % TWO64
  {
    var h := x / 2;
    assert x * TWO63 == TWO64 * h + x % 2 * TWO63;
  }

  lemma AddDigit32(d: nat, x: nat, i: nat)
    requires i <= 4 && d < Pow2(7 * i) && x < 128
    ensures d % TWO32 + x * Pow2(7 * i) % TWO32 == (d + x * Pow2(7 * i)) % TWO32
  {
    if i == 4 {
      Pow2Bound(28, 28, 0x1000_0000);
      AddBits28(d, x);
    } else {
      DigitBound(d, x, i);
      Pow2Bound(7 * (i + 1), 28, 0x1000_0000);
      NoWrap32(d, x * Pow2(7 * i));
    }
  }

  lemma AddBits28(d: nat, x: nat)
    requires d < 0x1000_0000 && x < 128
    ensures d % TWO32 + x * 0x1000_0000 % TWO32 == (d + x * 0x1000_0000) % TWO32
  {
    var h, l := x / 16, x % 16;
    DropHigh(l * 0x1000_0000, h);
    DropHigh(d + l * 0x1000_0000, h);
    assert x * 0x1000_0000 == l * 0x1000_0000 + TWO32 * h;
  }

  /** A digit put above a number of i digits gives a number of i + 1 digits. */
  lemma DigitBound(d: nat, x: nat, i: nat)
    requires d < Pow2(7 * i) && x < 128
    ensures 0 <= x * Pow2(7 * i) && d + x * Pow2(7 * i) < Pow2(7 * (i + 1))
  {
    Pow2Plus7(7 * i);
    MulMonotonic(Pow2(7 * i), x, 127);
  }

  lemma {:induction false} Pow2Multiple(n: nat) returns (q: nat)
    requires n >= 32
    ensures Pow2(n) == TWO32 * q
    decreases n
  {
    if n == 32 {
      Integers.Pow2Words();
      q := 1;
    } else {
      var h := Pow2Multiple(n - 1);
      q := 2 * h;
    }
  }

  lemma AddHighDigit(d: nat, x: nat, i: nat)
    requires i >= 5
    ensures (d + x * Pow2(7 * i)) % TWO32 == d % TWO32
  {
    var q := Pow2Multiple(7 * i);
    var k := x * q;
    assert x * Pow2(7 * i) == TWO32 * k by { MulSwap(x, q); }
  }

  lemma MulSwap(x: nat, q: nat)
    ensures x * (TWO32 * q) == TWO32 * (x * q)
  {
  }

  /** Bit 31 of the accumulated number is in the fifth byte. */
  lemma {:induction false} LowBits(s: seq<byte>, i: nat)
    requires 5 <= i <= |s|
    ensures (Denote(s[..i]) % TWO32 / TWO31 == 0) <==> s[4] / 8 % 2 == 0
    decreases i
  {
    if i == 5 {
      Pow2Values();
      assert s[..5] == s[..4] + [s[4]];
      DenoteSnoc(s[..4], s[4]);
      FifthByte(Denote(s[..4]), s[4]);
    } else {
      LowBits(s, i - 1);
      assert s[..i] == s[..i - 1] + [s[i - 1]];
      DenoteSnoc(s[..i - 1], s[i - 1]);
      AddHighDigit(Denote(s[..i - 1]), s[i - 1] % 128, i - 1);
    }
  }

  lemma FifthByte(d: nat, b: byte)
    requires d < 0x1000_0000
    ensures ((d + b % 128 * 0x1000_0000) % TWO32 / TWO31 == 0) <==> b / 8 % 2 == 0
  {
    var h, l := SplitDigit(b);
    DropHigh(d + l * 0x1000_0000, h);
    TopBit(d, l);
  }

  lemma SplitDigit(b: byte) returns (h: nat, l: nat)
    ensures l < 16 && b % 128 == 16 * h + l && b / 8 % 2 == l / 8
  {
    var q := b / 16;
    h, l := q % 8, b % 16;
    var r := q / 8;
    assert b == 16 * q + l && q == 8 * r + h;
    LowSeven(r, 16 * h + l);
    FourthBit(q, l);
  }

  lemma LowSeven(r: nat, x: nat)
    requires x < 128
    ensures (128 * r + x) % 128 == x
  {
  }

  lemma FourthBit(q: nat, l: nat)
    requires l < 16
    ensures (16 * q + l) / 8 % 2 == l / 8
  {
    assert (16 * q + l) / 8 == 2 * q + l / 8;
  }

  lemma DropHigh(x: nat, h: nat)
    requires x < TWO32
    ensures (x + TWO32 * h) % TWO32 == x
  {
  }

  lemma TopBit(d: nat, l: nat)
    requires d < 0x1000_0000 && l < 16
    ensures (d + l * 0x1000_0000) / TWO31 == l / 8
  {
  }
}
