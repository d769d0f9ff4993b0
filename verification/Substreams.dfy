/**
 Substreams under any properly nested use (pb_decode.c:372-400): open, read some of it, perhaps
 opening further ones, close.
 */
module Substreams {
  import opened Wrappers
  import opened Varint
  import opened Encoding
  import opened Decoding
  import opened InputStream
  import opened Runs

  /** One thing done to a stream. */
  datatype Use = Byte | Number | Bytes(n: nat) | Value(wireType: nat) | Within(uses: seq<Use>)

  /** The bytes left after one use. */
  function AfterUse(u: Use, s: seq<byte>): Parsed<()>
    decreases u
  {
    match u
    case Byte => Decoding.SkipBytes(1, s)
    case Number =>
      (match Decode64(s)
       case Bad => Bad
       case Got(_, rest) => Got((), rest))
    case Bytes(n) => Decoding.SkipBytes(n, s)
    case Value(wireType) => Skip(wireType, s)
    case Within(uses) =>
      (match TakeString(s)
       case Bad => Bad
       case Got(body, rest) => if After(uses, body).Bad? then Bad else Got((), rest))
  }

  function After(us: seq<Use>, s: seq<byte>): Parsed<()>
    decreases us
  {
    if us == [] then Got((), s)
    else match AfterUse(us[0], s)
      case Bad => Bad
      case Got(_, rest) => After(us[1..], rest)
  }

  /** However little of a substream is used, closing it leaves the parent behind all of it: the
      same place as skipping the string. */
  lemma WithinIsSkip(uses: seq<Use>, s: seq<byte>)
    ensures AfterUse(Within(uses), s) ==
            if TakeString(s).Got? && After(uses, TakeString(s).val).Got? then Skip(WT_STRING, s) else Bad
  {
  }

  /** No use looks beyond what it reads: bytes that follow change nothing. */
  lemma {:induction false} AfterUseExtends(u: Use, s: seq<byte>, t: seq<byte>)
    requires AfterUse(u, s).Got?
    ensures AfterUse(u, s + t) == AfterUse(u, s).Then(t)
  {
    match u
    case Byte => TakeExtends(1, s, t);
    case Number => Decode64Extends(s, t);
    case Bytes(n) => TakeExtends(n, s, t);
    case Value(wireType) => SkipExtends(wireType, s, t);
    case Within(_) => TakeStringExtends(s, t);
  }

  lemma {:induction false} AfterExtends(us: seq<Use>, s: seq<byte>, t: seq<byte>)
    requires After(us, s).Got?
    ensures After(us, s + t) == After(us, s).Then(t)
    decreases |us|
  {
    if us != [] {
      AfterUseExtends(us[0], s, t);
      AfterExtends(us[1..], AfterUse(us[0], s).rest, t);
    }
  }

  /** Any nested use of a stream reads what the plain byte string says, stays within the stream,
      and keeps where it ends. */
  method Perform(stream: IStream, us: seq<Use>) returns (ok: bool)
    requires stream.Valid()
    modifies stream
    ensures stream.Valid() && stream.End() <= old(stream.End())
    ensures ok <==> After(us, old(stream.Rest())).Got?
    ensures ok ==> stream.End() == old(stream.End()) && After(us, old(stream.Rest())) == Got((), stream.Rest())
    decreases us
  {
    ok := true;
    var i := 0;
    assert us[0..] == us;
    while i < |us|
      invariant 0 <= i <= |us|
      invariant stream.Valid() && stream.End() == old(stream.End())
      invariant After(us, old(stream.Rest())) == After(us[i..], stream.Rest())
    {
      assert us[i..][0] == us[i] && us[i..][1..] == us[i + 1..];
      ok := PerformOne(stream, us[i]);
      if !ok {
        return false;
      }
      i := i + 1;
    }
    return true;
  }

  method PerformOne(stream: IStream, u: Use) returns (ok: bool)
    requires stream.Valid()
    modifies stream
    ensures stream.Valid() && stream.End() <= old(stream.End())
    ensures ok <==> AfterUse(u, old(stream.Rest())).Got?
    ensures ok ==> stream.End() == old(stream.End()) && AfterUse(u, old(stream.Rest())) == Got((), stream.Rest())
    decreases u
  {
    match u
    case Byte =>
      var b;
      ok, b := stream.ReadByte();
    case Number =>
      var n;
      ok, n := stream.DecodeVarint();
    case Bytes(n) =>
      ok := stream.SkipBytes(n);
    case Value(wireType) =>
      ok := stream.SkipField(wireType);
    case Within(uses) =>
      var made, sub := stream.MakeSubstream();
      if !made {
        return false;
      }
      ok := Perform(sub, uses);
      var _ := stream.CloseSubstream(sub);
  }
}
