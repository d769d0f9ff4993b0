/**
 The encoder and the decoder run one after the other on the same memory.
 */
module EndToEnd {
  import opened Wrappers
  import opened Varint
  import opened Schema
  import opened Encoding
  import opened Decoding
  import opened InputStream
  import opened RoundTrip
  import D = Decoder
  import E = Encoder

  /** pb_encode into memory, then pb_decode of exactly the bytes written: the encode succeeds
      exactly when the message can be encoded and fits, and then the decode succeeds exactly when
      every string and length fits, reads everything, and gives the normal form. */
  method EncodeThenDecode(fs: seq<Field>, m: Cells, memory: array<byte>, custom: bool)
    returns (encoded: bool, decoded: bool, dest: D.Struct)
    requires D.Usable(fs) && E.Ready(fs, m) && memory.Length < TWO63
    modifies memory
    ensures encoded <==> EncodeMsg(fs, m).Some? && |EncodeMsg(fs, m).value| <= memory.Length
    ensures encoded ==> (decoded <==> Fits(fs, m))
    ensures encoded && decoded ==> dest.cells == NormalMsg(fs, m)
  {
    hide WellFormed, Typed, EncodeMsg, DecodeMsg, Fits, NormalMsg, E.Fresh, D.LaidOutDeep;
    dest := new D.Struct(map[]);
    decoded := false;
    var sized, size, ok, written := E.SizeThenEncode(fs, m, memory);
    encoded := ok;
    if encoded {
      var input := new IStream(memory[..written], custom);
      decoded := D.DecodeMessage(input, fs, dest);
      RoundTripExact(fs, m);
      assert decoded ==> input.left == 0;
    }
  }
}
