/** From one program to another: the encoder of the writer and the decoder of the reader, each as it
    runs, over one buffer. */
module PbTransfer {
  import opened PbWire
  import opened PbCommon
  import opened PbFormat
  import opened PbEvolution
  import PbEncode
  import PbDecode

  /** pb_encode into a buffer, then pb_decode of the bytes written, by a reader that knows some of the
      writer's fields. Only the room in the buffer can make it fail. */
  method Transfer(buf: array<byte>, big: seq<Field>, small: seq<Field>, src: Msg) returns (ok: bool, dest: Msg)
    requires ValidSchema(big) && ValidSchema(small) && Extends(big, small) && ValidMsg(big, src)
    requires buf.Length < U32
    modifies buf
    ensures Encode(big, src).Some?
    ensures ok <==> |Encode(big, src).value| <= buf.Length
    ensures ok ==> buf[..|Encode(big, src).value|] == Encode(big, src).value && Agree(small, dest, big, src)
  {
    hide Encode, Decode, Init, Agree, Extends, ValidMsg, ValidSchema;
    dest := map[];
    SchemaEvolution(small, big, src);
    var written;
    ok, written := PbEncode.EncodeToBuffer(buf, big, src);
    if ok {
      var stream := new PbDecode.IStream(buf[..written], 0, written);
      assert stream.Rest() == Encode(big, src).value;
      ok, dest := PbDecode.DecodeMessage(stream, small);
    }
  }
}
