/** The serializers, the size calculator and the parser together. */
module Agreement {
  import opened Bytes
  import opened Schema
  import opened Encoding
  import opened Decoding
  import opened RoundTrip
  import opened Lengths
  import opened Sizes
  import opened Pack
  import opened PackBuffer
  import opened Lookup
  import opened NullReads
  import opened Unpacking
  import opened WireFormat

  /** A message packed into an array of just the computed size, and appended to a buffer: the size is
      right, and the bytes are the same. */
  method PackBothWays(schema: Schema, m: Message) returns (size: nat, packed: seq<byte>, appended: seq<byte>)
    requires WellFormed(schema) && Conforms(schema, m)
    ensures packed == appended && |packed| == size && packed == Encode(schema, m)
    ensures packed == MessageBytes(schema, m)
  {
    EncodeIsWireFormat(schema, m);
    size := GetPackedSize(schema, m);
    var out := new byte[size];
    var written := MessagePack(schema, m, out, 0);
    packed := out[..];
    var scratch := new byte[256];
    var buffer := new BufferSimple(scratch);
    var n := MessageToBuffer(schema, m, buffer);
    assert buffer.data[..n] == buffer.content;
    appended := buffer.data[..n];
  }

  /** Packing a message and unpacking the bytes gives it back, normalised, if it is complete, and
      nothing if it is not. */
  method PackAndUnpack(schema: Schema, tables: seq<seq<IntRange>>, m: Message) returns (r: Unpacked)
    requires WellFormed(schema) && AreTables(schema, tables) && Conforms(schema, m) && Clean(schema, m)
    requires |MembersOf(schema, m)| <= MAX_MEMBERS
    ensures r == if Complete(schema, m) then Unpacked(Norm(schema, m)) else Failed
  {
    var size, packed, appended := PackBothWays(schema, m);
    EncodedFits(schema, m);
    EncodedReadsNoNull(schema, m);
    r := UnpackMessage(schema, tables, m.desc, packed);
    UnpackOfEncode(schema, m);
  }

  /** Messages that pack to the same bytes are the same up to normalisation. */
  lemma {:induction false} SameBytesSameMessage(schema: Schema, a: Message, b: Message)
    requires WellFormed(schema) && a.desc == b.desc
    requires Conforms(schema, a) && Clean(schema, a) && Complete(schema, a)
    requires Conforms(schema, b) && Clean(schema, b) && Complete(schema, b)
    requires |MembersOf(schema, a)| <= MAX_MEMBERS && |MembersOf(schema, b)| <= MAX_MEMBERS
    requires Encode(schema, a) == Encode(schema, b)
    ensures Norm(schema, a) == Norm(schema, b)
  {
    UnpackOfEncode(schema, a);
    UnpackOfEncode(schema, b);
  }
}
