/** The earlier response encoder at the repository root (response.go): the
    response header keeps CAS as raw bytes, and encoding always sends it as
    eight zero bytes. */
module ProtoResponse {

  import opened Wrappers
  import opened Errors
  import opened ByteOrder
  import opened Stream
  import Header
  import ProtoRequest

  datatype ResponseHeader = ResponseHeader(
    magic: uint8,
    opcode: uint8,
    keyLen: uint16,
    extrasLen: uint8,
    dataType: uint8,
    status: uint16,
    bodyLen: uint32,
    opaqueToken: uint32,
    cas: Bytes)

  datatype Response = Response(header: ResponseHeader, extras: Bytes, key: Bytes, value: Bytes)

  /** `make([]byte, 8)`. */
  const ZeroCas: Bytes := [0, 0, 0, 0, 0, 0, 0, 0]

  /** One chunk per header field, in wire order; Status sits where a request
      has Reserved, and CAS is written as is. */
  function HeaderChunks(h: ResponseHeader): (cs: seq<Bytes>)
    requires |h.cas| == 8
    ensures Lengths(cs) == Header.FieldWidths
  {
    Pow256Widths();
    [ToBigEndian(h.magic, 1), ToBigEndian(h.opcode, 1), ToBigEndian(h.keyLen, 2),
     ToBigEndian(h.extrasLen, 1), ToBigEndian(h.dataType, 1), ToBigEndian(h.status, 2),
     ToBigEndian(h.bodyLen, 4), ToBigEndian(h.opaqueToken, 4), h.cas]
  }

  /** The header as encode leaves it: its CAS replaced by eight zero bytes. */
  function ZeroedHeader(h: ResponseHeader): (z: ResponseHeader)
    ensures z.cas == ZeroCas
  {
    h.(cas := ZeroCas)
  }

  /** Everything Response.encode puts on the wire. */
  function ResponseBytes(rsp: Response): Bytes
  {
    Flatten(HeaderChunks(ZeroedHeader(rsp.header)))
    + Flatten(NonEmptySegments(rsp.extras, rsp.key, rsp.value))
  }

  /** ResponseHeader.encode: overwrites CAS with eight zero bytes, then writes
      each field, in wire order. The updated header is returned. */
  method EncodeHeader(h: ResponseHeader, w: Writer) returns (h': ResponseHeader)
    modifies w
    ensures h' == ZeroedHeader(h)
    ensures w.chunks == old(w.chunks) + HeaderChunks(h')
  {
    h' := h.(cas := ZeroCas);
    var fields := HeaderChunks(h');
    w.WriteAll(fields);
  }

  /** Response.encode: the header, then Extras, Key and Value, each written only
      when non-empty. The response is returned with its zeroed CAS. */
  method Encode(rsp: Response, w: Writer) returns (rsp': Response)
    modifies w
    ensures rsp' == rsp.(header := ZeroedHeader(rsp.header))
    ensures w.chunks == old(w.chunks) + HeaderChunks(rsp'.header)
                        + NonEmptySegments(rsp.extras, rsp.key, rsp.value)
    ensures w.Output() == old(w.Output()) + ResponseBytes(rsp)
  {
    var h := EncodeHeader(rsp.header, w);
    rsp' := rsp.(header := h);
    ghost var afterHeader := w.chunks;
    w.WriteNonEmpty(rsp.extras);
    w.WriteNonEmpty(rsp.key);
    w.WriteNonEmpty(rsp.value);
    assert w.chunks == afterHeader + NonEmptySegments(rsp.extras, rsp.key, rsp.value);
    FlattenAppend(old(w.chunks), HeaderChunks(h));
    NonEmptySegmentsBytes(rsp.extras, rsp.key, rsp.value);
    AppendAssoc(old(w.Output()), Flatten(HeaderChunks(h)), rsp.extras, rsp.key, rsp.value);
  }

  /** The output is the 24 header bytes, then Extras, Key and Value, with no
      other bytes. */
  lemma ResponseLayout(rsp: Response)
    ensures |Flatten(HeaderChunks(ZeroedHeader(rsp.header)))| == Header.HeaderSize
    ensures ResponseBytes(rsp) == Flatten(HeaderChunks(ZeroedHeader(rsp.header))) + rsp.extras + rsp.key + rsp.value
    ensures |ResponseBytes(rsp)| == Header.HeaderSize + |rsp.extras| + |rsp.key| + |rsp.value|
  {
    FlattenLength(HeaderChunks(ZeroedHeader(rsp.header)));
    Header.HeaderSizeIsSum();
    NonEmptySegmentsBytes(rsp.extras, rsp.key, rsp.value);
  }

  /** Read back with the request layout, the encoded header gives every field,
      Status in the Reserved slot, and CAS as eight zero bytes, whatever the
      response's CAS was. */
  lemma ResponseHeaderRoundTrip(rsp: Response, rest: Bytes)
    ensures var h := rsp.header;
      ProtoRequest.ParseHeader(ResponseBytes(rsp) + rest)
        == Success(ProtoRequest.RequestHeader(h.magic, h.opcode, h.keyLen, h.extrasLen, h.dataType,
                                              h.status, h.bodyLen, h.opaqueToken, ZeroCas))
  {
    var h := ZeroedHeader(rsp.header);
    var cs := HeaderChunks(h);
    var tail := Flatten(NonEmptySegments(rsp.extras, rsp.key, rsp.value)) + rest;
    assert ResponseBytes(rsp) + rest == Flatten(cs) + tail;
    SplitFlatten(cs, tail);
    Header.HeaderSizeIsSum();
    FlattenLength(cs);
    Pow256Widths();
    BigEndianOfToBigEndian(h.magic, 1);
    BigEndianOfToBigEndian(h.opcode, 1);
    BigEndianOfToBigEndian(h.keyLen, 2);
    BigEndianOfToBigEndian(h.extrasLen, 1);
    BigEndianOfToBigEndian(h.dataType, 1);
    BigEndianOfToBigEndian(h.status, 2);
    BigEndianOfToBigEndian(h.bodyLen, 4);
    BigEndianOfToBigEndian(h.opaqueToken, 4);
  }

  /** The eight CAS bytes on the wire, offsets 16 to 23, are always zero. */
  lemma EmittedCasIsZero(rsp: Response)
    ensures |ResponseBytes(rsp)| >= Header.HeaderSize
    ensures ResponseBytes(rsp)[16..24] == ZeroCas
  {
    ResponseLayout(rsp);
    ResponseHeaderRoundTrip(rsp, []);
    var b := ResponseBytes(rsp);
    assert b + [] == b;
    Header.HeaderSizeIsSum();
    Header.FieldOffsets();
    SplitFieldAt(b, Header.FieldWidths, 8);
  }
}
