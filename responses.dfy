/** Responses of the server (server/response.go): status codes, the 24-byte
    response header, fillHeader and the encoder. */
module Responses {

  import opened Wrappers
  import opened Errors
  import opened ByteOrder
  import opened Stream
  import opened Header

  // Status codes of section 3.2 of draft-stone-memcache-binary.
  const StatusNoError: uint16 := 0x0000
  const StatusKeyError: uint16 := 0x0001
  const StatusKeyExists: uint16 := 0x0002
  const StatusValueTooLarge: uint16 := 0x0003
  const StatusInvalidArgs: uint16 := 0x0004
  const StatusItemNotStored: uint16 := 0x0005
  const StatusInvalidOp: uint16 := 0x0006
  const StatusUnknownCmd: uint16 := 0x0081
  const StatusOutOfMemory: uint16 := 0x0082

  datatype ResponseHeader = ResponseHeader(
    magic: uint8,
    opcode: uint8,
    keyLen: uint16,
    extrasLen: uint8,
    dataType: uint8,
    status: uint16,
    bodyLen: uint32,
    opaqueToken: uint32,
    cas: uint64)

  /** A response: header and the three body segments. `flags` is the value the
      Get command records for its item; it is never put on the wire. */
  datatype Response = Response(header: ResponseHeader, extras: Bytes, key: Bytes, value: Bytes, flags: uint32)

  /** The zero value `&Response{}`. */
  const EmptyResponse: Response := Response(ResponseHeader(0, 0, 0, 0, 0, 0, 0, 0, 0), [], [], [], 0)

  const Mod8: nat := 0x100
  const Mod16: nat := 0x1_0000
  const Mod32: nat := 0x1_0000_0000

  /** The header field values in wire order; Status sits where a request has Reserved. */
  function HeaderValues(h: ResponseHeader): (vals: seq<nat>)
    ensures Fits(vals)
  {
    FitsOf(h.magic, h.opcode, h.keyLen, h.extrasLen, h.dataType, h.status, h.bodyLen, h.opaqueToken, h.cas);
    [h.magic, h.opcode, h.keyLen, h.extrasLen, h.dataType, h.status, h.bodyLen, h.opaqueToken, h.cas]
  }

  /** The 24 bytes the header encoder puts on the wire. */
  function ResponseHeaderBytes(h: ResponseHeader): Bytes
  {
    Flatten(FieldChunks(HeaderValues(h)))
  }

  /** Everything Response.encode puts on the wire. */
  function ResponseBytes(rsp: Response): Bytes
  {
    ResponseHeaderBytes(rsp.header) + Flatten(NonEmptySegments(rsp.extras, rsp.key, rsp.value))
  }

  /** Response.fillHeader: derives Magic and the three lengths (each converted to
      its field width, so an over-long segment wraps) and echoes Opaque and Opcode. */
  function FillHeader(rsp: Response, req: RequestHeader): (r: Response)
    ensures r.header.magic == MagicCodeResponse
    ensures r.header.opaqueToken == req.opaqueToken && r.header.opcode == req.opcode
    ensures |rsp.key| < Mod16 ==> r.header.keyLen == |rsp.key|
    ensures |rsp.extras| < Mod8 ==> r.header.extrasLen == |rsp.extras|
    ensures |rsp.extras| + |rsp.key| + |rsp.value| < Mod32 ==>
              r.header.bodyLen == |rsp.extras| + |rsp.key| + |rsp.value|
    ensures r.header.status == rsp.header.status && r.header.cas == rsp.header.cas
    ensures r.header.dataType == rsp.header.dataType
    ensures r.extras == rsp.extras && r.key == rsp.key && r.value == rsp.value && r.flags == rsp.flags
  {
    var bodyLen := ((|rsp.extras| % Mod32) + (|rsp.key| % Mod32) + (|rsp.value| % Mod32)) % Mod32;
    rsp.(header := rsp.header.(
      magic := MagicCodeResponse,
      opaqueToken := req.opaqueToken,
      opcode := req.opcode,
      keyLen := |rsp.key| % Mod16,
      extrasLen := |rsp.extras| % Mod8,
      bodyLen := bodyLen))
  }

  /** Every segment length fits its header field. */
  predicate LengthsFit(rsp: Response)
  {
    |rsp.key| < Mod16 && |rsp.extras| < Mod8 && |rsp.extras| + |rsp.key| + |rsp.value| < Mod32
  }

  /** ResponseHeader.encode: one big-endian write per field, in wire order. */
  method EncodeHeader(h: ResponseHeader, w: Writer)
    modifies w
    ensures w.chunks == old(w.chunks) + FieldChunks(HeaderValues(h))
    ensures w.Output() == old(w.Output()) + ResponseHeaderBytes(h)
  {
    w.WriteAll(FieldChunks(HeaderValues(h)));
  }

  /** Response.encode: the header, then Extras, Key and Value, each written only
      when non-empty. */
  method Encode(rsp: Response, w: Writer)
    modifies w
    ensures w.chunks == old(w.chunks) + FieldChunks(HeaderValues(rsp.header))
                        + NonEmptySegments(rsp.extras, rsp.key, rsp.value)
    ensures w.Output() == old(w.Output()) + ResponseBytes(rsp)
  {
    EncodeHeader(rsp.header, w);
    ghost var afterHeader := w.chunks;
    w.WriteNonEmpty(rsp.extras);
    w.WriteNonEmpty(rsp.key);
    w.WriteNonEmpty(rsp.value);
    ghost var segments := NonEmptySegments(rsp.extras, rsp.key, rsp.value);
    assert w.chunks == afterHeader + segments;
    NonEmptySegmentsBytes(rsp.extras, rsp.key, rsp.value);
    AppendAssoc(old(w.Output()), ResponseHeaderBytes(rsp.header), rsp.extras, rsp.key, rsp.value);
  }

  /** No write call of the encoder is empty, and the body is exactly Extras, Key
      and Value concatenated. */
  lemma EncodeWritesNoEmptySegment(rsp: Response)
    ensures forall c :: c in NonEmptySegments(rsp.extras, rsp.key, rsp.value) ==> |c| > 0
    ensures ResponseBytes(rsp) == ResponseHeaderBytes(rsp.header) + rsp.extras + rsp.key + rsp.value
  {
    NonEmptySegmentsBytes(rsp.extras, rsp.key, rsp.value);
  }

  lemma ResponseHeaderSize(h: ResponseHeader)
    ensures |ResponseHeaderBytes(h)| == HeaderSize
  {
    FlattenLength(FieldChunks(HeaderValues(h)));
    HeaderSizeIsSum();
  }

  /** Read with the request decoder's layout, an encoded response header gives
      back every field, Status landing in the Reserved slot. */
  lemma ResponseHeaderRoundTrip(h: ResponseHeader, rest: Bytes)
    ensures ParseRequestHeader(ResponseHeaderBytes(h) + rest)
      == Success(RequestHeader(h.magic, h.opcode, h.keyLen, h.extrasLen, h.dataType,
                               h.status, h.bodyLen, h.opaqueToken, h.cas))
  {
    ParseFieldChunks(HeaderValues(h), rest);
  }

  /** After fillHeader, when the segments fit their length fields, the encoded
      response is 24 + BodyLen bytes long. */
  lemma FilledLength(rsp: Response, req: RequestHeader)
    requires LengthsFit(rsp)
    ensures |ResponseBytes(FillHeader(rsp, req))| == HeaderSize + FillHeader(rsp, req).header.bodyLen
  {
    var r := FillHeader(rsp, req);
    ResponseHeaderSize(r.header);
    EncodeWritesNoEmptySegment(r);
  }

  /** A client reading a filled, encoded response (followed by anything) recovers
      its header, and after the 24 header bytes come Extras, Key and Value. */
  lemma FilledRoundTrip(rsp: Response, req: RequestHeader, rest: Bytes)
    requires LengthsFit(rsp)
    ensures var b := ResponseBytes(FillHeader(rsp, req)) + rest;
      && ParseRequestHeader(b) == Success(RequestHeader(
           MagicCodeResponse, req.opcode, |rsp.key|, |rsp.extras|, rsp.header.dataType,
           rsp.header.status, |rsp.extras| + |rsp.key| + |rsp.value|, req.opaqueToken, rsp.header.cas))
      && |b| >= HeaderSize
      && b[HeaderSize..] == rsp.extras + rsp.key + rsp.value + rest
  {
    var r := FillHeader(rsp, req);
    ResponseHeaderSize(r.header);
    EncodeWritesNoEmptySegment(r);
    var hb := ResponseHeaderBytes(r.header);
    var tail := rsp.extras + rsp.key + rsp.value + rest;
    AppendAssoc(hb, rsp.extras, rsp.key, rsp.value, rest);
    assert ResponseBytes(r) + rest == hb + tail;
    ResponseHeaderRoundTrip(r.header, tail);
    ConcatHalves(hb, tail);
  }
}
