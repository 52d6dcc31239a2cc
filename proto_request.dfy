/** The earlier request codec at the repository root (request.go): the same
    24-byte header, with CAS kept as 8 raw bytes, and a body cut into raw
    Extras, Key and Value. */
module ProtoRequest {

  import opened Wrappers
  import opened Errors
  import opened ByteOrder
  import opened Stream
  import Header

  /** The header of request.go; CAS is the 8 bytes as they came. */
  datatype RequestHeader = RequestHeader(
    magic: uint8,
    opcode: uint8,
    keyLen: uint16,
    extrasLen: uint8,
    dataType: uint8,
    reserved: uint16,
    bodyLen: uint32,
    opaqueToken: uint32,
    cas: Bytes)

  datatype Request = Request(header: RequestHeader, extras: Bytes, key: Bytes, value: Bytes)

  /** The first eight fields converted from big-endian, the ninth kept raw. */
  function HeaderOf(cs: seq<Bytes>): (h: RequestHeader)
    requires |cs| == 9 && forall j :: 0 <= j < 9 ==> |cs[j]| == Header.FieldWidths[j]
    ensures |h.cas| == 8
  {
    Pow256Widths();
    RequestHeader(BigEndian(cs[0]), BigEndian(cs[1]), BigEndian(cs[2]), BigEndian(cs[3]),
                  BigEndian(cs[4]), BigEndian(cs[5]), BigEndian(cs[6]), BigEndian(cs[7]), cs[8])
  }

  /** What RequestHeader.decode makes of the bytes left on the stream. */
  function ParseHeader(b: Bytes): Result<RequestHeader, Error>
  {
    if |b| < Header.HeaderSize then Failure(ShortRead)
    else
      Header.HeaderSizeIsSum();
      Success(HeaderOf(SplitFields(b, Header.FieldWidths)))
  }

  /** RequestHeader.decode: one binary.Read per field, the CAS into a fresh 8-byte
      buffer; the first field the stream is too short for ends it with an error. */
  method DecodeHeader(r: Reader) returns (res: Result<RequestHeader, Error>)
    requires r.Valid()
    modifies r
    ensures r.Valid()
    ensures res == ParseHeader(old(r.Rest()))
    ensures r.pos == old(r.pos) + (if res.Success? then Header.HeaderSize else |old(r.Rest())|)
  {
    Header.HeaderSizeIsSum();
    var fields := r.ReadFields(Header.FieldWidths);
    if fields.Failure? {
      return Failure(fields.error);
    }
    return Success(HeaderOf(fields.value));
  }

  /** `rest := int(BodyLen) - int(KeyLen) - int(ExtrasLen)`: the value length,
      read only when positive. */
  function ValueLen(h: RequestHeader): int
  {
    h.bodyLen as int - h.keyLen as int - h.extrasLen as int
  }

  /** Body bytes Request.decode reads: ExtrasLen of extras, KeyLen of key, then the value. */
  function BodySize(h: RequestHeader): nat
  {
    h.extrasLen + KeyValueSize(h.keyLen, ValueLen(h))
  }

  /** The request the body reads leave behind, the header already in place:
      Extras, Key and Value cut from the front of the body, each only when its
      length is positive (a segment not read keeps its value). */
  function ParseBody(q: Request, body: Bytes): Result<Request, Error>
  {
    var h := q.header;
    var xl := h.extrasLen as nat;
    if |body| < xl then Failure(ShortRead)
    else
      match ParseKeyValue(body[xl..], h.keyLen, ValueLen(h), q.key, q.value)
      case Failure(e) => Failure(e)
      case Success(kv) =>
        Success(q.(extras := if xl > 0 then body[..xl] else q.extras, key := kv.0, value := kv.1))
  }

  /** The request Request.decode leaves behind given the bytes left on the stream. */
  function ParseRequest(req: Request, b: Bytes): Result<Request, Error>
  {
    match ParseHeader(b)
    case Failure(e) => Failure(e)
    case Success(h) => ParseBody(req.(header := h), b[Header.HeaderSize..])
  }

  /** The bytes ParseRequest consumes: everything on a failure, else the header and body. */
  function Consumed(req: Request, b: Bytes): nat
  {
    match ParseRequest(req, b)
    case Failure(_) => |b|
    case Success(q) => Header.HeaderSize + BodySize(q.header)
  }

  /** The body half of Request.decode: Extras, Key and Value, each read only when
      its length is positive. */
  method DecodeBody(q: Request, r: Reader) returns (res: Result<Request, Error>)
    requires r.Valid()
    modifies r
    ensures r.Valid()
    ensures res == ParseBody(q, old(r.Rest()))
    ensures r.pos == old(r.pos) + (if res.Success? then BodySize(q.header) else |old(r.Rest())|)
  {
    ghost var body := r.Rest();
    var h := q.header;
    var extras := q.extras;
    if h.extrasLen > 0 {
      var x := r.ReadFull(h.extrasLen);
      if x.Failure? {
        return Failure(x.error);
      }
      extras := x.value;
    }
    assert r.Rest() == body[h.extrasLen..];
    var kv := r.ReadKeyValue(h.keyLen, ValueLen(h), q.key, q.value);
    if kv.Failure? {
      return Failure(kv.error);
    }
    return Success(q.(extras := extras, key := kv.value.0, value := kv.value.1));
  }

  /** Request.decode: the header, then the body; a header error returns before
      any body byte is read. */
  method Decode(req: Request, r: Reader) returns (res: Result<Request, Error>)
    requires r.Valid()
    modifies r
    ensures r.Valid()
    ensures res == ParseRequest(req, old(r.Rest()))
    ensures r.pos == old(r.pos) + Consumed(req, old(r.Rest()))
  {
    ghost var rest0 := r.Rest();
    var hdr := DecodeHeader(r);
    if hdr.Failure? {
      return Failure(hdr.error);
    }
    assert r.Rest() == rest0[Header.HeaderSize..];
    res := DecodeBody(req.(header := hdr.value), r);
  }

  /** A header error is the request's error, and no byte of the body is read. */
  lemma HeaderErrorStopsDecode(req: Request, b: Bytes)
    requires ParseHeader(b).Failure?
    ensures ParseRequest(req, b) == Failure(ParseHeader(b).error)
    ensures Consumed(req, b) == |b|
  {
  }

  /** When BodyLen covers extras and key, a decoded request consumed exactly
      24 + BodyLen bytes, its Extras being exactly ExtrasLen bytes. */
  lemma ConsumedIsHeaderPlusBody(req: Request, b: Bytes)
    requires ParseRequest(req, b).Success?
    requires var h := ParseRequest(req, b).value.header; h.bodyLen >= h.keyLen + h.extrasLen
    ensures var q := ParseRequest(req, b).value;
      && Consumed(req, b) == Header.HeaderSize + q.header.bodyLen
      && (q.header.extrasLen > 0 ==> |q.extras| == q.header.extrasLen)
      && (q.header.keyLen > 0 ==> |q.key| == q.header.keyLen)
  {
  }

  /** A client's encoding of a header, one chunk per field: the eight numeric
      fields big-endian, then CAS as is. */
  function HeaderChunks(h: RequestHeader): (cs: seq<Bytes>)
    requires |h.cas| == 8
    ensures Lengths(cs) == Header.FieldWidths
  {
    Pow256Widths();
    [ToBigEndian(h.magic, 1), ToBigEndian(h.opcode, 1), ToBigEndian(h.keyLen, 2),
     ToBigEndian(h.extrasLen, 1), ToBigEndian(h.dataType, 1), ToBigEndian(h.reserved, 2),
     ToBigEndian(h.bodyLen, 4), ToBigEndian(h.opaqueToken, 4), h.cas]
  }

  function HeaderBytes(h: RequestHeader): Bytes
    requires |h.cas| == 8
  {
    Flatten(HeaderChunks(h))
  }

  /** The header, then extras, key and value. */
  function RequestBytes(q: Request): Bytes
    requires |q.header.cas| == 8
  {
    HeaderBytes(q.header) + q.extras + q.key + q.value
  }

  /** The header's lengths describe the segments exactly. */
  predicate WellFormed(q: Request)
  {
    && |q.header.cas| == 8
    && |q.extras| == q.header.extrasLen && |q.key| == q.header.keyLen
    && |q.value| == KeyValueSize(0, ValueLen(q.header))
  }

  /** Decoding an encoded header, whatever follows it, recovers the header. */
  lemma HeaderRoundTrip(h: RequestHeader, tail: Bytes)
    requires |h.cas| == 8
    ensures |HeaderBytes(h)| == Header.HeaderSize
    ensures ParseHeader(HeaderBytes(h) + tail) == Success(h)
  {
    var cs := HeaderChunks(h);
    SplitFlatten(cs, tail);
    Header.HeaderSizeIsSum();
    FlattenLength(cs);
    Pow256Widths();
    BigEndianOfToBigEndian(h.magic, 1);
    BigEndianOfToBigEndian(h.opcode, 1);
    BigEndianOfToBigEndian(h.keyLen, 2);
    BigEndianOfToBigEndian(h.extrasLen, 1);
    BigEndianOfToBigEndian(h.dataType, 1);
    BigEndianOfToBigEndian(h.reserved, 2);
    BigEndianOfToBigEndian(h.bodyLen, 4);
    BigEndianOfToBigEndian(h.opaqueToken, 4);
  }

  /** Decoding a well-formed request's encoding, whatever follows it, recovers
      the request and consumes exactly its bytes. */
  lemma RequestRoundTrip(q: Request, rest: Bytes)
    requires WellFormed(q)
    ensures ParseRequest(Request(q.header, [], [], []), RequestBytes(q) + rest) == Success(q)
    ensures Consumed(Request(q.header, [], [], []), RequestBytes(q) + rest) == |RequestBytes(q)|
  {
    var h := q.header;
    var hb := HeaderBytes(h);
    var kvr := q.key + q.value + rest;
    var tail := q.extras + kvr;
    assert RequestBytes(q) + rest == hb + tail;
    HeaderRoundTrip(h, tail);
    ConcatHalves(hb, tail);
    ConcatHalves(q.extras, kvr);
    ParseKeyValueRoundTrip(q.key, q.value, ValueLen(h), rest);
  }
}
