/** The 24-byte request header of the Memcache binary protocol (section 3 of
    draft-stone-memcache-binary), its constants and its decoder. */
module Header {

  import opened Wrappers
  import opened Errors
  import opened ByteOrder
  import opened Stream

  const MagicCodeRequest: uint8 := 0x80
  const MagicCodeResponse: uint8 := 0x81

  const CmdGet: uint8 := 0x00
  const CmdSet: uint8 := 0x01
  const CmdGetQ: uint8 := 0x09
  const CmdSetQ: uint8 := 0x11

  /** Widths, in bytes, of Magic, Opcode, KeyLen, ExtrasLen, DataType,
      Reserved, BodyLen, Opaque and CAS, in wire order. */
  const FieldWidths: seq<nat> := [1, 1, 2, 1, 1, 2, 4, 4, 8]

  const HeaderSize: nat := 24

  datatype RequestHeader = RequestHeader(
    magic: uint8,
    opcode: uint8,
    keyLen: uint16,
    extrasLen: uint8,
    dataType: uint8,
    reserved: uint16,
    bodyLen: uint32,
    opaqueToken: uint32,   // relayed back in the response as is
    cas: uint64)      // version for the compare-and-swap check

  /** Nine field values, each small enough for its width. */
  predicate Fits(vals: seq<nat>)
  {
    |vals| == |FieldWidths| && forall j :: 0 <= j < |vals| ==> vals[j] < Pow256(FieldWidths[j])
  }

  function FromValues(vals: seq<nat>): RequestHeader
    requires Fits(vals)
  {
    Pow256Widths();
    RequestHeader(vals[0], vals[1], vals[2], vals[3], vals[4], vals[5], vals[6], vals[7], vals[8])
  }

  function Values(h: RequestHeader): seq<nat>
  {
    [h.magic, h.opcode, h.keyLen, h.extrasLen, h.dataType, h.reserved, h.bodyLen, h.opaqueToken, h.cas]
  }

  /** Each field value converted by binary.Read from its big-endian bytes. */
  function HeaderOf(cs: seq<Bytes>): RequestHeader
    requires |cs| == |FieldWidths| && forall j :: 0 <= j < |cs| ==> |cs[j]| == FieldWidths[j]
  {
    FromValues(seq(|cs|, j requires 0 <= j < |cs| => BigEndian(cs[j])))
  }

  /** What RequestHeader.decode makes of the bytes left on the stream. */
  function ParseRequestHeader(b: Bytes): Result<RequestHeader, Error>
  {
    if |b| < HeaderSize then Failure(ShortRead)
    else
      HeaderSizeIsSum();
      Success(HeaderOf(SplitFields(b, FieldWidths)))
  }

  /** The big-endian encoding of each of nine fitting field values. */
  function FieldChunks(vals: seq<nat>): (cs: seq<Bytes>)
    requires Fits(vals)
    ensures Lengths(cs) == FieldWidths
  {
    seq(|vals|, j requires 0 <= j < |vals| => ToBigEndian(vals[j], FieldWidths[j]))
  }

  /** A client's encoding of a request header: the inverse of the decoder. */
  function RequestHeaderBytes(h: RequestHeader): Bytes
  {
    FitsOf(h.magic, h.opcode, h.keyLen, h.extrasLen, h.dataType, h.reserved, h.bodyLen, h.opaqueToken, h.cas);
    Flatten(FieldChunks(Values(h)))
  }

  /** `rest := int(BodyLen) - int(KeyLen) - int(ExtrasLen)`: the number of value
      bytes a body decoder reads when it is positive (it may be negative). */
  function ValueLen(h: RequestHeader): int
  {
    h.bodyLen as int - h.keyLen as int - h.extrasLen as int
  }

  /** The number of value bytes actually read: none when ValueLen is not positive. */
  function ValueBytesRead(h: RequestHeader): (n: nat)
    ensures n > 0 <==> ValueLen(h) > 0
    ensures ValueLen(h) > 0 ==> n == ValueLen(h)
  {
    if ValueLen(h) > 0 then ValueLen(h) else 0
  }

  /** RequestHeader.decode: reads the nine fields in order, big-endian, filling
      the header; the first field the stream is too short for ends it with an error. */
  method DecodeRequestHeader(r: Reader) returns (res: Result<RequestHeader, Error>)
    requires r.Valid()
    modifies r
    ensures r.Valid()
    ensures res == ParseRequestHeader(old(r.Rest()))
    ensures r.pos == old(r.pos) + (if res.Success? then HeaderSize else |old(r.Rest())|)
  {
    HeaderSizeIsSum();
    var fields := r.ReadFields(FieldWidths);
    if fields.Failure? {
      return Failure(fields.error);
    }
    return Success(HeaderOf(fields.value));
  }

  lemma HeaderSizeIsSum()
    ensures Sum(FieldWidths) == HeaderSize
  {
    FieldOffsets();
    assert FieldWidths[..9] == FieldWidths;
  }

  /** Where each field starts: the wire offsets 0, 1, 2, 4, 5, 6, 8, 12, 16 and 24. */
  lemma FieldOffsets()
    ensures Sum(FieldWidths[..0]) == 0 && Sum(FieldWidths[..1]) == 1 && Sum(FieldWidths[..2]) == 2
    ensures Sum(FieldWidths[..3]) == 4 && Sum(FieldWidths[..4]) == 5 && Sum(FieldWidths[..5]) == 6
    ensures Sum(FieldWidths[..6]) == 8 && Sum(FieldWidths[..7]) == 12 && Sum(FieldWidths[..8]) == 16
    ensures Sum(FieldWidths[..9]) == 24
  {
    var w := FieldWidths;
    assert w[..1][..0] == w[..0];
    assert w[..2][..1] == w[..1];
    assert w[..3][..2] == w[..2];
    assert w[..4][..3] == w[..3];
    assert w[..5][..4] == w[..4];
    assert w[..6][..5] == w[..5];
    assert w[..7][..6] == w[..6];
    assert w[..8][..7] == w[..7];
    assert w[..9][..8] == w[..8];
  }

  lemma FitsOf(a: uint8, b: uint8, c: uint16, d: uint8, e: uint8, f: uint16, g: uint32, h: uint32, i: uint64)
    ensures Fits([a, b, c, d, e, f, g, h, i])
  {
    Pow256Widths();
  }

  /** The nine fields the decoder cuts from the first 24 bytes. */
  lemma HeaderSlices(b: Bytes)
    requires |b| >= HeaderSize
    ensures Sum(FieldWidths) <= |b|
    ensures var cs := SplitFields(b, FieldWidths);
      && cs[0] == b[0..1] && cs[1] == b[1..2] && cs[2] == b[2..4] && cs[3] == b[4..5]
      && cs[4] == b[5..6] && cs[5] == b[6..8] && cs[6] == b[8..12] && cs[7] == b[12..16]
      && cs[8] == b[16..24]
  {
    HeaderSizeIsSum();
    FieldOffsets();
    SplitFieldAt(b, FieldWidths, 0);
    SplitFieldAt(b, FieldWidths, 1);
    SplitFieldAt(b, FieldWidths, 2);
    SplitFieldAt(b, FieldWidths, 3);
    SplitFieldAt(b, FieldWidths, 4);
    SplitFieldAt(b, FieldWidths, 5);
    SplitFieldAt(b, FieldWidths, 6);
    SplitFieldAt(b, FieldWidths, 7);
    SplitFieldAt(b, FieldWidths, 8);
  }

  /** Field by field, the header is the nine consecutive slices of the first 24 bytes. */
  lemma RequestHeaderFields(b: Bytes)
    requires |b| >= HeaderSize
    ensures ParseRequestHeader(b) == Success(RequestHeader(
      b[0], b[1], BigEndian(b[2..4]), b[4], b[5], BigEndian(b[6..8]),
      BigEndian(b[8..12]), BigEndian(b[12..16]), BigEndian(b[16..24])))
  {
    HeaderSlices(b);
    BigEndian1(b[0..1]);
    BigEndian1(b[1..2]);
    BigEndian1(b[4..5]);
    BigEndian1(b[5..6]);
  }

  /** The header occupies the first 24 bytes, each field big-endian at its fixed
      offset: Magic at 0, Opcode at 1, KeyLen at 2-3, ExtrasLen at 4, DataType at 5,
      Reserved at 6-7, BodyLen at 8-11, Opaque at 12-15 and CAS at 16-23. */
  lemma RequestHeaderLayout(b: Bytes)
    requires |b| >= HeaderSize
    ensures ParseRequestHeader(b).Success?
    ensures var h := ParseRequestHeader(b).value;
      && h.magic == b[0] && h.opcode == b[1]
      && h.keyLen == (b[2] as int) * 0x100 + b[3]
      && h.extrasLen == b[4] && h.dataType == b[5]
      && h.reserved == (b[6] as int) * 0x100 + b[7]
      && h.bodyLen == (((b[8] as int) * 0x100 + b[9]) * 0x100 + b[10]) * 0x100 + b[11]
      && h.opaqueToken == (((b[12] as int) * 0x100 + b[13]) * 0x100 + b[14]) * 0x100 + b[15]
      && h.cas == (((((((b[16] as int) * 0x100 + b[17]) * 0x100 + b[18]) * 0x100 + b[19]) * 0x100
                    + b[20]) * 0x100 + b[21]) * 0x100 + b[22]) * 0x100 + b[23]
  {
    RequestHeaderFields(b);
    BigEndian2At(b, 2);
    BigEndian2At(b, 6);
    BigEndian4At(b, 8);
    BigEndian4At(b, 12);
    BigEndian8At(b, 16);
  }

  /** The header decoder looks only at the first 24 bytes. */
  lemma ParseRequestHeaderPrefix(b: Bytes, rest: Bytes)
    requires |b| >= HeaderSize
    ensures ParseRequestHeader(b + rest) == ParseRequestHeader(b)
  {
    HeaderSizeIsSum();
    SplitFieldsPrefix(b, rest, FieldWidths);
  }

  /** Decoding the encodings of nine fitting values, whatever follows them,
      recovers the values. */
  lemma ParseFieldChunks(vals: seq<nat>, rest: Bytes)
    requires Fits(vals)
    ensures ParseRequestHeader(Flatten(FieldChunks(vals)) + rest) == Success(FromValues(vals))
  {
    var cs := FieldChunks(vals);
    SplitFlatten(cs, rest);
    HeaderSizeIsSum();
    FlattenLength(cs);
    var decoded := seq(|cs|, j requires 0 <= j < |cs| => BigEndian(cs[j]));
    forall j | 0 <= j < |cs|
      ensures decoded[j] == vals[j]
    {
      BigEndianOfToBigEndian(vals[j], FieldWidths[j]);
    }
    assert decoded == vals;
  }

  /** Decoding a client's encoding of a header recovers every field. */
  lemma RequestHeaderRoundTrip(h: RequestHeader, rest: Bytes)
    ensures |RequestHeaderBytes(h)| == HeaderSize
    ensures ParseRequestHeader(RequestHeaderBytes(h) + rest) == Success(h)
  {
    FitsOf(h.magic, h.opcode, h.keyLen, h.extrasLen, h.dataType, h.reserved, h.bodyLen, h.opaqueToken, h.cas);
    FlattenLength(FieldChunks(Values(h)));
    HeaderSizeIsSum();
    ParseFieldChunks(Values(h), rest);
  }

  /** The header of the request in server/request_test.go: a Get with a five-byte key. */
  lemma TestVector()
    ensures ParseRequestHeader([0x80, 0x00, 0x00, 0x05, 0x00, 0x00, 0x00, 0x00,
                                0x00, 0x00, 0x00, 0x05, 0x00, 0x00, 0x00, 0x00,
                                0x00, 0x00, 0x00, 0x00, 0x00, 0x00, 0x00, 0x00])
      == Success(RequestHeader(MagicCodeRequest, CmdGet, 5, 0, 0, 0, 5, 0, 0))
  {
    var b: Bytes := [0x80, 0x00, 0x00, 0x05, 0x00, 0x00, 0x00, 0x00,
                     0x00, 0x00, 0x00, 0x05, 0x00, 0x00, 0x00, 0x00,
                     0x00, 0x00, 0x00, 0x00, 0x00, 0x00, 0x00, 0x00];
    RequestHeaderLayout(b);
  }
}
