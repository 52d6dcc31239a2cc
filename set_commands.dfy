/** The Set command (server/set_commands.go): its body decoder, its validity
    predicate and its execution against the store. */
module SetCommands {

  import opened Wrappers
  import opened Errors
  import opened ByteOrder
  import opened Stream
  import opened Header
  import opened Responses
  import opened Store

  /** A Set request: the header it came with and the body fields Decode fills. */
  datatype SetCmd = SetCmd(header: RequestHeader, flags: uint32, expiration: uint32, key: Bytes, value: Bytes)

  /** `&SetCmd{Header: hdr}`: the command getCommand creates, body fields zero. */
  function NewSetCmd(h: RequestHeader): (c: SetCmd)
    ensures c.header == h && c.flags == 0 && c.expiration == 0 && c.key == [] && c.value == []
  {
    SetCmd(h, 0, 0, [], [])
  }

  /** Flags and Expiration, two uint32s, are read whenever ExtrasLen is positive,
      whatever its value. */
  function ExtrasBytesRead(h: RequestHeader): nat
  {
    if h.extrasLen > 0 then 8 else 0
  }

  /** How many body bytes Decode reads when the stream holds enough. */
  function SetBodySize(h: RequestHeader): nat
  {
    ExtrasBytesRead(h) + KeyValueSize(h.keyLen, ValueLen(h))
  }

  /** The command Decode leaves behind given the bytes left on the stream: flags
      and expiration from the first eight bytes when ExtrasLen > 0, then KeyLen
      bytes of key, then the positive remainder of BodyLen as value; a field not
      read keeps its value. */
  function ParseSetBody(c: SetCmd, b: Bytes): Result<SetCmd, Error>
  {
    var h := c.header;
    var xl := ExtrasBytesRead(h);
    if |b| < xl then Failure(ShortRead)
    else
      match ParseKeyValue(b[xl..], h.keyLen, ValueLen(h), c.key, c.value)
      case Failure(e) => Failure(e)
      case Success(kv) =>
        Success(c.(flags := if xl > 0 then Uint32Of(b[..4]) else c.flags,
                   expiration := if xl > 0 then Uint32Of(b[4..8]) else c.expiration,
                   key := kv.0, value := kv.1))
  }

  /** The two binary.Read calls for the extras: Flags, then Expiration. */
  method ReadExtras(r: Reader) returns (res: Result<(uint32, uint32), Error>)
    requires r.Valid()
    modifies r
    ensures r.Valid()
    ensures 8 <= |old(r.Rest())| ==> && res == Success((Uint32Of(old(r.Rest())[..4]), Uint32Of(old(r.Rest())[4..8])))
                                     && r.pos == old(r.pos) + 8
    ensures 8 > |old(r.Rest())| ==> res == Failure(ShortRead) && r.pos == |r.data|
  {
    ghost var rest0 := r.Rest();
    var f := r.ReadFull(4);
    if f.Failure? {
      return Failure(f.error);
    }
    var e := r.ReadFull(4);
    if e.Failure? {
      return Failure(e.error);
    }
    assert e.value == rest0[4..8];
    return Success((Uint32Of(f.value), Uint32Of(e.value)));
  }

  /** SetCmd.Decode: reads flags, expiration, key and value in that order,
      stopping at the first one the stream is too short for. */
  method Decode(c: SetCmd, r: Reader) returns (res: Result<SetCmd, Error>)
    requires r.Valid()
    modifies r
    ensures r.Valid()
    ensures res == ParseSetBody(c, old(r.Rest()))
    ensures r.pos == old(r.pos) + (if res.Success? then SetBodySize(c.header) else |old(r.Rest())|)
  {
    ghost var rest0 := r.Rest();
    var hdr := c.header;
    var flags, expiration := c.flags, c.expiration;
    if hdr.extrasLen > 0 {
      var x := ReadExtras(r);
      if x.Failure? {
        return Failure(x.error);
      }
      flags, expiration := x.value.0, x.value.1;
    }
    assert r.Rest() == rest0[ExtrasBytesRead(hdr)..];
    var kv := r.ReadKeyValue(hdr.keyLen, ValueLen(hdr), c.key, c.value);
    if kv.Failure? {
      return Failure(kv.error);
    }
    return Success(c.(flags := flags, expiration := expiration, key := kv.value.0, value := kv.value.1));
  }

  /** SetCmd.IsValid: the first rule a Set breaks, or acceptance. */
  function IsValid(c: SetCmd): (v: Verdict)
    ensures v == Accept <==> c.header.extrasLen > 0 && c.header.keyLen > 0 && |c.key| > 0 && |c.value| > 0
    ensures c.header.extrasLen == 0 ==> v == Reject("missing extra length")
  {
    if c.header.extrasLen == 0 then Reject("missing extra length")
    else if c.header.keyLen <= 0 then Reject("0 key length")
    else if |c.key| == 0 then Reject("missing key")
    else if |c.value| == 0 then Reject("missing value")
    else Accept
  }

  /** What Execute returns, given the table before it: the store's error, or a
      response with no segments that echoes the request's Opcode and Opaque. */
  function Reply(kv: map<Bytes, Item>, c: SetCmd): (res: Result<Response, Error>)
    ensures res.Success? <==> ApplySet(kv, c.key, c.value, c.flags, c.expiration, c.header.cas).Success?
    ensures res.Failure? ==> res.error == ApplySet(kv, c.key, c.value, c.flags, c.expiration, c.header.cas).error
    ensures res.Success? ==> var rsp := res.value;
      && rsp.extras == [] && rsp.key == [] && rsp.value == []
      && rsp.header.magic == MagicCodeResponse
      && rsp.header.opcode == c.header.opcode && rsp.header.opaqueToken == c.header.opaqueToken
      && rsp.header.keyLen == 0 && rsp.header.extrasLen == 0 && rsp.header.bodyLen == 0
      && rsp.header.status == StatusNoError && rsp.header.cas == 0
  {
    match ApplySet(kv, c.key, c.value, c.flags, c.expiration, c.header.cas)
    case Failure(e) => Failure(e)
    case Success(_) => Success(FillHeader(EmptyResponse, c.header))
  }

  /** SetCmd.Execute: hands key, value, Flags, Expiration and the header's CAS to
      the store; a store error becomes the command's error and no response. */
  method Execute(ds: DataStore, c: SetCmd) returns (res: Result<Response, Error>)
    modifies ds
    ensures ds.kv == StoreAfterSet(old(ds.kv), c.key, c.value, c.flags, c.expiration, c.header.cas)
    ensures res == Reply(old(ds.kv), c)
  {
    var rsp := EmptyResponse;
    var err := ds.Set(c.key, c.value, c.flags, c.expiration, c.header.cas);
    if err.Some? {
      return Failure(err.value);
    }
    rsp := FillHeader(rsp, c.header);
    return Success(rsp);
  }

  /** What a client sends as the body of a Set whose header agrees with it. */
  function SetBodyBytes(c: SetCmd): Bytes
  {
    Pow256Widths();
    (if c.header.extrasLen > 0 then ToBigEndian(c.flags, 4) + ToBigEndian(c.expiration, 4) else [])
    + c.key + c.value
  }

  /** The header's lengths describe the body fields, and fields without bytes are zero. */
  predicate WellFormed(c: SetCmd)
  {
    && |c.key| == c.header.keyLen
    && |c.value| == ValueBytesRead(c.header)
    && (c.header.extrasLen == 0 ==> c.flags == 0 && c.expiration == 0)
  }

  /** Decoding a well-formed Set's body, whatever follows it, into a fresh command
      recovers the command and consumes exactly the body. */
  lemma SetBodyRoundTrip(c: SetCmd, rest: Bytes)
    requires WellFormed(c)
    ensures |SetBodyBytes(c)| == SetBodySize(c.header)
    ensures ParseSetBody(NewSetCmd(c.header), SetBodyBytes(c) + rest) == Success(c)
  {
    var h := c.header;
    Pow256Widths();
    var xb: Bytes := if h.extrasLen > 0 then ToBigEndian(c.flags, 4) + ToBigEndian(c.expiration, 4) else [];
    var kvr := c.key + c.value + rest;
    assert SetBodyBytes(c) + rest == xb + kvr;
    ConcatHalves(xb, kvr);
    if h.extrasLen > 0 {
      var b := xb + kvr;
      assert b[..4] == ToBigEndian(c.flags, 4);
      assert b[4..8] == ToBigEndian(c.expiration, 4);
      BigEndianOfToBigEndian(c.flags, 4);
      BigEndianOfToBigEndian(c.expiration, 4);
    }
    ParseKeyValueRoundTrip(c.key, c.value, ValueLen(h), rest);
  }

  /** With the 8 extras bytes the protocol prescribes and a BodyLen that covers
      extras and key, Decode consumes exactly BodyLen bytes. */
  lemma SetBodySizeIsBodyLen(h: RequestHeader)
    requires h.extrasLen == 8 && h.bodyLen >= h.keyLen + 8
    ensures SetBodySize(h) == h.bodyLen
  {
  }

  /** With 1 to 7 extras bytes declared Decode still reads 8, so it consumes
      8 - ExtrasLen bytes more than BodyLen when a value follows. */
  lemma SetShortExtrasOverread(h: RequestHeader)
    requires 0 < h.extrasLen < 8 && ValueLen(h) > 0
    ensures SetBodySize(h) == h.bodyLen + 8 - h.extrasLen
  {
  }

  /** A fresh Set that decodes holds a key of exactly KeyLen bytes and a value
      of BodyLen - KeyLen - ExtrasLen bytes when that is positive, none otherwise. */
  lemma DecodedSetLengths(h: RequestHeader, b: Bytes)
    requires ParseSetBody(NewSetCmd(h), b).Success?
    ensures var c := ParseSetBody(NewSetCmd(h), b).value;
      && |c.key| == h.keyLen
      && |c.value| == ValueBytesRead(h)
      && (ValueLen(h) > 0 ==> c.value == b[ExtrasBytesRead(h) + h.keyLen..SetBodySize(h)])
  {
  }

  /** A freshly created Set that decodes is accepted exactly when ExtrasLen and
      KeyLen are positive and BodyLen leaves value bytes. */
  lemma DecodedSetValidIff(h: RequestHeader, b: Bytes)
    requires ParseSetBody(NewSetCmd(h), b).Success?
    ensures (IsValid(ParseSetBody(NewSetCmd(h), b).value) == Accept)
              <==> h.extrasLen > 0 && h.keyLen > 0 && ValueLen(h) > 0
  {
  }
}
