/** The Get command (server/get_commands.go): its body decoder, its validity
    predicate and its execution against the store. */
module GetCommands {

  import opened Wrappers
  import opened Errors
  import opened ByteOrder
  import opened Stream
  import opened Header
  import opened Responses
  import opened Store

  /** A Get request: the header it came with and the body fields Decode fills. */
  datatype GetCmd = GetCmd(header: RequestHeader, flags: uint32, key: Bytes, value: Bytes)

  /** `&GetCmd{Header: hdr}`: the command getCommand creates, body fields zero. */
  function NewGetCmd(h: RequestHeader): (c: GetCmd)
    ensures c.header == h && c.flags == 0 && c.key == [] && c.value == []
  {
    GetCmd(h, 0, [], [])
  }

  /** Flags are a single uint32 read whenever ExtrasLen is positive, whatever its value. */
  function FlagsBytesRead(h: RequestHeader): nat
  {
    if h.extrasLen > 0 then 4 else 0
  }

  /** How many body bytes Decode reads when the stream holds enough. */
  function GetBodySize(h: RequestHeader): nat
  {
    FlagsBytesRead(h) + KeyValueSize(h.keyLen, ValueLen(h))
  }

  /** The command Decode leaves behind given the bytes left on the stream: flags
      from the first four bytes when ExtrasLen > 0, then KeyLen bytes of key, then
      the positive remainder of BodyLen as value; a field not read keeps its value. */
  function ParseGetBody(c: GetCmd, b: Bytes): Result<GetCmd, Error>
  {
    var h := c.header;
    var fl := FlagsBytesRead(h);
    if |b| < fl then Failure(ShortRead)
    else
      match ParseKeyValue(b[fl..], h.keyLen, ValueLen(h), c.key, c.value)
      case Failure(e) => Failure(e)
      case Success(kv) =>
        Success(c.(flags := if fl > 0 then Uint32Of(b[..4]) else c.flags, key := kv.0, value := kv.1))
  }

  /** GetCmd.Decode: reads flags, key and value in that order, stopping at the
      first one the stream is too short for. */
  method Decode(c: GetCmd, r: Reader) returns (res: Result<GetCmd, Error>)
    requires r.Valid()
    modifies r
    ensures r.Valid()
    ensures res == ParseGetBody(c, old(r.Rest()))
    ensures r.pos == old(r.pos) + (if res.Success? then GetBodySize(c.header) else |old(r.Rest())|)
  {
    ghost var rest0 := r.Rest();
    var hdr := c.header;
    var flags := c.flags;
    if hdr.extrasLen > 0 {
      var f := r.ReadFull(4);
      if f.Failure? {
        return Failure(f.error);
      }
      flags := Uint32Of(f.value);
    }
    assert r.Rest() == rest0[FlagsBytesRead(hdr)..];
    var kv := r.ReadKeyValue(hdr.keyLen, ValueLen(hdr), c.key, c.value);
    if kv.Failure? {
      return Failure(kv.error);
    }
    return Success(c.(flags := flags, key := kv.value.0, value := kv.value.1));
  }

  /** GetCmd.IsValid: the first rule a Get breaks, or acceptance. */
  function IsValid(c: GetCmd): (v: Verdict)
    ensures v == Accept <==> c.header.extrasLen == 0 && c.header.keyLen > 0 && |c.key| > 0 && |c.value| == 0
    ensures c.header.extrasLen > 0 ==> v == Reject("extras fields empty")
  {
    if c.header.extrasLen > 0 then Reject("extras fields empty")
    else if c.header.keyLen <= 0 then Reject("key len 0")
    else if |c.key| == 0 then Reject("missing key")
    else if |c.value| > 0 then Reject("non-empty value")
    else Accept
  }

  /** The value of the reply to a Get for a missing key: "Item not found" in ASCII. */
  const ItemNotFound: Bytes := [0x49, 0x74, 0x65, 0x6d, 0x20, 0x6e, 0x6f, 0x74,
                                0x20, 0x66, 0x6f, 0x75, 0x6e, 0x64]

  /** The response Execute builds, given the table: the item's value, flags and
      cas when the key is present, status KeyNotFound and the text "Item not
      found" when it is not; then fillHeader from the request header. */
  function Reply(kv: map<Bytes, Item>, c: GetCmd): (rsp: Response)
    ensures c.key in kv ==> && rsp.header.status == StatusNoError
                            && rsp.value == kv[c.key].value
                            && rsp.flags == kv[c.key].flags
                            && rsp.header.cas == kv[c.key].cas
    ensures c.key !in kv ==> && rsp.header.status == StatusKeyError
                             && rsp.value == ItemNotFound
                             && rsp.header.cas == 0
    ensures rsp.extras == [] && rsp.key == []
    ensures rsp.header.magic == MagicCodeResponse
    ensures rsp.header.opcode == c.header.opcode && rsp.header.opaqueToken == c.header.opaqueToken
    ensures rsp.header.keyLen == 0 && rsp.header.extrasLen == 0
    ensures |rsp.value| < Mod32 ==> rsp.header.bodyLen == |rsp.value|
  {
    var base :=
      if c.key in kv then
        var it := kv[c.key];
        EmptyResponse.(value := it.value, flags := it.flags,
                       header := EmptyResponse.header.(cas := it.cas))
      else
        EmptyResponse.(value := ItemNotFound,
                       header := EmptyResponse.header.(status := StatusKeyError));
    FillHeader(base, c.header)
  }

  /** GetCmd.Execute: a lookup, then the response; it never fails and, having no
      modifies clause, leaves the store as it was. */
  method Execute(ds: DataStore, c: GetCmd) returns (res: Result<Response, Error>)
    ensures res == Success(Reply(ds.kv, c))
  {
    var rsp := EmptyResponse;
    var item, found := ds.Get(c.key);
    if !found {
      rsp := rsp.(header := rsp.header.(status := StatusKeyError));
      rsp := rsp.(value := ItemNotFound);
    } else {
      rsp := rsp.(value := item.value.value);
      rsp := rsp.(flags := item.value.flags);
      rsp := rsp.(header := rsp.header.(cas := item.value.cas));
    }
    rsp := FillHeader(rsp, c.header);
    return Success(rsp);
  }

  /** What a client sends as the body of a Get whose header agrees with it. */
  function GetBodyBytes(c: GetCmd): Bytes
  {
    (if c.header.extrasLen > 0 then ToBigEndian(c.flags, 4) else []) + c.key + c.value
  }

  /** The header's lengths describe the body fields, and fields without bytes are zero. */
  predicate WellFormed(c: GetCmd)
  {
    && |c.key| == c.header.keyLen
    && |c.value| == ValueBytesRead(c.header)
    && (c.header.extrasLen == 0 ==> c.flags == 0)
  }

  /** Decoding a well-formed Get's body, whatever follows it, into a fresh command
      recovers the command and consumes exactly the body. */
  lemma GetBodyRoundTrip(c: GetCmd, rest: Bytes)
    requires WellFormed(c)
    ensures |GetBodyBytes(c)| == GetBodySize(c.header)
    ensures ParseGetBody(NewGetCmd(c.header), GetBodyBytes(c) + rest) == Success(c)
  {
    var h := c.header;
    Pow256Widths();
    var fb: Bytes := if h.extrasLen > 0 then ToBigEndian(c.flags, 4) else [];
    var kvr := c.key + c.value + rest;
    assert GetBodyBytes(c) + rest == fb + kvr;
    ConcatHalves(fb, kvr);
    if h.extrasLen > 0 {
      assert (fb + kvr)[..4] == fb;
      BigEndianOfToBigEndian(c.flags, 4);
    }
    ParseKeyValueRoundTrip(c.key, c.value, ValueLen(h), rest);
  }

  /** A fresh Get that decodes holds a key of exactly KeyLen bytes and a value
      of BodyLen - KeyLen - ExtrasLen bytes when that is positive, none otherwise. */
  lemma DecodedGetLengths(h: RequestHeader, b: Bytes)
    requires ParseGetBody(NewGetCmd(h), b).Success?
    ensures var c := ParseGetBody(NewGetCmd(h), b).value;
      && |c.key| == h.keyLen
      && |c.value| == ValueBytesRead(h)
      && (ValueLen(h) > 0 ==> c.value == b[FlagsBytesRead(h) + h.keyLen..GetBodySize(h)])
  {
  }

  /** A freshly created Get that decodes is accepted exactly when ExtrasLen is 0,
      KeyLen is positive and BodyLen leaves no value bytes. */
  lemma DecodedGetValidIff(h: RequestHeader, b: Bytes)
    requires ParseGetBody(NewGetCmd(h), b).Success?
    ensures (IsValid(ParseGetBody(NewGetCmd(h), b).value) == Accept)
              <==> h.extrasLen == 0 && h.keyLen > 0 && ValueLen(h) <= 0
  {
  }

  /** The key "Hello" in ASCII. */
  const Hello: Bytes := [0x48, 0x65, 0x6c, 0x6c, 0x6f]

  /** The header bytes of the request in server/request_test.go. */
  const HelloHeader: Bytes := [0x80, 0x00, 0x00, 0x05, 0x00, 0x00, 0x00, 0x00,
                               0x00, 0x00, 0x00, 0x05, 0x00, 0x00, 0x00, 0x00,
                               0x00, 0x00, 0x00, 0x00, 0x00, 0x00, 0x00, 0x00]

  /** The body of the request in server/request_test.go is just its key. */
  lemma HelloBody(h: RequestHeader)
    requires h == RequestHeader(MagicCodeRequest, CmdGet, 5, 0, 0, 0, 5, 0, 0)
    ensures (HelloHeader + Hello)[HeaderSize..] == GetBodyBytes(GetCmd(h, 0, Hello, [])) + []
    ensures WellFormed(GetCmd(h, 0, Hello, []))
  {
    assert GetBodyBytes(GetCmd(h, 0, Hello, [])) == [] + Hello + [];
  }

  /** The request of server/request_test.go: a Get with key "Hello" decodes to
      that key with no flags and no value, and is accepted. */
  lemma HelloRequest()
    ensures ParseRequestHeader(HelloHeader + Hello)
              == Success(RequestHeader(MagicCodeRequest, CmdGet, 5, 0, 0, 0, 5, 0, 0))
    ensures var h := RequestHeader(MagicCodeRequest, CmdGet, 5, 0, 0, 0, 5, 0, 0);
      && ParseGetBody(NewGetCmd(h), (HelloHeader + Hello)[HeaderSize..])
           == Success(GetCmd(h, 0, Hello, []))
      && IsValid(GetCmd(h, 0, Hello, [])) == Accept
  {
    var h := RequestHeader(MagicCodeRequest, CmdGet, 5, 0, 0, 0, 5, 0, 0);
    TestVector();
    ParseRequestHeaderPrefix(HelloHeader, Hello);
    HelloBody(h);
    GetBodyRoundTrip(GetCmd(h, 0, Hello, []), []);
  }
}
