/** The request dispatcher of the server (server/server.go): opcode dispatch
    and the fixed step sequence of handleCommand, without sockets. */
module MemcacheServer {

  import opened Wrappers
  import opened Errors
  import opened ByteOrder
  import opened Stream
  import opened Header
  import opened Responses
  import opened Store
  import GetCommands
  import SetCommands

  /** The commands the server knows, each with its own body fields. */
  datatype Command = GetCommand(getCmd: GetCommands.GetCmd) | SetCommand(setCmd: SetCommands.SetCmd)

  /** getCommand: opcode 0x00 is a Get, 0x01 a Set, both created with empty body
      fields; any other opcode is an error. */
  function CommandFor(h: RequestHeader): (res: Result<Command, Error>)
    ensures res.Success? <==> h.opcode == CmdGet || h.opcode == CmdSet
    ensures h.opcode == CmdGet ==> res == Success(GetCommand(GetCommands.NewGetCmd(h)))
    ensures h.opcode == CmdSet ==> res == Success(SetCommand(SetCommands.NewSetCmd(h)))
    ensures res.Failure? ==> res.error == InvalidCommand
  {
    if h.opcode == CmdGet then Success(GetCommand(GetCommands.GetCmd(h, 0, [], [])))
    else if h.opcode == CmdSet then Success(SetCommand(SetCommands.SetCmd(h, 0, 0, [], [])))
    else Failure(InvalidCommand)
  }

  /** The body bytes the command's decoder reads. */
  function BodySize(cmd: Command): nat
  {
    match cmd
    case GetCommand(g) => GetCommands.GetBodySize(g.header)
    case SetCommand(s) => SetCommands.SetBodySize(s.header)
  }

  /** The command's decoder applied to the bytes after the header. */
  function ParseBody(cmd: Command, b: Bytes): Result<Command, Error>
  {
    match cmd
    case GetCommand(g) =>
      (match GetCommands.ParseGetBody(g, b)
       case Success(g') => Success(GetCommand(g'))
       case Failure(e) => Failure(e))
    case SetCommand(s) =>
      (match SetCommands.ParseSetBody(s, b)
       case Success(s') => Success(SetCommand(s'))
       case Failure(e) => Failure(e))
  }

  function Validate(cmd: Command): Verdict
  {
    match cmd
    case GetCommand(g) => GetCommands.IsValid(g)
    case SetCommand(s) => SetCommands.IsValid(s)
  }

  /** What handling one request leads to: the reply (an error closes the
      connection), the table afterwards and how many input bytes were consumed. */
  datatype Outcome = Outcome(reply: Result<Response, Error>, store: map<Bytes, Item>, consumed: nat)

  /** handleCommand as a function of the table and the bytes left on the stream:
      read the header, resolve the command, decode its body, validate it and
      execute it, each step ending the request with an error when it fails. */
  function Handle(kv: map<Bytes, Item>, input: Bytes): (o: Outcome)
    ensures o.consumed <= |input|
  {
    match ParseRequestHeader(input)
    case Failure(e) => Outcome(Failure(e), kv, |input|)
    case Success(h) =>
      match CommandFor(h)
      case Failure(e) => Outcome(Failure(e), kv, HeaderSize)
      case Success(cmd) =>
        match ParseBody(cmd, input[HeaderSize..])
        case Failure(e) => Outcome(Failure(e), kv, |input|)
        case Success(cmd') =>
          var used := HeaderSize + BodySize(cmd);
          match Validate(cmd')
          case Reject(reason) => Outcome(Failure(InvalidRequest(reason)), kv, used)
          case Accept =>
            match cmd'
            case GetCommand(g) => Outcome(Success(GetCommands.Reply(kv, g)), kv, used)
            case SetCommand(s) =>
              Outcome(SetCommands.Reply(kv, s),
                      StoreAfterSet(kv, s.key, s.value, s.flags, s.expiration, s.header.cas), used)
  }

  class Server {
    const ds: DataStore

    /** New: a server over an empty store. */
    constructor ()
      ensures fresh(ds) && ds.kv == map[]
    {
      ds := new DataStore();
    }

    /** handleCommand: serves the next request on the stream. */
    method HandleCommand(r: Reader) returns (res: Result<Response, Error>)
      requires r.Valid()
      modifies r, ds
      ensures r.Valid()
      ensures var o := Handle(old(ds.kv), old(r.Rest()));
        res == o.reply && ds.kv == o.store && r.pos == old(r.pos) + o.consumed
    {
      ghost var input := r.Rest();
      var hdr := DecodeRequestHeader(r);
      if hdr.Failure? {
        return Failure(hdr.error);
      }
      assert r.Rest() == input[HeaderSize..];
      var cmd := CommandFor(hdr.value);
      if cmd.Failure? {
        return Failure(cmd.error);
      }
      var decoded: Result<Command, Error>;
      match cmd.value {
        case GetCommand(g) =>
          var d := GetCommands.Decode(g, r);
          decoded := if d.Success? then Success(GetCommand(d.value)) else Failure(d.error);
        case SetCommand(s) =>
          var d := SetCommands.Decode(s, r);
          decoded := if d.Success? then Success(SetCommand(d.value)) else Failure(d.error);
      }
      if decoded.Failure? {
        return Failure(decoded.error);
      }
      var verdict := Validate(decoded.value);
      if verdict.Reject? {
        return Failure(InvalidRequest(verdict.reason));
      }
      match decoded.value {
        case GetCommand(g) =>
          res := GetCommands.Execute(ds, g);
        case SetCommand(s) =>
          res := SetCommands.Execute(ds, s);
      }
    }
  }

  /** A stream too short for a header ends the request with an error, consuming
      what is left and reading nothing more. */
  lemma HandleShortHeader(kv: map<Bytes, Item>, input: Bytes)
    requires |input| < HeaderSize
    ensures Handle(kv, input) == Outcome(Failure(ShortRead), kv, |input|)
  {
  }

  /** An unknown opcode ends the request with an error before any body byte is read. */
  lemma HandleUnknownOpcode(kv: map<Bytes, Item>, input: Bytes)
    requires ParseRequestHeader(input).Success?
    requires ParseRequestHeader(input).value.opcode !in {CmdGet, CmdSet}
    ensures Handle(kv, input) == Outcome(Failure(InvalidCommand), kv, HeaderSize)
  {
  }

  /** Every error leaves the table as it was. */
  lemma HandleErrorKeepsStore(kv: map<Bytes, Item>, input: Bytes)
    ensures Handle(kv, input).reply.Failure? ==> Handle(kv, input).store == kv
  {
  }

  /** The table changes only through a Set that passed validation. */
  lemma HandleStoreChangesOnlyBySet(kv: map<Bytes, Item>, input: Bytes)
    ensures Handle(kv, input).store != kv ==>
      && ParseRequestHeader(input).Success?
      && ParseRequestHeader(input).value.opcode == CmdSet
      && Handle(kv, input).reply.Success?
  {
  }

  /** A body the command's decoder cannot read ends the request with the
      decoder's error before validation: the rest of the stream is consumed and
      the table is left as it was. */
  lemma HandleBodyError(kv: map<Bytes, Item>, input: Bytes, h: RequestHeader, cmd: Command)
    requires ParseRequestHeader(input) == Success(h)
    requires CommandFor(h) == Success(cmd)
    requires ParseBody(cmd, input[HeaderSize..]).Failure?
    ensures Handle(kv, input) == Outcome(Failure(ParseBody(cmd, input[HeaderSize..]).error), kv, |input|)
    ensures Handle(kv, input).reply == Failure(ShortRead)
  {
  }

  /** A command that decodes but fails validation yields the rule it broke as the
      error, consumes its body and leaves the table as it was. */
  lemma HandleInvalid(kv: map<Bytes, Item>, input: Bytes, h: RequestHeader, cmd: Command, reason: string)
    requires ParseRequestHeader(input) == Success(h)
    requires CommandFor(h) == Success(cmd)
    requires ParseBody(cmd, input[HeaderSize..]).Success?
    requires Validate(ParseBody(cmd, input[HeaderSize..]).value) == Reject(reason)
    ensures Handle(kv, input) == Outcome(Failure(InvalidRequest(reason)), kv, HeaderSize + BodySize(cmd))
  {
  }

  /** Every response the server sends is marked as a response and echoes the
      request's Opcode and Opaque. */
  lemma HandleReplyEchoes(kv: map<Bytes, Item>, input: Bytes)
    requires Handle(kv, input).reply.Success?
    ensures ParseRequestHeader(input).Success?
    ensures var h := ParseRequestHeader(input).value;
            var rsp := Handle(kv, input).reply.value;
      && rsp.header.magic == MagicCodeResponse
      && rsp.header.opcode == h.opcode && rsp.header.opaqueToken == h.opaqueToken
  {
  }

  /** The header of a well-formed Set request from a client. */
  function SetRequestHeader(key: Bytes, value: Bytes, cas: uint64, opaqueToken: uint32): RequestHeader
    requires |key| < 0x1_0000 && 8 + |key| + |value| < 0x1_0000_0000
  {
    RequestHeader(MagicCodeRequest, CmdSet, |key|, 8, 0, 0, 8 + |key| + |value|, opaqueToken, cas)
  }

  /** The header of a well-formed Get request from a client. */
  function GetRequestHeader(key: Bytes, opaqueToken: uint32): RequestHeader
    requires |key| < 0x1_0000
  {
    RequestHeader(MagicCodeRequest, CmdGet, |key|, 0, 0, 0, |key|, opaqueToken, 0)
  }

  /** A client's Set request: header, Flags, Expiration, key and value. */
  function SetRequest(key: Bytes, value: Bytes, flags: uint32, expiry: uint32, cas: uint64, opaqueToken: uint32): Bytes
    requires |key| < 0x1_0000 && 8 + |key| + |value| < 0x1_0000_0000
  {
    var h := SetRequestHeader(key, value, cas, opaqueToken);
    RequestHeaderBytes(h) + SetCommands.SetBodyBytes(SetCommands.SetCmd(h, flags, expiry, key, value))
  }

  /** A client's Get request: header and key. */
  function GetRequest(key: Bytes, opaqueToken: uint32): Bytes
    requires |key| < 0x1_0000
  {
    var h := GetRequestHeader(key, opaqueToken);
    RequestHeaderBytes(h) + GetCommands.GetBodyBytes(GetCommands.GetCmd(h, 0, key, []))
  }

  /** A well-formed Set request, whatever follows it, is consumed exactly and
      executed: the store's set with the request's fields, and its reply. */
  lemma HandleSetRequest(kv: map<Bytes, Item>, key: Bytes, value: Bytes, flags: uint32, expiry: uint32,
                         cas: uint64, opaqueToken: uint32, rest: Bytes)
    requires 0 < |key| < 0x1_0000 && 0 < |value| && 8 + |key| + |value| < 0x1_0000_0000
    ensures var h := SetRequestHeader(key, value, cas, opaqueToken);
      Handle(kv, SetRequest(key, value, flags, expiry, cas, opaqueToken) + rest)
        == Outcome(SetCommands.Reply(kv, SetCommands.SetCmd(h, flags, expiry, key, value)),
                   StoreAfterSet(kv, key, value, flags, expiry, cas),
                   |SetRequest(key, value, flags, expiry, cas, opaqueToken)|)
  {
    var h := SetRequestHeader(key, value, cas, opaqueToken);
    var c := SetCommands.SetCmd(h, flags, expiry, key, value);
    var body := SetCommands.SetBodyBytes(c);
    var input := SetRequest(key, value, flags, expiry, cas, opaqueToken) + rest;
    RequestHeaderRoundTrip(h, body + rest);
    assert input == RequestHeaderBytes(h) + (body + rest);
    assert input[HeaderSize..] == body + rest;
    SetCommands.SetBodyRoundTrip(c, rest);
  }

  /** A well-formed Get request, whatever follows it, is consumed exactly and
      answered from the table, which it leaves as it was. */
  lemma HandleGetRequest(kv: map<Bytes, Item>, key: Bytes, opaqueToken: uint32, rest: Bytes)
    requires 0 < |key| < 0x1_0000
    ensures var h := GetRequestHeader(key, opaqueToken);
      Handle(kv, GetRequest(key, opaqueToken) + rest)
        == Outcome(Success(GetCommands.Reply(kv, GetCommands.GetCmd(h, 0, key, []))), kv, HeaderSize + |key|)
  {
    var h := GetRequestHeader(key, opaqueToken);
    var c := GetCommands.GetCmd(h, 0, key, []);
    var body := GetCommands.GetBodyBytes(c);
    var input := GetRequest(key, opaqueToken) + rest;
    RequestHeaderRoundTrip(h, body + rest);
    assert input == RequestHeaderBytes(h) + (body + rest);
    assert input[HeaderSize..] == body + rest;
    GetCommands.GetBodyRoundTrip(c, rest);
  }

  /** Over the wire, a Set request succeeds exactly when the store accepts it;
      its reply then has status NoError, no body and cas 0, and the table is the
      store's new table. */
  lemma SetRequestOutcome(kv: map<Bytes, Item>, key: Bytes, value: Bytes, flags: uint32, expiry: uint32,
                          cas: uint64, opaqueToken: uint32)
    requires 0 < |key| < 0x1_0000 && 0 < |value| && 8 + |key| + |value| < 0x1_0000_0000
    ensures var o := Handle(kv, SetRequest(key, value, flags, expiry, cas, opaqueToken));
      && (o.reply.Success? <==> ApplySet(kv, key, value, flags, expiry, cas).Success?)
      && (o.reply.Failure? ==> o.reply.error == ApplySet(kv, key, value, flags, expiry, cas).error)
      && (o.reply.Success? ==> o.reply.value.header.status == StatusNoError && o.reply.value.header.cas == 0
                               && o.reply.value.header.bodyLen == 0)
      && o.store == StoreAfterSet(kv, key, value, flags, expiry, cas)
  {
    HandleSetRequest(kv, key, value, flags, expiry, cas, opaqueToken, []);
    assert SetRequest(key, value, flags, expiry, cas, opaqueToken) + []
        == SetRequest(key, value, flags, expiry, cas, opaqueToken);
  }

  /** Over the wire, a Get request for a stored key answers with the item's value,
      flags and cas, and leaves the table as it was. */
  lemma GetRequestOutcome(kv: map<Bytes, Item>, key: Bytes, opaqueToken: uint32)
    requires 0 < |key| < 0x1_0000 && key in kv
    ensures var o := Handle(kv, GetRequest(key, opaqueToken));
      && o.reply.Success? && o.reply.value.header.status == StatusNoError
      && o.reply.value.value == kv[key].value && o.reply.value.flags == kv[key].flags
      && o.reply.value.header.cas == kv[key].cas
      && o.store == kv
  {
    HandleGetRequest(kv, key, opaqueToken, []);
    assert GetRequest(key, opaqueToken) + [] == GetRequest(key, opaqueToken);
  }

  /** A client session on one key: Set "bar" (cas 0), Get, Set "baz" with the cas
      the Get returned, then Set "qux" with that stale cas. The first Set's reply
      carries cas 0, because Execute never copies the new cas into the response. */
  lemma CasSessionOverTheWire(kv: map<Bytes, Item>, key: Bytes, bar: Bytes, baz: Bytes, qux: Bytes)
    requires key !in kv
    requires 0 < |key| < 0x100 && 0 < |bar| < 0x100 && 0 < |baz| < 0x100 && 0 < |qux| < 0x100
    ensures var o1 := Handle(kv, SetRequest(key, bar, 0, 0, 0, 1));
      && o1.reply.Success? && o1.reply.value.header.status == StatusNoError
      && o1.reply.value.header.cas == 0
      && var o2 := Handle(o1.store, GetRequest(key, 2));
      && o2.reply.Success? && o2.reply.value.header.status == StatusNoError
      && o2.reply.value.value == bar && o2.reply.value.flags == 0 && o2.reply.value.header.cas == 1
      && var o3 := Handle(o2.store, SetRequest(key, baz, 0, 0, 1, 3));
      && o3.reply.Success? && key in o3.store && o3.store[key].cas == 2
      && var o4 := Handle(o3.store, SetRequest(key, qux, 0, 0, 1, 4));
      && o4.reply == Failure(CasMismatch) && key in o4.store && o4.store[key].value == baz
  {
    CasSession(kv, key, bar, baz, qux);
    SetRequestOutcome(kv, key, bar, 0, 0, 0, 1);
    var kv1 := StoreAfterSet(kv, key, bar, 0, 0, 0);
    GetRequestOutcome(kv1, key, 2);
    SetRequestOutcome(kv1, key, baz, 0, 0, 1, 3);
    var kv3 := StoreAfterSet(kv1, key, baz, 0, 0, 1);
    SetRequestOutcome(kv3, key, qux, 0, 0, 1, 4);
  }
}
