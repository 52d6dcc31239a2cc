/** The older Execute methods of GetCmd and SetCmd (server/request.go), which use
    the plain store's interface: Get returns a value and a found flag, Set takes
    only a key and a value. Their Decode and IsValid are the ones of
    GetCommands and SetCommands. */
module LegacyCommands {

  import opened Wrappers
  import opened Errors
  import opened ByteOrder
  import opened Header
  import opened Responses
  import GetCommands
  import SetCommands
  import ProtoStore

  /** `make([]byte, 4)`: the four zero extras bytes of a Get reply. */
  const ZeroFlags: Bytes := [0, 0, 0, 0]

  /** The response the older GetCmd.Execute builds: the stored value, or nothing
      when the key is missing (the lookup result is only logged), four zero
      extras bytes, status and cas left at zero, then fillHeader. */
  function GetReply(kv: map<Bytes, Bytes>, c: GetCommands.GetCmd): (rsp: Response)
    ensures c.key in kv ==> rsp.value == kv[c.key]
    ensures c.key !in kv ==> rsp.value == []
    ensures rsp.extras == ZeroFlags && rsp.key == []
    ensures rsp.header.status == StatusNoError && rsp.header.cas == 0
    ensures rsp.header.magic == MagicCodeResponse
    ensures rsp.header.opcode == c.header.opcode && rsp.header.opaqueToken == c.header.opaqueToken
    ensures rsp.header.keyLen == 0 && rsp.header.extrasLen == 4
    ensures 4 + |rsp.value| < Mod32 ==> rsp.header.bodyLen == 4 + |rsp.value|
  {
    var (v, _) := ProtoStore.Lookup(kv, c.key);
    FillHeader(EmptyResponse.(value := v, extras := ZeroFlags), c.header)
  }

  /** The older GetCmd.Execute: a lookup that never fails and never changes the store. */
  method GetExecute(ds: ProtoStore.DataStore, c: GetCommands.GetCmd) returns (res: Result<Response, Error>)
    ensures res == Success(GetReply(ds.kv, c))
  {
    var rsp := EmptyResponse;
    var v, found := ds.Get(c.key);
    rsp := rsp.(value := v);
    rsp := rsp.(extras := ZeroFlags);
    rsp := FillHeader(rsp, c.header);
    return Success(rsp);
  }

  /** A missing key and a key holding the empty value get the same reply: the
      older Get reports no miss to the client. */
  lemma GetMissIsEmptyHit(kv: map<Bytes, Bytes>, c: GetCommands.GetCmd)
    requires c.key !in kv
    ensures GetReply(kv, c) == GetReply(kv[c.key := []], c)
  {
  }

  /** The reply to a Get issued after a Set of the same key carries the value set. */
  lemma GetAfterSet(kv: map<Bytes, Bytes>, s: SetCommands.SetCmd, g: GetCommands.GetCmd)
    requires g.key == s.key
    ensures GetReply(kv[s.key := s.value], g).value == s.value
  {
  }

  /** The response the older SetCmd.Execute builds: an empty response, filled
      from the request header. */
  function SetReply(c: SetCommands.SetCmd): (rsp: Response)
    ensures rsp.extras == [] && rsp.key == [] && rsp.value == []
    ensures rsp.header.status == StatusNoError && rsp.header.cas == 0
    ensures rsp.header.magic == MagicCodeResponse
    ensures rsp.header.opcode == c.header.opcode && rsp.header.opaqueToken == c.header.opaqueToken
    ensures rsp.header.keyLen == 0 && rsp.header.extrasLen == 0 && rsp.header.bodyLen == 0
  {
    FillHeader(EmptyResponse, c.header)
  }

  /** The older SetCmd.Execute: an unconditional overwrite of the key (flags,
      expiration and cas are not passed on), then the empty reply. */
  method SetExecute(ds: ProtoStore.DataStore, c: SetCommands.SetCmd) returns (res: Result<Response, Error>)
    modifies ds
    ensures ds.kv == old(ds.kv)[c.key := c.value]
    ensures res == Success(SetReply(c))
  {
    var err := ds.Set(c.key, c.value);
    var rsp := FillHeader(EmptyResponse, c.header);
    return Success(rsp);
  }
}
