/** The byte stream a connection reads requests from and writes responses to
    (an `io.Reader` / `io.Writer`), with the framing helpers both directions share. */
module Stream {

  import opened Wrappers
  import opened Errors
  import opened ByteOrder

  /** Total of a list of field widths. */
  function Sum(ws: seq<nat>): nat
  {
    if ws == [] then 0 else Sum(ws[..|ws| - 1]) + ws[|ws| - 1]
  }

  /** Concatenation of the chunks, in order: what a sequence of writes puts on the wire. */
  function Flatten(cs: seq<Bytes>): Bytes
  {
    if cs == [] then [] else Flatten(cs[..|cs| - 1]) + cs[|cs| - 1]
  }

  function Lengths(cs: seq<Bytes>): seq<nat>
  {
    seq(|cs|, j requires 0 <= j < |cs| => |cs[j]|)
  }

  /** The consecutive fields of widths ws cut from the front of b. */
  function SplitFields(b: Bytes, ws: seq<nat>): (cs: seq<Bytes>)
    requires Sum(ws) <= |b|
    ensures |cs| == |ws|
    ensures forall j :: 0 <= j < |ws| ==> |cs[j]| == ws[j]
  {
    if ws == [] then []
    else
      var init := ws[..|ws| - 1];
      SplitFields(b, init) + [b[Sum(init)..Sum(ws)]]
  }

  /** The segments of a response body that are actually written: the empty ones are skipped. */
  function NonEmptySegments(extras: Bytes, key: Bytes, value: Bytes): seq<Bytes>
  {
    (if |extras| > 0 then [extras] else [])
    + (if |key| > 0 then [key] else [])
    + (if |value| > 0 then [value] else [])
  }

  lemma {:induction false} SumPrefix(ws: seq<nat>, k: nat)
    requires k <= |ws|
    ensures Sum(ws[..k]) <= Sum(ws)
  {
    if k < |ws| {
      assert ws[..|ws| - 1][..k] == ws[..k];
      SumPrefix(ws[..|ws| - 1], k);
    } else {
      assert ws[..k] == ws;
    }
  }

  /** Field j of a split lies between the sums of the widths before it and through it. */
  lemma {:induction false} SplitFieldAt(b: Bytes, ws: seq<nat>, j: nat)
    requires Sum(ws) <= |b| && j < |ws|
    ensures Sum(ws[..j]) <= Sum(ws[..j + 1]) <= |b|
    ensures SplitFields(b, ws)[j] == b[Sum(ws[..j])..Sum(ws[..j + 1])]
  {
    var init := ws[..|ws| - 1];
    if j < |ws| - 1 {
      assert init[..j] == ws[..j] && init[..j + 1] == ws[..j + 1];
      SumPrefix(ws, |ws| - 1);
      SplitFieldAt(b, init, j);
    } else {
      assert ws[..j + 1] == ws;
    }
  }

  /** Cutting n bytes off the suffix of b that starts at i. */
  lemma SuffixSlices(b: Bytes, i: nat, n: nat)
    requires i + n <= |b|
    ensures b[i..][..n] == b[i..i + n]
    ensures b[i..][n..] == b[i + n..]
  {
  }

  /** Body bytes the key-and-value reads take: the key, then the value length
      when it is positive. */
  function KeyValueSize(keyLen: nat, valueLen: int): nat
  {
    keyLen + (if valueLen > 0 then valueLen else 0)
  }

  /** The key and value cut from the front of b: keyLen bytes of key when keyLen
      is positive, then valueLen bytes of value when valueLen is positive; a
      segment not read keeps its previous contents. */
  function ParseKeyValue(b: Bytes, keyLen: nat, valueLen: int, key0: Bytes, value0: Bytes)
    : Result<(Bytes, Bytes), Error>
  {
    if |b| < KeyValueSize(keyLen, valueLen) then Failure(ShortRead)
    else Success((if keyLen > 0 then b[..keyLen] else key0,
                  if valueLen > 0 then b[keyLen..keyLen + valueLen] else value0))
  }

  /** Decoding a key and value laid out one after the other, whatever follows
      them, recovers both; an empty segment is one that is not read. */
  lemma ParseKeyValueRoundTrip(key: Bytes, value: Bytes, valueLen: int, rest: Bytes)
    requires |value| == KeyValueSize(0, valueLen)
    ensures ParseKeyValue(key + value + rest, |key|, valueLen, [], []) == Success((key, value))
  {
    var b := key + value + rest;
    assert b[..|key|] == key;
    assert b[|key|..|key| + |value|] == value;
  }

  /** The two halves of a concatenation. */
  lemma ConcatHalves(a: Bytes, t: Bytes)
    ensures (a + t)[..|a|] == a && (a + t)[|a|..] == t
  {
  }

  /** Regrouping a header written after earlier output and followed by three segments. */
  lemma AppendAssoc(o: Bytes, h: Bytes, e: Bytes, k: Bytes, v: Bytes)
    ensures o + h + e + k + v == o + (h + (e + k + v))
  {
  }

  /** Fields cut from the front of b do not depend on what follows b. */
  lemma {:induction false} SplitFieldsPrefix(b: Bytes, rest: Bytes, ws: seq<nat>)
    requires Sum(ws) <= |b|
    ensures Sum(ws) <= |b + rest|
    ensures SplitFields(b + rest, ws) == SplitFields(b, ws)
  {
    if ws != [] {
      var init := ws[..|ws| - 1];
      SumPrefix(ws, |ws| - 1);
      SplitFieldsPrefix(b, rest, init);
      assert (b + rest)[Sum(init)..Sum(ws)] == b[Sum(init)..Sum(ws)];
    }
  }

  lemma {:induction false} FlattenAppend(a: seq<Bytes>, b: seq<Bytes>)
    ensures Flatten(a + b) == Flatten(a) + Flatten(b)
  {
    if b == [] {
      assert a + b == a;
    } else {
      var init := b[..|b| - 1];
      assert (a + b)[..|a + b| - 1] == a + init;
      FlattenAppend(a, init);
    }
  }

  lemma {:induction false} FlattenLength(cs: seq<Bytes>)
    ensures |Flatten(cs)| == Sum(Lengths(cs))
  {
    if cs != [] {
      var init := cs[..|cs| - 1];
      assert Lengths(cs)[..|cs| - 1] == Lengths(init);
      FlattenLength(init);
    }
  }

  /** Cutting a concatenation of chunks at the chunks' own widths gives the chunks back,
      whatever follows them. */
  lemma {:induction false} SplitFlatten(cs: seq<Bytes>, rest: Bytes)
    ensures Sum(Lengths(cs)) <= |Flatten(cs) + rest|
    ensures SplitFields(Flatten(cs) + rest, Lengths(cs)) == cs
  {
    FlattenLength(cs);
    if cs != [] {
      var init := cs[..|cs| - 1];
      var last := cs[|cs| - 1];
      var b := Flatten(cs) + rest;
      assert Lengths(cs)[..|cs| - 1] == Lengths(init);
      assert b == Flatten(init) + (last + rest);
      SplitFlatten(init, last + rest);
      FlattenLength(init);
      assert b[Sum(Lengths(init))..Sum(Lengths(cs))] == last;
    }
  }

  lemma FlattenSingle(c: Bytes)
    ensures Flatten([c]) == c
  {
    assert [c][..0] == [];
  }

  /** Only non-empty segments are written, and together they are the three segments in order. */
  lemma NonEmptySegmentsBytes(extras: Bytes, key: Bytes, value: Bytes)
    ensures forall c :: c in NonEmptySegments(extras, key, value) ==> |c| > 0
    ensures Flatten(NonEmptySegments(extras, key, value)) == extras + key + value
  {
    var e: seq<Bytes> := if |extras| > 0 then [extras] else [];
    var k: seq<Bytes> := if |key| > 0 then [key] else [];
    var v: seq<Bytes> := if |value| > 0 then [value] else [];
    assert NonEmptySegments(extras, key, value) == e + k + v;
    FlattenAppend(e + k, v);
    FlattenAppend(e, k);
    FlattenSingle(extras);
    FlattenSingle(key);
    FlattenSingle(value);
    assert Flatten(e) == extras;
    assert Flatten(k) == key;
    assert Flatten(v) == value;
  }

  /** The read side of a connection: every byte the peer sends before it closes
      the stream, and how many of them have been consumed. */
  class Reader {
    const data: Bytes
    var pos: nat

    ghost predicate Valid()
      reads this
    {
      pos <= |data|
    }

    /** The bytes not yet consumed. */
    function Rest(): Bytes
      reads this
      requires Valid()
    {
      data[pos..]
    }

    constructor (input: Bytes)
      ensures Valid() && data == input && pos == 0
    {
      data := input;
      pos := 0;
    }

    /** binary.Read into an n-byte buffer, that is io.ReadFull: on a stream with
        fewer than n bytes left it takes what is left and fails. */
    method ReadFull(n: nat) returns (res: Result<Bytes, Error>)
      requires Valid()
      modifies this
      ensures Valid()
      ensures n <= |old(Rest())| ==> res == Success(old(Rest())[..n]) && pos == old(pos) + n
      ensures n > |old(Rest())| ==> res == Failure(ShortRead) && pos == |data|
    {
      if n <= |data| - pos {
        assert data[pos..pos + n] == data[pos..][..n];
        res := Success(data[pos..pos + n]);
        pos := pos + n;
      } else {
        res := Failure(ShortRead);
        pos := |data|;
      }
    }

    /** The key and value reads every body decoder ends with: the key when
        keyLen is positive, then the value when valueLen is positive. */
    method ReadKeyValue(keyLen: nat, valueLen: int, key0: Bytes, value0: Bytes)
      returns (res: Result<(Bytes, Bytes), Error>)
      requires Valid()
      modifies this
      ensures Valid()
      ensures res == ParseKeyValue(old(Rest()), keyLen, valueLen, key0, value0)
      ensures pos == old(pos) + (if res.Success? then KeyValueSize(keyLen, valueLen) else |old(Rest())|)
    {
      ghost var rest0 := Rest();
      var key := key0;
      if keyLen > 0 {
        var k := ReadFull(keyLen);
        if k.Failure? {
          return Failure(k.error);
        }
        key := k.value;
      }
      assert Rest() == rest0[keyLen..];
      var value := value0;
      if valueLen > 0 {
        var v := ReadFull(valueLen);
        if v.Failure? {
          return Failure(v.error);
        }
        SuffixSlices(rest0, keyLen, valueLen);
        value := v.value;
      }
      return Success((key, value));
    }

    /** The loop over a header's field list: one binary.Read per field, in order,
        stopping at the first field the stream is too short for. */
    method ReadFields(ws: seq<nat>) returns (res: Result<seq<Bytes>, Error>)
      requires Valid()
      modifies this
      ensures Valid()
      ensures Sum(ws) <= |old(Rest())| ==> res == Success(SplitFields(old(Rest()), ws)) && pos == old(pos) + Sum(ws)
      ensures Sum(ws) > |old(Rest())| ==> res == Failure(ShortRead) && pos == |data|
    {
      ghost var rest0 := Rest();
      var cs: seq<Bytes> := [];
      var i := 0;
      while i < |ws|
        invariant 0 <= i <= |ws|
        invariant Valid()
        invariant Sum(ws[..i]) <= |rest0|
        invariant pos == old(pos) + Sum(ws[..i])
        invariant cs == SplitFields(rest0, ws[..i])
      {
        assert ws[..i + 1][..i] == ws[..i];
        var c := ReadFull(ws[i]);
        if c.Failure? {
          SumPrefix(ws, i + 1);
          return Failure(c.error);
        }
        assert c.value == rest0[Sum(ws[..i])..Sum(ws[..i + 1])];
        cs := cs + [c.value];
        i := i + 1;
      }
      assert ws[..i] == ws;
      return Success(cs);
    }
  }

  /** The write side of a connection. Each write call's bytes are kept as one
      chunk, so what was written and in how many calls can both be stated. */
  class Writer {
    var chunks: seq<Bytes>

    /** Every byte written so far. */
    function Output(): Bytes
      reads this
    {
      Flatten(chunks)
    }

    constructor ()
      ensures chunks == []
    {
      chunks := [];
    }

    /** One binary.Write (or w.Write) call; the model's writer never fails. */
    method Write(b: Bytes)
      modifies this
      ensures chunks == old(chunks) + [b]
      ensures Output() == old(Output()) + b
    {
      chunks := chunks + [b];
    }

    /** A body segment is written only when it is non-empty. */
    method WriteNonEmpty(b: Bytes)
      modifies this
      ensures chunks == old(chunks) + (if |b| > 0 then [b] else [])
      ensures Output() == old(Output()) + b
    {
      if |b| > 0 {
        Write(b);
      }
    }

    /** The loop over a header's field list: one write per field, in order. */
    method WriteAll(cs: seq<Bytes>)
      modifies this
      ensures chunks == old(chunks) + cs
      ensures Output() == old(Output()) + Flatten(cs)
    {
      var i := 0;
      while i < |cs|
        invariant 0 <= i <= |cs|
        invariant chunks == old(chunks) + cs[..i]
      {
        assert cs[..i + 1] == cs[..i] + [cs[i]];
        Write(cs[i]);
        i := i + 1;
      }
      assert cs[..i] == cs;
      FlattenAppend(old(chunks), cs);
    }
  }
}
