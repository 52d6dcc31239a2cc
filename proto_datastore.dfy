/** The plain key/value store of the root prototype (datastore.go): no
    versions, no flags, and Set overwrites unconditionally. */
module ProtoStore {

  import opened Wrappers
  import opened Errors
  import opened ByteOrder

  /** What Get returns for k: the stored value and true, or Go's nil slice
      (the empty sequence) and false. */
  function Lookup(kv: map<Bytes, Bytes>, k: Bytes): (r: (Bytes, bool))
    ensures r.1 <==> k in kv
    ensures k in kv ==> r.0 == kv[k]
    ensures k !in kv ==> r.0 == []
  {
    if k in kv then (kv[k], true) else ([], false)
  }

  class DataStore {
    var kv: map<Bytes, Bytes>

    /** NewDataStore: an empty table. */
    constructor ()
      ensures kv == map[]
    {
      kv := map[];
    }

    /** Get: a lookup that only reads the table. */
    method Get(k: Bytes) returns (v: Bytes, found: bool)
      ensures (v, found) == Lookup(kv, k)
    {
      found := k in kv;
      if found {
        v := kv[k];
      } else {
        v := [];
      }
    }

    /** Set: `ds.kv[k] = v`; it never reports an error. */
    method Set(k: Bytes, v: Bytes) returns (err: Option<Error>)
      modifies this
      ensures kv == old(kv)[k := v]
      ensures err == None
    {
      kv := kv[k := v];
      return None;
    }
  }

  /** The table after a sequence of Set calls, applied first to last. */
  function Replay(kv: map<Bytes, Bytes>, ops: seq<(Bytes, Bytes)>): map<Bytes, Bytes>
    decreases |ops|
  {
    if ops == [] then kv else Replay(kv[ops[0].0 := ops[0].1], ops[1..])
  }

  /** Set then Get of the same key returns the value just written, found. */
  lemma SetThenGet(kv: map<Bytes, Bytes>, k: Bytes, v: Bytes)
    ensures Lookup(kv[k := v], k) == (v, true)
  {
  }

  /** Set leaves every other key as it was. */
  lemma SetTouchesOnlyKey(kv: map<Bytes, Bytes>, k: Bytes, v: Bytes, k': Bytes)
    requires k' != k
    ensures Lookup(kv[k := v], k') == Lookup(kv, k')
  {
  }

  /** One more Set at the end of a sequence is one more overwrite of the final table. */
  lemma {:induction false} ReplaySnoc(kv: map<Bytes, Bytes>, ops: seq<(Bytes, Bytes)>, k: Bytes, v: Bytes)
    ensures Replay(kv, ops + [(k, v)]) == Replay(kv, ops)[k := v]
    decreases |ops|
  {
    if ops == [] {
      assert ops + [(k, v)] == [(k, v)];
    } else {
      assert (ops + [(k, v)])[1..] == ops[1..] + [(k, v)];
      ReplaySnoc(kv[ops[0].0 := ops[0].1], ops[1..], k, v);
    }
  }

  /** After any history, the last Set of a key decides what Get returns. */
  lemma LastSetWins(kv: map<Bytes, Bytes>, ops: seq<(Bytes, Bytes)>, k: Bytes, v: Bytes)
    ensures Lookup(Replay(kv, ops + [(k, v)]), k) == (v, true)
  {
    ReplaySnoc(kv, ops, k, v);
  }

  /** A key no Set ever wrote, absent at the start, is still not found. */
  lemma {:induction false} NeverSetIsNotFound(kv: map<Bytes, Bytes>, ops: seq<(Bytes, Bytes)>, k: Bytes)
    requires k !in kv
    requires forall i :: 0 <= i < |ops| ==> ops[i].0 != k
    ensures Lookup(Replay(kv, ops), k) == ([], false)
    decreases |ops|
  {
    if ops != [] {
      assert ops[0].0 != k;
      forall i | 0 <= i < |ops[1..]|
        ensures ops[1..][i].0 != k
      {
        assert ops[1..][i] == ops[i + 1];
      }
      NeverSetIsNotFound(kv[ops[0].0 := ops[0].1], ops[1..], k);
    }
  }
}
