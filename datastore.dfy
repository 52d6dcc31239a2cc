/** The CAS-versioned key/value store of the server (server/datastore.go). */
module Store {

  import opened Wrappers
  import opened Errors
  import opened ByteOrder

  /** One more than the largest uint64: `it.cas++` wraps around here. */
  const CasModulus: nat := 0x1_0000_0000_0000_0000

  /** A stored value with its client flags, expiry (stored, never enforced) and version. */
  datatype Item = Item(value: Bytes, expiry: uint32, flags: uint32, cas: uint64)

  /** What set does to the table: the new table, or the error it returns
      (in which case the table is left as it was). */
  function ApplySet(kv: map<Bytes, Item>, k: Bytes, v: Bytes,
                    flags: uint32, expiry: uint32, cas: uint64): Result<map<Bytes, Item>, Error>
  {
    if k in kv then
      var it := kv[k];
      if cas != 0 && it.cas != cas then Failure(CasMismatch)
      else
        var expiry' := if expiry > 0 then expiry else it.expiry;
        Success(kv[k := Item(v, expiry', flags, (it.cas + 1) % CasModulus)])
    else if cas != 0 then Failure(KeyDoesNotExist)
    else Success(kv[k := Item(v, expiry, flags, 1)])
  }

  /** The table after set, whether it succeeded or not. */
  function StoreAfterSet(kv: map<Bytes, Item>, k: Bytes, v: Bytes,
                         flags: uint32, expiry: uint32, cas: uint64): map<Bytes, Item>
  {
    match ApplySet(kv, k, v, flags, expiry, cas)
    case Success(kv') => kv'
    case Failure(_) => kv
  }

  class DataStore {
    var kv: map<Bytes, Item>

    /** newDataStore: an empty table. */
    constructor ()
      ensures kv == map[]
    {
      kv := map[];
    }

    /** get: the item stored under k, if any; the table is only read. */
    method Get(k: Bytes) returns (it: Option<Item>, found: bool)
      ensures found <==> k in kv
      ensures found ==> it == Some(kv[k])
      ensures !found ==> it == None
    {
      found := k in kv;
      if found {
        it := Some(kv[k]);
      } else {
        it := None;
      }
    }

    /** set: insert (cas 0 only) or overwrite (cas 0 or the item's own cas),
        bumping the version; an error leaves the table as it was. */
    method Set(k: Bytes, v: Bytes, flags: uint32, expiry: uint32, cas: uint64) returns (err: Option<Error>)
      modifies this
      ensures kv == StoreAfterSet(old(kv), k, v, flags, expiry, cas)
      ensures ApplySet(old(kv), k, v, flags, expiry, cas).Success? <==> err == None
      ensures ApplySet(old(kv), k, v, flags, expiry, cas).Failure? ==>
                err == Some(ApplySet(old(kv), k, v, flags, expiry, cas).error)
    {
      if k in kv {
        var it := kv[k];
        if cas != 0 {
          if it.cas != cas {
            return Some(CasMismatch);
          }
        }
        it := it.(cas := (it.cas + 1) % CasModulus);
        it := it.(flags := flags);
        if expiry > 0 {
          it := it.(expiry := expiry);
        }
        it := it.(value := v);
        kv := kv[k := it];
      } else {
        if cas != 0 {
          return Some(KeyDoesNotExist);
        }
        kv := kv[k := Item(v, expiry, flags, 1)];
      }
      return None;
    }
  }

  /** set succeeds exactly when the key is absent and cas is 0, or the key is
      present and cas is 0 or equals the stored cas. */
  lemma SetSucceedsIff(kv: map<Bytes, Item>, k: Bytes, v: Bytes, flags: uint32, expiry: uint32, cas: uint64)
    ensures ApplySet(kv, k, v, flags, expiry, cas).Success? <==>
              (if k in kv then cas == 0 || cas == kv[k].cas else cas == 0)
  {
  }

  /** Inserting an absent key with cas 0 stores the value, flags and expiry at version 1. */
  lemma SetInsertsAtVersionOne(kv: map<Bytes, Item>, k: Bytes, v: Bytes, flags: uint32, expiry: uint32)
    requires k !in kv
    ensures ApplySet(kv, k, v, flags, expiry, 0) == Success(kv[k := Item(v, expiry, flags, 1)])
  {
  }

  /** A non-zero cas for an absent key fails and creates no entry. */
  lemma SetAbsentKeyWithCasFails(kv: map<Bytes, Item>, k: Bytes, v: Bytes, flags: uint32, expiry: uint32, cas: uint64)
    requires k !in kv && cas != 0
    ensures ApplySet(kv, k, v, flags, expiry, cas) == Failure(KeyDoesNotExist)
    ensures StoreAfterSet(kv, k, v, flags, expiry, cas) == kv
  {
  }

  /** A non-zero cas that differs from the stored one fails with no mutation. */
  lemma SetStaleCasFails(kv: map<Bytes, Item>, k: Bytes, v: Bytes, flags: uint32, expiry: uint32, cas: uint64)
    requires k in kv && cas != 0 && cas != kv[k].cas
    ensures ApplySet(kv, k, v, flags, expiry, cas) == Failure(CasMismatch)
    ensures StoreAfterSet(kv, k, v, flags, expiry, cas) == kv
  {
  }

  /** An accepted update overwrites value and flags, keeps the old expiry unless a
      positive one is supplied, and advances the version by exactly one (mod 2^64). */
  lemma SetUpdateBumpsCas(kv: map<Bytes, Item>, k: Bytes, v: Bytes, flags: uint32, expiry: uint32, cas: uint64)
    requires k in kv && (cas == 0 || cas == kv[k].cas)
    ensures ApplySet(kv, k, v, flags, expiry, cas).Success?
    ensures var it := StoreAfterSet(kv, k, v, flags, expiry, cas)[k];
      && it.value == v && it.flags == flags
      && it.expiry == (if expiry > 0 then expiry else kv[k].expiry)
      && it.cas == (kv[k].cas + 1) % CasModulus
      && (kv[k].cas < CasModulus - 1 ==> it.cas == kv[k].cas + 1)
  {
  }

  /** set touches only key k: every other key keeps its item, and no key disappears. */
  lemma SetTouchesOnlyKey(kv: map<Bytes, Item>, k: Bytes, v: Bytes, flags: uint32, expiry: uint32, cas: uint64)
    ensures var kv' := StoreAfterSet(kv, k, v, flags, expiry, cas);
      && kv.Keys <= kv'.Keys <= kv.Keys + {k}
      && forall k' :: k' in kv && k' != k ==> kv'[k'] == kv[k']
  {
  }

  /** After a successful set, get finds the key with the value and flags just written. */
  lemma SetThenGet(kv: map<Bytes, Item>, k: Bytes, v: Bytes, flags: uint32, expiry: uint32, cas: uint64)
    requires ApplySet(kv, k, v, flags, expiry, cas).Success?
    ensures var kv' := StoreAfterSet(kv, k, v, flags, expiry, cas);
      k in kv' && kv'[k].value == v && kv'[k].flags == flags
  {
  }

  /** A chain of sets on one key, each supplying the cas its writer last observed. */
  function ObservedCasChain(kv: map<Bytes, Item>, k: Bytes, vs: seq<Bytes>, flags: uint32): Result<map<Bytes, Item>, Error>
  {
    if vs == [] then Success(kv)
    else
      match ObservedCasChain(kv, k, vs[..|vs| - 1], flags)
      case Failure(e) => Failure(e)
      case Success(m) => ApplySet(m, k, vs[|vs| - 1], flags, 0, if k in m then m[k].cas else 0)
  }

  /** No update is lost: n writers that each pass the cas they observed all succeed,
      the version advances by exactly n and the last value wins. */
  lemma {:induction false} ObservedCasChainAdvances(kv: map<Bytes, Item>, k: Bytes, vs: seq<Bytes>, flags: uint32)
    requires k in kv && kv[k].cas + |vs| < CasModulus
    ensures ObservedCasChain(kv, k, vs, flags).Success?
    ensures var m := ObservedCasChain(kv, k, vs, flags).value;
      && k in m && m[k].cas == kv[k].cas + |vs|
      && (vs != [] ==> m[k].value == vs[|vs| - 1] && m[k].flags == flags)
      && forall k' :: k' in kv && k' != k ==> k' in m && m[k'] == kv[k']
  {
    if vs != [] {
      ObservedCasChainAdvances(kv, k, vs[..|vs| - 1], flags);
    }
  }

  /** The store part of the documented client session: "bar" inserted at version 1,
      overwritten by "baz" with cas 1 (version 2), then a stale cas 1 rejected. */
  lemma CasSession(kv: map<Bytes, Item>, k: Bytes, bar: Bytes, baz: Bytes, qux: Bytes)
    requires k !in kv
    ensures ApplySet(kv, k, bar, 0, 0, 0).Success?
    ensures var kv1 := StoreAfterSet(kv, k, bar, 0, 0, 0);
      && kv1[k] == Item(bar, 0, 0, 1)
      && ApplySet(kv1, k, baz, 0, 0, 1).Success?
      && var kv2 := StoreAfterSet(kv1, k, baz, 0, 0, 1);
      && kv2[k] == Item(baz, 0, 0, 2)
      && ApplySet(kv2, k, qux, 0, 0, 1) == Failure(CasMismatch)
      && StoreAfterSet(kv2, k, qux, 0, 0, 1)[k].value == baz
  {
  }
}
