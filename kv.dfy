/**
 * The key-value store actions over the `kv` table: an upsert that wraps
 * plain strings as `{ data: s }`, a read that unwraps them, delete,
 * existence and the key listing. A database failure is the parameter
 * `dbError` (the message of the thrown error); `get`, `del` and `exists`
 * swallow it.
 */
module Kv {

  import opened Common
  import RepositoryException

  /** A jsonb value. */
  datatype Json =
    | JNull
    | JBool(b: bool)
    | JNum(n: int)
    | JStr(s: string)
    | JArr(items: seq<Json>)
    | JObj(fields: map<string, Json>)

  /** The `value` argument of `set`: a string or an object. */
  datatype SetValue = Text(s: string) | Object(fields: map<string, Json>)

  datatype KvRow = KvRow(key: string, value: Json)

  /** `typeof value === "string" ? { data: value } : value`. */
  function Wrap(v: SetValue): (r: Json)
    ensures r.JObj?
  {
    match v
    case Text(s) => JObj(map["data" := JStr(s)])
    case Object(f) => JObj(f)
  }

  /** JavaScript truthiness of a stored value. */
  predicate JsTruthy(v: Json) {
    match v
    case JNull => false
    case JBool(b) => b
    case JNum(n) => n != 0
    case JStr(s) => s != ""
    case _ => true
  }

  /** What `get` returns for the stored value: a lone `data` key is unwrapped. */
  function Unwrap(v: Json): Json {
    if v.JObj? && v.fields.Keys == {"data"} then v.fields["data"] else v
  }

  /** The first row with the key (`find` with `limit: 1`). */
  function Lookup(rows: seq<KvRow>, key: string): (r: Option<Json>)
    ensures r.Some? <==> exists k :: 0 <= k < |rows| && rows[k].key == key
  {
    if rows == [] then None
    else if rows[0].key == key then Some(rows[0].value)
    else
      var r := Lookup(rows[1..], key);
      assert r.Some? ==> exists k :: 0 <= k < |rows| && rows[k].key == key by {
        if r.Some? {
          var k :| 0 <= k < |rows[1..]| && rows[1..][k].key == key;
          assert rows[k + 1].key == key;
        }
      }
      r
  }

  /** `update({ where: eq("key", key), data: { value } })`. */
  function UpdateKey(rows: seq<KvRow>, key: string, value: Json): (r: seq<KvRow>)
    ensures |r| == |rows|
    ensures forall k :: 0 <= k < |rows| ==> r[k] == if rows[k].key == key then KvRow(key, value) else rows[k]
  {
    if rows == [] then []
    else [if rows[0].key == key then KvRow(key, value) else rows[0]] + UpdateKey(rows[1..], key, value)
  }

  function DeleteKey(rows: seq<KvRow>, key: string): (r: seq<KvRow>)
    ensures |r| <= |rows|
    ensures forall x :: x in r <==> x in rows && x.key != key
  {
    if rows == [] then []
    else
      var rest := DeleteKey(rows[1..], key);
      assert forall x :: x in rows <==> x == rows[0] || x in rows[1..];
      (if rows[0].key == key then [] else [rows[0]]) + rest
  }

  /** The table after a successful `set`. */
  function Upserted(rows: seq<KvRow>, key: string, value: SetValue): seq<KvRow> {
    if Lookup(rows, key).Some? then UpdateKey(rows, key, Wrap(value))
    else rows + [KvRow(key, Wrap(value))]
  }

  /** `get(key)` on a table: `None` is `null`. */
  function GetValue(rows: seq<KvRow>, key: string): Option<Json> {
    match Lookup(rows, key)
    case None => None
    case Some(v) => if JsTruthy(v) then Some(Unwrap(v)) else None
  }

  function Keys(rows: seq<KvRow>): (r: seq<string>)
    ensures |r| == |rows|
    ensures forall k :: 0 <= k < |rows| ==> r[k] == rows[k].key
  {
    if rows == [] then [] else [rows[0].key] + Keys(rows[1..])
  }

  /** How many rows hold the key. */
  function Entries(rows: seq<KvRow>, key: string): nat {
    if rows == [] then 0 else (if rows[0].key == key then 1 else 0) + Entries(rows[1..], key)
  }

  /** `keys()`: the success shape or the classified failure. */
  datatype KeysResponse = KeyList(data: seq<string>) | KeysFailed(failure: RepositoryException.ActionFailure)

  class KvStore {
    var rows: seq<KvRow>

    constructor(rows0: seq<KvRow>)
      ensures rows == rows0
    {
      rows := rows0;
    }

    /** `set(key, value)`: `false` when the database fails. */
    method Set(key: string, value: SetValue, dbError: Option<string>) returns (ok: bool)
      modifies this
      ensures ok <==> dbError.None?
      ensures rows == if ok then Upserted(old(rows), key, value) else old(rows)
    {
      if dbError.Some? {
        return false;
      }
      var jsonValue := Wrap(value);
      var existing := Lookup(rows, key);
      if existing.Some? {
        rows := UpdateKey(rows, key, jsonValue);
      } else {
        rows := rows + [KvRow(key, jsonValue)];
      }
      return true;
    }

    /** `get(key)`: `None` is `null`, also when the database fails. */
    method Get(key: string, dbError: Option<string>) returns (r: Option<Json>)
      ensures r == if dbError.Some? then None else GetValue(rows, key)
    {
      if dbError.Some? {
        return None;
      }
      var kv := Lookup(rows, key);
      if kv.None? || !JsTruthy(kv.value) {
        return None;
      }
      r := Some(Unwrap(kv.value));
    }

    /** `del(key)`. */
    method Del(key: string, dbError: Option<string>) returns (ok: bool)
      modifies this
      ensures ok <==> dbError.None?
      ensures rows == if ok then DeleteKey(old(rows), key) else old(rows)
    {
      if dbError.Some? {
        return false;
      }
      rows := DeleteKey(rows, key);
      return true;
    }

    /** `exists(key)`. */
    method Exists(key: string, dbError: Option<string>) returns (b: bool)
      ensures b <==> dbError.None? && exists k :: 0 <= k < |rows| && rows[k].key == key
    {
      if dbError.Some? {
        return false;
      }
      b := Lookup(rows, key).Some?;
    }

    /** `keys()`. */
    method AllKeys(dbError: Option<string>) returns (r: KeysResponse)
      ensures dbError.None? ==> r == KeyList(Keys(rows))
      ensures dbError.Some? ==> r == KeysFailed(RepositoryException.ActionFailure(false, dbError.value))
    {
      if dbError.Some? {
        return KeysFailed(RepositoryException.HandleActionException(RepositoryException.PlainError(dbError.value)));
      }
      r := KeyList(Keys(rows));
    }
  }

  // ---------------------------------------------------------------------
  // Lemmas
  // ---------------------------------------------------------------------

  /** Storing a string and reading it back gives the string. */
  lemma SetGetRoundTrip(rows: seq<KvRow>, key: string, s: string)
    ensures GetValue(Upserted(rows, key, Text(s)), key) == Some(JStr(s))
  {
    LookupAfterUpsert(rows, key, Text(s));
  }

  lemma {:induction false} LookupUpdated(rows: seq<KvRow>, key: string, v: Json)
    requires Lookup(rows, key).Some?
    ensures Lookup(UpdateKey(rows, key, v), key) == Some(v)
  {
    if rows[0].key != key {
      LookupUpdated(rows[1..], key, v);
    }
  }

  lemma {:induction false} LookupAppended(rows: seq<KvRow>, key: string, v: Json)
    requires Lookup(rows, key).None?
    ensures Lookup(rows + [KvRow(key, v)], key) == Some(v)
  {
    if rows == [] {
    } else {
      assert (rows + [KvRow(key, v)])[1..] == rows[1..] + [KvRow(key, v)];
      LookupAppended(rows[1..], key, v);
    }
  }

  /** After `set`, the key reads as the wrapped value. */
  lemma LookupAfterUpsert(rows: seq<KvRow>, key: string, value: SetValue)
    ensures Lookup(Upserted(rows, key, value), key) == Some(Wrap(value))
  {
    if Lookup(rows, key).Some? {
      LookupUpdated(rows, key, Wrap(value));
    } else {
      LookupAppended(rows, key, Wrap(value));
    }
  }

  /**
   * The upsert leaves exactly one entry for the key when it had at most one
   * before, and never changes the number of entries of another key.
   */
  lemma UpsertOneEntry(rows: seq<KvRow>, key: string, value: SetValue, other: string)
    requires Entries(rows, key) <= 1
    ensures Entries(Upserted(rows, key, value), key) == 1
    ensures other != key ==> Entries(Upserted(rows, key, value), other) == Entries(rows, other)
  {
    if Lookup(rows, key).Some? {
      EntriesUpdate(rows, key, Wrap(value), key);
      EntriesUpdate(rows, key, Wrap(value), other);
      EntriesPositive(rows, key);
    } else {
      EntriesAppend(rows, KvRow(key, Wrap(value)), key);
      EntriesAppend(rows, KvRow(key, Wrap(value)), other);
      EntriesZero(rows, key);
    }
  }

  lemma {:induction false} EntriesUpdate(rows: seq<KvRow>, key: string, v: Json, k: string)
    ensures Entries(UpdateKey(rows, key, v), k) == Entries(rows, k)
  {
    if rows != [] {
      EntriesUpdate(rows[1..], key, v, k);
    }
  }

  lemma {:induction false} EntriesAppend(rows: seq<KvRow>, row: KvRow, k: string)
    ensures Entries(rows + [row], k) == Entries(rows, k) + (if row.key == k then 1 else 0)
  {
    if rows != [] {
      assert (rows + [row])[1..] == rows[1..] + [row];
      EntriesAppend(rows[1..], row, k);
    }
  }

  lemma {:induction false} EntriesPositive(rows: seq<KvRow>, key: string)
    requires Lookup(rows, key).Some?
    ensures Entries(rows, key) >= 1
  {
    if rows[0].key != key {
      EntriesPositive(rows[1..], key);
    }
  }

  lemma {:induction false} EntriesZero(rows: seq<KvRow>, key: string)
    requires Lookup(rows, key).None?
    ensures Entries(rows, key) == 0
  {
    if rows != [] {
      EntriesZero(rows[1..], key);
    }
  }

  /** A stored object whose only key is `data` reads back as that field; any other object reads back whole. */
  lemma UnwrapCases(fields: map<string, Json>)
    ensures fields.Keys == {"data"} ==> Unwrap(JObj(fields)) == fields["data"]
    ensures fields.Keys != {"data"} ==> Unwrap(JObj(fields)) == JObj(fields)
  {
  }

  /** A missing key reads as `null`. */
  lemma GetMissingIsNull(rows: seq<KvRow>, key: string)
    requires forall k :: 0 <= k < |rows| ==> rows[k].key != key
    ensures GetValue(rows, key).None?
  {
  }

  /** After `del(key)` the key no longer exists, and every other row is kept. */
  lemma DelThenNotExists(rows: seq<KvRow>, key: string)
    ensures forall k :: 0 <= k < |DeleteKey(rows, key)| ==> DeleteKey(rows, key)[k].key != key
    ensures forall x :: x in rows && x.key != key ==> x in DeleteKey(rows, key)
    ensures GetValue(DeleteKey(rows, key), key).None?
  {
    var d := DeleteKey(rows, key);
    forall k | 0 <= k < |d| ensures d[k].key != key {
      assert d[k] in d;
    }
  }
}
