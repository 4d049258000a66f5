/** The in-process stand-in for Redis: a dictionary from keys to values with
    `get` and `set`. Values are the JSON texts the service stores, or `None`.
    Neither operation lets an error escape: the `fault` parameters stand for
    an exception raised inside the dictionary operation, which the operation
    catches, logs and turns into `None` (get) or `false` (set). */
module Cache {

  import opened Wrappers

  /** The `self.cache` dictionary. A key may be present with the value `None`. */
  type Table = map<string, Option<string>>

  /** What `get(key)` answers on table `t`: a missing key and a key stored
      with `None` look the same to the caller. */
  function GetOutcome(t: Table, key: string, fault: bool): (r: Option<string>)
  {
    if fault || key !in t then None else t[key]
  }

  /** The table after `set(key, value, ex)` and the flag it returns. The
      time-to-live `ex` is accepted and not used. */
  function SetOutcome(t: Table, key: string, value: Option<string>, ex: Option<int>, fault: bool)
    : (r: (Table, bool))
  {
    if fault then (t, false) else (t[key := value], true)
  }

  /** A fresh cache holds no key, so every `get` answers `None`. */
  lemma FreshGetIsNone(key: string, fault: bool)
    ensures GetOutcome(map[], key, fault) == None
  {
  }

  /** After a successful `set(k, v)`, `get(k)` answers `v`, `None` included. */
  lemma GetAfterSet(t: Table, key: string, value: Option<string>, ex: Option<int>)
    ensures SetOutcome(t, key, value, ex, false).1
    ensures GetOutcome(SetOutcome(t, key, value, ex, false).0, key, false) == value
  {
  }

  /** `set(k, v)` touches key `k` only: every other key keeps its presence and value. */
  lemma SetTouchesOnlyItsKey(t: Table, key: string, value: Option<string>, ex: Option<int>, fault: bool, other: string)
    requires other != key
    ensures var t' := SetOutcome(t, key, value, ex, fault).0;
      (other in t' <==> other in t) && (other in t ==> t'[other] == t[other])
  {
  }

  /** Storing `None` keeps the key in the table (it is overwritten, not
      removed), and a later `get` answers `None`. */
  lemma SetNoneKeepsKey(t: Table, key: string, ex: Option<int>)
    ensures var t' := SetOutcome(t, key, None, ex, false).0;
      key in t' && t'[key] == None && GetOutcome(t', key, false) == None
      && t'.Keys == t.Keys + {key}
  {
  }

  /** The time-to-live has no effect on the table or the returned flag. */
  lemma SetIgnoresTimeToLive(t: Table, key: string, value: Option<string>, ex1: Option<int>, ex2: Option<int>, fault: bool)
    ensures SetOutcome(t, key, value, ex1, fault) == SetOutcome(t, key, value, ex2, fault)
  {
  }

  /** Setting the same key to the same value twice leaves the table of one set. */
  lemma SetIsIdempotent(t: Table, key: string, value: Option<string>, ex: Option<int>)
    ensures var once := SetOutcome(t, key, value, ex, false).0;
      SetOutcome(once, key, value, ex, false).0 == once
  {
  }

  /** `set` reports `false` exactly on the exception path, and then the table
      is as it was; otherwise it reports `true`. */
  lemma SetReportsFailureOnlyOnFault(t: Table, key: string, value: Option<string>, ex: Option<int>, fault: bool)
    ensures SetOutcome(t, key, value, ex, fault).1 == !fault
    ensures fault ==> SetOutcome(t, key, value, ex, fault).0 == t
  {
  }

  /** `get` answers `None` whenever the exception path is taken. */
  lemma GetFaultIsNone(t: Table, key: string)
    ensures GetOutcome(t, key, true) == None
  {
  }

  class MockRedis {

    var cache: Table

    /** A new cache starts empty. */
    constructor ()
      ensures cache == map[]
    {
      cache := map[];
    }

    /** `get(key)`: a read-only lookup. It has no `modifies` clause, so the
        table is the same afterwards. */
    method Get(key: string, fault: bool) returns (r: Option<string>)
      ensures r == GetOutcome(cache, key, fault)
      ensures r.Some? ==> key in cache && cache[key] == r
    {
      if fault {
        // the exception is caught and logged; the caller sees absence
        return None;
      }
      r := if key in cache then cache[key] else None;
    }

    /** `set(key, value, ex)`: overwrites `key` with `value`, whatever it is. */
    method Set(key: string, value: Option<string>, ex: Option<int>, fault: bool) returns (ok: bool)
      modifies this
      ensures (cache, ok) == SetOutcome(old(cache), key, value, ex, fault)
    {
      if fault {
        // the exception is caught and logged; the table was not written
        return false;
      }
      cache := cache[key := value];
      ok := true;
    }
  }
}
