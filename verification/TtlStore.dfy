/**
 * The key-value store with expiry that every service shares, with a whole-second clock.
 * The repository shows only its interface; INCR, EXPIRE, TTL, GET, SET and DEL follow Valkey.
 */
module TtlStore {
  import opened Prelude

  /** A counter written by INCR, a plain text, or the record of a step-up verification. */
  datatype Value =
    | Count(n: nat)
    | Text(s: string)
    | StepUpRecord(ip: Option<string>, deviceId: Option<string>)

  datatype Entry = Entry(value: Value, deadline: Option<int>)

  datatype State = State(entries: map<string, Entry>, now: int)

  datatype StoreError = NotAnInteger

  /** The entry a reader sees: nothing from its deadline on. */
  function View(st: State, key: string): Option<Entry>
  {
    if key !in st.entries then None
    else
      var e := st.entries[key];
      if e.deadline.Some? && e.deadline.value <= st.now then None else Some(e)
  }

  function Get(st: State, key: string): Option<Value>
  {
    match View(st, key)
    case None => None
    case Some(e) => Some(e.value)
  }

  function Put(st: State, key: string, e: Entry): State
  {
    st.(entries := st.entries[key := e])
  }

  function Set(st: State, key: string, value: Value, seconds: int): State
  {
    Put(st, key, Entry(value, Some(st.now + seconds)))
  }

  function Del(st: State, key: string): State
  {
    st.(entries := st.entries - {key})
  }

  /** INCR: an absent key becomes 1 with no deadline; a live counter keeps its deadline. */
  function Incr(st: State, key: string): (State, Result<nat, StoreError>)
  {
    match View(st, key)
    case None => (Put(st, key, Entry(Count(1), None)), Ok(1))
    case Some(e) =>
      if e.value.Count? then
        (Put(st, key, e.(value := Count(e.value.n + 1))), Ok(e.value.n + 1))
      else
        (st, Err(NotAnInteger))
  }

  /** EXPIRE: sets the deadline of a live key and does nothing to an absent one. */
  function Expire(st: State, key: string, seconds: int): State
  {
    match View(st, key)
    case None => st
    case Some(e) => Put(st, key, e.(deadline := Some(st.now + seconds)))
  }

  /** TTL: -2 when absent, -1 without a deadline, otherwise the seconds left. */
  function Ttl(st: State, key: string): int
  {
    match View(st, key)
    case None => -2
    case Some(e) => if e.deadline.None? then -1 else e.deadline.value - st.now
  }

  function Tick(st: State, seconds: nat): State
  {
    st.(now := st.now + seconds)
  }

  /** What a store operation may do to the keys it is not called on. */
  predicate SameExcept(a: State, b: State, key: string)
  {
    a.now == b.now && a.entries - {key} == b.entries - {key}
  }

  lemma SameView(a: State, b: State, key: string, other: string)
    requires SameExcept(a, b, key) && other != key
    ensures View(a, other) == View(b, other)
  {
    assert other in a.entries <==> other in a.entries - {key};
    assert other in b.entries <==> other in b.entries - {key};
    assert other in a.entries ==> (a.entries - {key})[other] == (b.entries - {key})[other];
  }

  /** Every write touches one key and leaves the clock alone. */
  lemma WritesTouchOneKey(st: State, key: string, value: Value, seconds: int)
    ensures SameExcept(st, Set(st, key, value, seconds), key)
    ensures SameExcept(st, Del(st, key), key)
    ensures SameExcept(st, Incr(st, key).0, key)
    ensures SameExcept(st, Expire(st, key, seconds), key)
  {}

  /** The store as the services hold it: one object whose operations update it in place. */
  class Store {
    var entries: map<string, Entry>
    var now: int

    constructor (start: int)
      ensures Contents() == State(map[], start)
    {
      entries, now := map[], start;
    }

    function Contents(): State
      reads this
    {
      State(entries, now)
    }

    method DoGet(key: string) returns (r: Option<Value>)
      ensures r == Get(Contents(), key)
    {
      if key !in entries {
        return None;
      }
      var e := entries[key];
      if e.deadline.Some? && e.deadline.value <= now {
        return None;
      }
      return Some(e.value);
    }

    method DoSet(key: string, value: Value, seconds: int)
      modifies this
      ensures Contents() == Set(old(Contents()), key, value, seconds)
    {
      entries := entries[key := Entry(value, Some(now + seconds))];
    }

    method DoDel(key: string)
      modifies this
      ensures Contents() == Del(old(Contents()), key)
    {
      entries := entries - {key};
    }

    method DoIncr(key: string) returns (r: Result<nat, StoreError>)
      modifies this
      ensures (Contents(), r) == Incr(old(Contents()), key)
    {
      var view := View(Contents(), key);
      if view.None? {
        entries := entries[key := Entry(Count(1), None)];
        return Ok(1);
      }
      match view.value.value {
        case Count(n) =>
          entries := entries[key := view.value.(value := Count(n + 1))];
          return Ok(n + 1);
        case _ =>
          return Err(NotAnInteger);
      }
    }

    method DoExpire(key: string, seconds: int)
      modifies this
      ensures Contents() == Expire(old(Contents()), key, seconds)
    {
      var view := View(Contents(), key);
      if view.Some? {
        entries := entries[key := view.value.(deadline := Some(now + seconds))];
      }
    }

    method DoTtl(key: string) returns (r: int)
      ensures r == Ttl(Contents(), key)
    {
      r := Ttl(Contents(), key);
    }

    method DoTick(seconds: nat)
      modifies this
      ensures Contents() == Tick(old(Contents()), seconds)
    {
      now := now + seconds;
    }
  }
}
