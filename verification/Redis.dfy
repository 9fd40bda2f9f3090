/**
  The Redis commands the backend uses, on string keys with an optional expiry.
  Time is an integer clock that callers pass in; a key with expiry t exists while
  now < t.  Expired keys may linger in the map, but no command can observe them.
 */
module Redis {
  import opened Prelude

  datatype Value = Text(text: string) | Number(number: int)

  /** A key without an expiry lasts; SETEX makes one that expires. */
  datatype Entry<+V> = Lasting(value: V) | Expiring(value: V, expiresAt: int) {
    predicate Alive(now: int) {
      Expiring? ==> now < expiresAt
    }
  }

  function Lookup<K, V>(store: map<K, Entry<V>>, key: K, now: int): Option<V> {
    if key in store && store[key].Alive(now) then Some(store[key].value) else None
  }

  class RedisStore<K(==)> {
    var store: map<K, Entry<Value>>

    constructor ()
      ensures store == map[]
    {
      store := map[];
    }

    method Get(key: K, now: int) returns (value: Option<Value>)
      ensures value == Lookup(store, key, now)
    {
      if key in store && store[key].Alive(now) {
        value := Some(store[key].value);
      } else {
        value := None;
      }
    }

    method SetEx(key: K, ttl: int, value: Value, now: int)
      modifies this
      ensures store == old(store)[key := Expiring(value, now + ttl)]
    {
      store := store[key := Expiring(value, now + ttl)];
    }

    method Delete(key: K)
      modifies this
      ensures store == old(store) - {key}
    {
      store := store - {key};
    }

    /** INCR keeps the expiry of a live counter and creates a persistent 1 otherwise. */
    method Incr(key: K, now: int) returns (count: int)
      requires Lookup(store, key, now).Some? ==> Lookup(store, key, now).value.Number?
      modifies this
      ensures Lookup(old(store), key, now).Some? ==>
                && count == Lookup(old(store), key, now).value.number + 1
                && store == old(store)[key := old(store)[key].(value := Number(count))]
      ensures Lookup(old(store), key, now).None? ==>
                count == 1 && store == old(store)[key := Lasting(Number(1))]
    {
      if key in store && store[key].Alive(now) {
        count := store[key].value.number + 1;
        store := store[key := store[key].(value := Number(count))];
      } else {
        count := 1;
        store := store[key := Lasting(Number(1))];
      }
    }
  }
}
