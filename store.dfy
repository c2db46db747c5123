/** A Redis keyspace with per-key expiry. An entry is visible while `now` is strictly before
    its expiry instant; an expired entry behaves exactly like a missing one. */
module TtlStore {
  import opened Wrappers

  datatype Entry<V> = Entry(value: V, expiresAt: int)

  type Store<V> = map<string, Entry<V>>

  /** `hasKey`: the key is present and has not expired. */
  predicate HasKey<V>(m: Store<V>, key: string, now: int) {
    key in m && now < m[key].expiresAt
  }

  /** `GET`: the value of a live key. */
  function Get<V>(m: Store<V>, key: string, now: int): (r: Option<V>)
    ensures r.Some? <==> HasKey(m, key, now)
    ensures r.Some? ==> r.value == m[key].value
  {
    if HasKey(m, key, now) then Some(m[key].value) else None
  }

  /** `SET key value` with an expiry `ttlMs` after `now`, replacing any earlier value. */
  function Set<V>(m: Store<V>, key: string, v: V, now: int, ttlMs: int): (r: Store<V>)
    ensures forall t :: t < now + ttlMs ==> Get(r, key, t) == Some(v)
    ensures forall t :: t >= now + ttlMs ==> Get(r, key, t) == None
    ensures forall k, t :: k != key ==> Get(r, k, t) == Get(m, k, t)
  {
    m[key := Entry(v, now + ttlMs)]
  }

  /** `DEL key`. */
  function Delete<V>(m: Store<V>, key: string): (r: Store<V>)
    ensures forall t :: Get(r, key, t) == None
    ensures forall k, t :: k != key ==> Get(r, k, t) == Get(m, k, t)
  {
    m - {key}
  }

  /** `getExpire(key, TimeUnit.SECONDS)`: -2 for a missing key; otherwise the key's remaining
      milliseconds (the `PTTL` reply) converted to seconds by truncation, so a key with less
      than a second left reports 0. Every key here is written with an expiry, so the
      "no expiry" reply -1 does not arise. */
  function TtlSeconds<V>(m: Store<V>, key: string, now: int): (s: int)
    ensures !HasKey(m, key, now) <==> s == -2
    ensures HasKey(m, key, now) ==> 0 <= s && 1000 * s <= m[key].expiresAt - now < 1000 * s + 1000
  {
    if HasKey(m, key, now) then (m[key].expiresAt - now) / 1000 else -2
  }
}
