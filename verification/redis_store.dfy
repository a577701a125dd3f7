/** The Redis side-store (`app/core/redis_client.py`): revocation entries
    and a generic cache in one key space, with per-key expiry.

    The store is a map from key to (value, absolute expiry instant) plus an
    `available` flag standing for "the server answers". Time is an integer
    count of seconds; a key set at `now` with lifetime `t` exists while the
    clock is below `now + t`. Every operation catches the store's errors
    and turns them into its documented fallback. */
module RedisStore {
  import opened Wrappers

  datatype Entry = Entry(value: string, expiresAt: int)

  datatype Store = Store(entries: map<string, Entry>, available: bool)

  const RevokedTokenPrefix: string := "revoked_token:"
  const DefaultCacheSeconds: int := 3600

  function RevocationKey(jti: string): string {
    RevokedTokenPrefix + jti
  }

  /** `key` exists (has not yet expired) at time `now`. */
  predicate Live(s: Store, key: string, now: int) {
    key in s.entries && now < s.entries[key].expiresAt
  }

  /** Result of an operation that may write: the operation's return value
      and the store afterwards. */
  datatype Reply<T> = Reply(result: T, store: Store)

  /** `SETEX key seconds value`. Redis refuses a non-positive lifetime with
      an error, which the callers below catch. */
  function SetEx(s: Store, key: string, seconds: int, value: string, now: int): (r: Reply<bool>)
    ensures r.result <==> s.available && seconds > 0
    ensures r.result ==> r.store.entries == s.entries[key := Entry(value, now + seconds)]
    ensures !r.result ==> r.store == s
    ensures r.store.available == s.available
  {
    if s.available && seconds > 0 then
      Reply(true, s.(entries := s.entries[key := Entry(value, now + seconds)]))
    else Reply(false, s)
  }

  /** `RedisClient.revoke_token(jti, expiration_seconds)` */
  function RevokeToken(s: Store, jti: string, seconds: int, now: int): (r: Reply<bool>)
    ensures r.result <==> s.available && seconds > 0
    ensures !r.result ==> r.store == s
    ensures r.result ==> forall now' :: IsTokenRevoked(r.store, jti, now') <==> now' < now + seconds
    ensures forall k :: k != RevocationKey(jti) ==> Live(r.store, k, now) == Live(s, k, now)
  {
    SetEx(s, RevocationKey(jti), seconds, "1", now)
  }

  /** `RedisClient.is_token_revoked(jti)`: fails closed when the store is
      down; otherwise a token is revoked exactly while a cache read of its
      revocation key finds an entry. */
  function IsTokenRevoked(s: Store, jti: string, now: int): (b: bool)
    ensures !s.available ==> b
    ensures s.available ==> (b <==> CacheGet(s, RevocationKey(jti), now).Some?)
  {
    !s.available || Live(s, RevocationKey(jti), now)
  }

  /** `RedisClient.cache_get(key)`: keys are used verbatim; `None` on a
      miss, an expired key, or an unavailable store. */
  function CacheGet(s: Store, key: string, now: int): (r: Option<string>)
    ensures r.Some? <==> s.available && Live(s, key, now)
    ensures r.Some? ==> r.value == s.entries[key].value
  {
    if s.available && Live(s, key, now) then Some(s.entries[key].value) else None
  }

  /** `RedisClient.cache_set(key, value, expiration_seconds=3600)` */
  function CacheSet(s: Store, key: string, value: string, now: int,
                    seconds: int := DefaultCacheSeconds): (r: Reply<bool>)
    ensures r.result <==> s.available && seconds > 0
    ensures !r.result ==> r.store == s
    ensures r.result ==> CacheGet(r.store, key, now) == Some(value)
    ensures forall k :: k != key ==> CacheGet(r.store, k, now) == CacheGet(s, k, now)
  {
    SetEx(s, key, seconds, value, now)
  }

  /** `RedisClient.cache_delete(key)`: reports success even for a missing key. */
  function CacheDelete(s: Store, key: string): (r: Reply<bool>)
    ensures r.result <==> s.available
    ensures !r.result ==> r.store == s
    ensures r.result ==> key !in r.store.entries
    ensures forall k :: k != key && k in s.entries ==> k in r.store.entries && r.store.entries[k] == s.entries[k]
    ensures r.store.entries.Keys <= s.entries.Keys
  {
    if s.available then Reply(true, s.(entries := s.entries - {key})) else Reply(false, s)
  }

  /** After a successful revocation the token reads as revoked for exactly
      `seconds` seconds, and a second identical revocation changes nothing. */
  lemma RevokeIdempotent(s: Store, jti: string, seconds: int, now: int)
    ensures var once := RevokeToken(s, jti, seconds, now);
            RevokeToken(once.store, jti, seconds, now) == once
  {
  }

  /** Revocation keys of different identifiers never collide, so revoking
      one token leaves the revocation status of every other token as it was. */
  lemma RevokeIsolated(s: Store, jti: string, other: string, seconds: int, now: int, later: int)
    requires other != jti
    ensures IsTokenRevoked(RevokeToken(s, jti, seconds, now).store, other, later)
            == IsTokenRevoked(s, other, later)
  {
    assert RevocationKey(jti)[|RevokedTokenPrefix|..] == jti;
    assert RevocationKey(other)[|RevokedTokenPrefix|..] == other;
  }

  /** When the store is down, every check fails closed and every write or
      read fails open, leaving the store unchanged. */
  lemma UnavailablePolicy(s: Store, jti: string, key: string, value: string, seconds: int, now: int)
    requires !s.available
    ensures IsTokenRevoked(s, jti, now)
    ensures RevokeToken(s, jti, seconds, now) == Reply(false, s)
    ensures CacheGet(s, key, now) == None
    ensures CacheSet(s, key, value, now, seconds) == Reply(false, s)
    ensures CacheDelete(s, key) == Reply(false, s)
  {
  }

  /** The lazily created client handle (`RedisClient.get_client`). */
  datatype Client = Client(url: string)

  datatype Handle = Handle(instance: Option<Client>)

  /** Creates the client on first use only; afterwards returns the stored one. */
  function GetClient(h: Handle, url: string): (r: (Client, Handle))
    ensures r.1.instance == Some(r.0)
    ensures h.instance.Some? ==> r.0 == h.instance.value && r.1 == h
    ensures h.instance.None? ==> r.0.url == url
  {
    match h.instance
    case Some(c) => (c, h)
    case None => var c := Client(url); (c, Handle(Some(c)))
  }

  /** The client is created at most once: every later call returns the
      same instance and leaves the handle unchanged, whatever URL it is given. */
  lemma GetClientOnce(h: Handle, url: string, url': string)
    ensures var (c1, h1) := GetClient(h, url);
            var (c2, h2) := GetClient(h1, url');
            c2 == c1 && h2 == h1
  {
  }
}
