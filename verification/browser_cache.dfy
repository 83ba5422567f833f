/** The frontend's response cache (`services/cache.ts`): one named browser
    cache holding, per key, the data and the time it was stored; a read
    older than one hour deletes the entry and answers nothing. Every
    failure is caught and logged, so a read answers nothing and a write or
    clear leaves the cache as it was.

    The clock reading `Date.now()` is a parameter, the stored data is kept
    as the value itself (its JSON round trip is not modelled), and a cache
    storage that throws is a store marked unavailable. */
module BrowserCache {
  import opened Wrappers

  const CacheName: string := "cinema-cache-v1"

  /** One hour in milliseconds. */
  const CacheDuration: int := 60 * 60 * 1000

  datatype Entry<T> = Entry(data: T, timestamp: int)

  datatype Store<T> = Store(entries: map<string, Entry<T>>, available: bool)

  /** Whether an entry read at `now` is past its hour. */
  predicate Expired<T>(e: Entry<T>, now: int) {
    now - e.timestamp > CacheDuration
  }

  /** `CacheService.get`: the data under `key` unless absent or expired; an
      expired entry is deleted on the way. */
  function Get<T>(s: Store<T>, key: string, now: int): (r: (Option<T>, Store<T>))
    ensures r.0.Some? <==> s.available && key in s.entries && !Expired(s.entries[key], now)
    ensures r.0.Some? ==> r.0.value == s.entries[key].data
    ensures r.1.available == s.available
    ensures r.1.entries == if s.available && key in s.entries && Expired(s.entries[key], now)
                           then s.entries - {key} else s.entries
  {
    if !s.available then (None, s)
    else if key !in s.entries then (None, s)
    else
      var e := s.entries[key];
      if now - e.timestamp > CacheDuration then (None, s.(entries := s.entries - {key}))
      else (Some(e.data), s)
  }

  /** `CacheService.set`: stores the data stamped with `now`, replacing any
      entry under the key. */
  function Set<T>(s: Store<T>, key: string, data: T, now: int): (r: Store<T>)
    ensures r.available == s.available
    ensures s.available ==> key in r.entries && r.entries[key] == Entry(data, now)
    ensures forall k :: k != key ==> (k in r.entries <==> k in s.entries)
    ensures forall k :: k != key && k in s.entries ==> r.entries[k] == s.entries[k]
    ensures !s.available ==> r == s
  {
    if !s.available then s else s.(entries := s.entries[key := Entry(data, now)])
  }

  /** `CacheService.clear`: deletes the whole named cache. */
  function Clear<T>(s: Store<T>): (r: Store<T>)
    ensures r.available == s.available
    ensures s.available ==> |r.entries| == 0
    ensures !s.available ==> r == s
  {
    if !s.available then s else s.(entries := map[])
  }

  /** A value written at `t` is read back until exactly one hour later
      (clock readings earlier than `t` included) and not after that, when
      the read removes it. */
  lemma GetAfterSet<T>(s: Store<T>, key: string, data: T, t: int, now: int)
    requires s.available
    ensures now - t <= CacheDuration ==> Get(Set(s, key, data, t), key, now).0 == Some(data)
    ensures now - t > CacheDuration ==> Get(Set(s, key, data, t), key, now).0 == None
    ensures now - t > CacheDuration ==> key !in Get(Set(s, key, data, t), key, now).1.entries
  {
  }

  /** The boundary: an entry exactly one hour old is still served; one
      millisecond later it is not. */
  lemma OneHourBoundary<T>(s: Store<T>, key: string, data: T, t: int)
    requires s.available
    ensures Get(Set(s, key, data, t), key, t + 3_600_000).0 == Some(data)
    ensures Get(Set(s, key, data, t), key, t + 3_600_001).0 == None
  {
    GetAfterSet(s, key, data, t, t + 3_600_000);
    GetAfterSet(s, key, data, t, t + 3_600_001);
  }

  /** Writing one key leaves every other key's answer as it was. */
  lemma SetOtherKey<T>(s: Store<T>, key: string, other: string, data: T, t: int, now: int)
    requires other != key
    ensures Get(Set(s, key, data, t), other, now).0 == Get(s, other, now).0
  {
  }

  /** After a clear nothing is served. */
  lemma GetAfterClear<T>(s: Store<T>, key: string, now: int)
    ensures Get(Clear(s), key, now).0 == None
  {
  }

  /** A read that found nothing finds nothing again at a later time, and a
      read that found the data leaves the cache unchanged. */
  lemma GetSettles<T>(s: Store<T>, key: string, now: int, later: int)
    requires now <= later
    ensures Get(s, key, now).0.None? ==> Get(Get(s, key, now).1, key, later).0.None?
    ensures Get(s, key, now).0.Some? ==> Get(s, key, now).1 == s
  {
  }

  /** When the browser's cache storage throws, reads answer nothing and
      writes and clears change nothing. */
  lemma Unavailable<T>(s: Store<T>, key: string, data: T, now: int)
    requires !s.available
    ensures Get(s, key, now) == (None, s)
    ensures Set(s, key, data, now) == s && Clear(s) == s
  {
  }
}
