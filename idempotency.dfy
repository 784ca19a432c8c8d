/** The in-memory idempotency store: a dictionary from key to (value,
    timestamp) with a time-to-live and lazy expiry. Every clock reading is an
    explicit argument; `get` reads the clock twice, once for the cleanup pass
    and once for the age check of the requested key. */
module Idempotency {
  import opened Domain

  /** The constructor's default ttl, which the global store uses. */
  const DefaultTtl: nat := 86400

  datatype Entry<V> = Entry(value: V, timestamp: nat)

  /** An entry is expired when it is strictly older than the ttl. */
  predicate Expired<V>(e: Entry<V>, ttl: nat, now: nat) {
    now - e.timestamp > ttl
  }

  /** The store after `_cleanup_expired` at time `now`. */
  function Live<V>(m: map<string, Entry<V>>, ttl: nat, now: nat): (r: map<string, Entry<V>>)
    ensures r.Keys <= m.Keys
    ensures forall k :: k in m ==> (k in r <==> !Expired(m[k], ttl, now))
    ensures forall k :: k in r ==> r[k] == m[k]
  {
    map k | k in m && !Expired(m[k], ttl, now) :: m[k]
  }

  /** What `get` returns: the value if the key survives the cleanup pass and
      is not older than the ttl at the second reading. */
  function Lookup<V>(m: map<string, Entry<V>>, ttl: nat, key: string, cleanupNow: nat, checkNow: nat): Option<V>
  {
    var live := Live(m, ttl, cleanupNow);
    if key in live && !Expired(live[key], ttl, checkNow) then Some(live[key].value) else None
  }

  /** The store after `get`: the cleanup pass, then the requested key dropped
      if it expired between the two readings. */
  function AfterGet<V>(m: map<string, Entry<V>>, ttl: nat, key: string, cleanupNow: nat, checkNow: nat): map<string, Entry<V>>
  {
    var live := Live(m, ttl, cleanupNow);
    if key in live && Expired(live[key], ttl, checkNow) then live - {key} else live
  }

  /** set(k, v) then get(k) within the ttl returns v. */
  lemma SetThenGet<V>(m: map<string, Entry<V>>, ttl: nat, key: string, v: V, setNow: nat, cleanupNow: nat, checkNow: nat)
    requires cleanupNow - setNow <= ttl && checkNow - setNow <= ttl
    ensures Lookup(m[key := Entry(v, setNow)], ttl, key, cleanupNow, checkNow) == Some(v)
  {
    assert key in Live(m[key := Entry(v, setNow)], ttl, cleanupNow);
  }

  /** get misses for a key never set or deleted, and for an entry older than
      the ttl at either reading; an age of exactly the ttl is still a hit. */
  lemma LookupCases<V>(m: map<string, Entry<V>>, ttl: nat, key: string, cleanupNow: nat, checkNow: nat)
    ensures key !in m ==> Lookup(m, ttl, key, cleanupNow, checkNow) == None
    ensures key in m && (Expired(m[key], ttl, cleanupNow) || Expired(m[key], ttl, checkNow)) ==>
      Lookup(m, ttl, key, cleanupNow, checkNow) == None
    ensures key in m && cleanupNow - m[key].timestamp <= ttl && checkNow - m[key].timestamp <= ttl ==>
      Lookup(m, ttl, key, cleanupNow, checkNow) == Some(m[key].value)
    ensures Lookup(m - {key}, ttl, key, cleanupNow, checkNow) == None
  {
    assert key !in Live(m - {key}, ttl, cleanupNow);
  }

  /** After get, no entry older than the ttl at the cleanup reading remains;
      every other entry is kept, except the requested one if it expired by
      the second reading. */
  lemma AfterGetKeepsExactlyLive<V>(m: map<string, Entry<V>>, ttl: nat, key: string, cleanupNow: nat, checkNow: nat)
    ensures var r := AfterGet(m, ttl, key, cleanupNow, checkNow);
      && (forall k :: k in r ==> k in m && r[k] == m[k] && !Expired(m[k], ttl, cleanupNow))
      && (forall k :: k in m && k != key && !Expired(m[k], ttl, cleanupNow) ==> k in r)
      && (key in m && !Expired(m[key], ttl, cleanupNow) && !Expired(m[key], ttl, checkNow) ==> key in r)
  {
  }

  /** Repeating get at the same instant returns the same answer. */
  lemma GetRepeatable<V>(m: map<string, Entry<V>>, ttl: nat, key: string, now: nat)
    ensures Lookup(AfterGet(m, ttl, key, now, now), ttl, key, now, now) == Lookup(m, ttl, key, now, now)
    ensures AfterGet(AfterGet(m, ttl, key, now, now), ttl, key, now, now) == AfterGet(m, ttl, key, now, now)
  {
    var once := AfterGet(m, ttl, key, now, now);
    assert Live(once, ttl, now) == once;
  }

  /** A get that misses leaves no entry for its key, so every later get of
      that key misses too until the key is set again. */
  lemma MissStaysMiss<V>(m: map<string, Entry<V>>, ttl: nat, key: string, cleanupNow: nat, checkNow: nat,
                         laterCleanup: nat, laterCheck: nat)
    requires Lookup(m, ttl, key, cleanupNow, checkNow) == None
    ensures key !in AfterGet(m, ttl, key, cleanupNow, checkNow)
    ensures Lookup(AfterGet(m, ttl, key, cleanupNow, checkNow), ttl, key, laterCleanup, laterCheck) == None
  {
    var after := AfterGet(m, ttl, key, cleanupNow, checkNow);
    assert key !in after;
    LookupCases(after, ttl, key, laterCleanup, laterCheck);
  }

  type Byte = b: nat | b < 256

  predicate IsLowerHex(c: char) {
    '0' <= c <= '9' || 'a' <= c <= 'f'
  }

  function HexChar(d: nat): (c: char)
    requires d < 16
    ensures IsLowerHex(c)
  {
    if d < 10 then ('0' as int + d) as char else ('a' as int + d - 10) as char
  }

  function HexValue(c: char): (d: nat)
    requires IsLowerHex(c)
    ensures d < 16
  {
    if c <= '9' then c as int - '0' as int else c as int - 'a' as int + 10
  }

  /** `hexdigest()`: two lower-case hex digits per byte, high nibble first. */
  function HexDigest(bs: seq<Byte>): (s: string)
    ensures |s| == 2 * |bs|
    ensures forall i :: 0 <= i < |s| ==> IsLowerHex(s[i])
  {
    if bs == [] then "" else [HexChar(bs[0] / 16), HexChar(bs[0] % 16)] + HexDigest(bs[1..])
  }

  /** Reading a hex digest back into bytes. */
  function ParseHex(s: string): seq<Byte>
    requires |s| % 2 == 0 && forall i :: 0 <= i < |s| ==> IsLowerHex(s[i])
  {
    if s == [] then [] else [HexValue(s[0]) * 16 + HexValue(s[1])] + ParseHex(s[2..])
  }

  /** The digest text loses nothing: parsing it gives back the bytes. */
  lemma {:induction false} HexRoundTrip(bs: seq<Byte>)
    ensures ParseHex(HexDigest(bs)) == bs
  {
    if bs != [] {
      var b := bs[0];
      var s := HexDigest(bs);
      assert s[2..] == HexDigest(bs[1..]);
      assert HexValue(HexChar(b / 16)) == b / 16;
      assert HexValue(HexChar(b % 16)) == b % 16;
      HexRoundTrip(bs[1..]);
      assert bs == [b] + bs[1..];
    }
  }

  /** `generate_idempotency_key`: the hex digest of the hash of the encoded
      request text. The encoding and the hash are parameters; 32-byte
      digests give 64-character keys. */
  function GenerateIdempotencyKey(data: string, encode: string -> seq<Byte>, hash: seq<Byte> -> seq<Byte>): (key: string)
    ensures |key| == 2 * |hash(encode(data))|
    ensures |hash(encode(data))| == 32 ==> |key| == 64
    ensures forall i :: 0 <= i < |key| ==> IsLowerHex(key[i])
  {
    HexDigest(hash(encode(data)))
  }

  /** Two requests get the same key exactly when their digests are equal. */
  lemma SameKeyIffSameDigest(a: string, b: string, encode: string -> seq<Byte>, hash: seq<Byte> -> seq<Byte>)
    ensures GenerateIdempotencyKey(a, encode, hash) == GenerateIdempotencyKey(b, encode, hash)
      <==> hash(encode(a)) == hash(encode(b))
  {
    HexRoundTrip(hash(encode(a)));
    HexRoundTrip(hash(encode(b)));
  }

  class IdempotencyStore<V> {
    const ttl: nat
    var store: map<string, Entry<V>>

    constructor (ttl: nat)
      ensures this.ttl == ttl && store == map[]
    {
      this.ttl := ttl;
      store := map[];
    }

    /** The global store: the constructor default of 86400 seconds, not the
        300 seconds of the configuration. */
    constructor Default()
      ensures ttl == DefaultTtl && ttl != IdempotencyCacheTtl && store == map[]
    {
      ttl := DefaultTtl;
      store := map[];
    }

    /** `_cleanup_expired`: collect the expired keys, then delete them one by one. */
    method CleanupExpired(now: nat)
      modifies this
      ensures store == Live(old(store), ttl, now)
    {
      var expiredKeys := set k | k in store && Expired(store[k], ttl, now);
      ghost var all := expiredKeys;
      while expiredKeys != {}
        invariant expiredKeys <= all
        invariant store.Keys == old(store).Keys - (all - expiredKeys)
        invariant forall k :: k in store ==> store[k] == old(store)[k]
        invariant all == set k | k in old(store) && Expired(old(store)[k], ttl, now)
        decreases expiredKeys
      {
        var k :| k in expiredKeys;
        store := store - {k};
        expiredKeys := expiredKeys - {k};
      }
      assert store.Keys == Live(old(store), ttl, now).Keys;
    }

    /** `get`: cleanup at `cleanupNow`, then the age check at `checkNow`. */
    method Get(key: string, cleanupNow: nat, checkNow: nat) returns (r: Option<V>)
      modifies this
      ensures r == Lookup(old(store), ttl, key, cleanupNow, checkNow)
      ensures store == AfterGet(old(store), ttl, key, cleanupNow, checkNow)
    {
      CleanupExpired(cleanupNow);
      if key in store {
        var entry := store[key];
        if checkNow - entry.timestamp <= ttl {
          return Some(entry.value);
        }
        store := store - {key};
      }
      r := None;
    }

    /** `set`: overwrite the value and refresh the timestamp of this key only. */
    method Set(key: string, value: V, now: nat)
      modifies this
      ensures store == old(store)[key := Entry(value, now)]
    {
      store := store[key := Entry(value, now)];
    }

    /** `delete`: remove the key; an absent key is a no-op. */
    method Delete(key: string)
      modifies this
      ensures store == old(store) - {key}
      ensures key !in old(store) ==> store == old(store)
    {
      if key in store {
        store := store - {key};
      }
    }
  }
}
