/** `RedisCache`: the cache front-end. Each call decides from the
    availability gate and its arguments whether to contact the store, which
    command to issue and what to hand back. A call is one synchronous step:
    the commands it issues and its outcome. */
module RedisCache {
  import opened Types
  import opened Keys
  import opened Json
  import opened Redis

  /** The part of `RedisSettings` the cache consults. */
  datatype RedisSettings = RedisSettings(enabled: bool)

  /** The library's `RedisDatabase` wrapper, whose `Database` may be null. */
  datatype RedisDatabase = RedisDatabase(database: Maybe<DatabaseHandle>)

  /** The cache's two fields: the database handle (possibly null) and the
      settings. */
  datatype Cache = Cache(database: Maybe<DatabaseHandle>, settings: RedisSettings) {

    /** The availability gate: a database is present and the cache is
        enabled. */
    predicate Available() {
      database.Some? && settings.enabled
    }
  }

  /** What one call does: the store commands it issues, in order, and what it
      returns to the caller (or the exception that escapes). */
  datatype Step<+R> = Step(commands: seq<Command>, outcome: Result<R, JsonError>)

  /** The expiry a soft delete writes with: one millisecond. */
  const SoftDeleteExpiry: TimeSpan := FromMilliseconds(1)

  /** The entry a radius query hands back. */
  datatype GeoResult = GeoResult(name: string, distance: Maybe<Double>, longitude: Maybe<Double>, latitude: Maybe<Double>)

  /** The constructor: the handle is taken from the optional database. */
  function Create(database: Maybe<RedisDatabase>, settings: RedisSettings): (c: Cache)
    ensures c.Available() <==> database.HasValue() && database.value.database.HasValue() && settings.enabled
    ensures c.settings == settings
  {
    Cache(if database.HasValue() then database.value.database else None, settings)
  }

  /** `GetAsync`: one read of the normalised key when available; absent
      otherwise. */
  function Get<T>(cache: Cache, reader: Reader<T>, store: Store, key: string): (s: Step<Maybe<T>>)
    ensures !cache.Available() ==> s == Step([], Success(None))
    ensures cache.Available() ==> s.commands == [StringGet(GetKey(key))]
    ensures cache.Available() ==> s.outcome == Deserialize(reader, store.stringGet(GetKey(key)))
    ensures s.outcome.Failure? || s.outcome.value.Some? ==>
              cache.Available() && store.stringGet(GetKey(key)).Some?
              && !reader.empty(store.stringGet(GetKey(key)).value)
  {
    if cache.Available() then
      var storeKey := GetKey(key);
      Step([StringGet(storeKey)], Deserialize(reader, store.stringGet(storeKey)))
    else
      Step([], Success(None))
  }

  /** Deserialises the store's batch reply entry by entry, in order; the
      first entry the parser rejects aborts the whole batch. */
  function DeserializeAll<T>(reader: Reader<T>, results: seq<RedisValue>): (r: Result<seq<Maybe<T>>, JsonError>)
    ensures r.Success? <==> forall i :: 0 <= i < |results| ==> Deserialize(reader, results[i]).Success?
    ensures r.Success? ==> |r.value| == |results|
    ensures r.Success? ==> forall i :: 0 <= i < |results| ==> Deserialize(reader, results[i]) == Success(r.value[i])
    ensures r.Failure? ==> exists i :: 0 <= i < |results| && Deserialize(reader, results[i]) == Failure(r.error)
                                     && forall j :: 0 <= j < i ==> Deserialize(reader, results[j]).Success?
  {
    if results == [] then Success([])
    else
      match Deserialize(reader, results[0])
      case Failure(e) => Failure(e)
      case Success(v) =>
        match DeserializeAll(reader, results[1..])
        case Failure(e) =>
          ghost var k :| 0 <= k < |results[1..]| && Deserialize(reader, results[1..][k]) == Failure(e)
                         && forall j :: 0 <= j < k ==> Deserialize(reader, results[1..][j]).Success?;
          assert Deserialize(reader, results[k + 1]) == Failure(e);
          Failure(e)
        case Success(vs) => Success([v] + vs)
  }

  /** The store keys of a batch: each key normalised, in input order. */
  function StoreKeys(keys: seq<string>): (ks: seq<string>)
    ensures |ks| == |keys|
    ensures forall i :: 0 <= i < |keys| ==> ks[i] == GetKey(keys[i])
  {
    seq(|keys|, i requires 0 <= i < |keys| => GetKey(keys[i]))
  }

  /** `GetManyAsync`: nothing is read when the cache is unavailable or no
      keys (a null or empty array) are given; otherwise a single batch read
      of the normalised keys, and one value per entry of its reply. */
  function GetMany<T>(cache: Cache, reader: Reader<T>, store: Store, keys: Maybe<seq<string>>): (s: Step<seq<Maybe<T>>>)
    ensures !cache.Available() || keys.None? || keys.value == [] ==> s == Step([], Success([]))
    ensures cache.Available() && keys.Some? && keys.value != [] ==>
              && |s.commands| == 1
              && s.commands[0].StringGetMany?
              && |s.commands[0].keys| == |keys.value|
              && (forall i :: 0 <= i < |keys.value| ==> s.commands[0].keys[i] == GetKey(keys.value[i]))
    ensures cache.Available() && keys.Some? && keys.value != [] && s.outcome.Success? ==>
              var results := store.stringGetMany(StoreKeys(keys.value));
              && |s.outcome.value| == |results|
              && forall i :: 0 <= i < |results| ==> Deserialize(reader, results[i]) == Success(s.outcome.value[i])
    ensures cache.Available() && keys.Some? && keys.value != [] ==>
              s.outcome == DeserializeAll(reader, store.stringGetMany(StoreKeys(keys.value)))
  {
    if !cache.Available() then
      Step([], Success([]))
    else if keys.None? || |keys.value| == 0 then
      Step([], Success([]))
    else
      var storeKeys := StoreKeys(keys.value);
      Step([StringGetMany(storeKeys)], DeserializeAll(reader, store.stringGetMany(storeKeys)))
  }

  /** `AddAsync`: when available, one write of the serialised value to the
      normalised key with the caller's expiry; otherwise nothing. */
  function Add<V>(cache: Cache, serialize: Maybe<V> -> string, key: string, value: Maybe<V>, expiry: Maybe<TimeSpan>): (s: Step<()>)
    ensures s.outcome.Success?
    ensures !cache.Available() ==> s.commands == []
    ensures cache.Available() ==> s.commands == [StringSet(GetKey(key), serialize(value), expiry)]
  {
    if !cache.Available() then Step([], Success(()))
    else Step([StringSet(GetKey(key), serialize(value), expiry)], Success(()))
  }

  /** `GeoAddAsync`: when available, one geo insert under the normalised
      key with the caller's coordinates and name; otherwise nothing. */
  function GeoAddPoint(cache: Cache, key: string, longitude: Double, latitude: Double, name: string): (s: Step<()>)
    ensures s.outcome.Success?
    ensures !cache.Available() ==> s.commands == []
    ensures cache.Available() ==> s.commands == [GeoAdd(GetKey(key), longitude, latitude, name)]
  {
    if !cache.Available() then Step([], Success(()))
    else Step([GeoAdd(GetKey(key), longitude, latitude, name)], Success(()))
  }

  /** `GeoRemoveAsync`: when available, one geo removal of the name under
      the normalised key; otherwise nothing. */
  function GeoRemovePoint(cache: Cache, key: string, name: string): (s: Step<()>)
    ensures s.outcome.Success?
    ensures !cache.Available() ==> s.commands == []
    ensures cache.Available() ==> s.commands == [GeoRemove(GetKey(key), name)]
  {
    if !cache.Available() then Step([], Success(()))
    else Step([GeoRemove(GetKey(key), name)], Success(()))
  }

  /** Copies one entry of a radius reply: name and distance always,
      coordinates only when the entry has a position. */
  function ToGeoResult(x: GeoRadiusResult): (g: GeoResult)
    ensures g.name == x.member && g.distance == x.distance
    ensures g.longitude.Some? <==> x.position.Some?
    ensures g.latitude.Some? <==> x.position.Some?
    ensures x.position.Some? ==>
              g.longitude.value == x.position.value.longitude && g.latitude.value == x.position.value.latitude
  {
    match x.position
    case None => GeoResult(x.member, x.distance, None, None)
    case Some(p) => GeoResult(x.member, x.distance, Some(p.longitude), Some(p.latitude))
  }

  /** Maps a radius reply entry by entry, keeping count and order. */
  function ToGeoResults(results: seq<GeoRadiusResult>): (gs: seq<GeoResult>)
    ensures |gs| == |results|
    ensures forall i :: 0 <= i < |results| ==> gs[i] == ToGeoResult(results[i])
  {
    if results == [] then [] else [ToGeoResult(results[0])] + ToGeoResults(results[1..])
  }

  /** `GetGeoRadiusAsync`: when available, one radius query of the
      normalised key with the caller's centre and radius; a null reply is
      an empty sequence. */
  function GetGeoRadius(cache: Cache, store: Store, key: string, longitude: Double, latitude: Double, radius: Double): (s: Step<seq<GeoResult>>)
    ensures s.outcome.Success?
    ensures !cache.Available() ==> s == Step([], Success([]))
    ensures cache.Available() ==> s.commands == [GeoRadius(GetKey(key), longitude, latitude, radius)]
    ensures cache.Available() && store.geoRadius(GetKey(key), longitude, latitude, radius).None? ==> s.outcome.value == []
    ensures cache.Available() && store.geoRadius(GetKey(key), longitude, latitude, radius).Some? ==>
              var results := store.geoRadius(GetKey(key), longitude, latitude, radius).value;
              && |s.outcome.value| == |results|
              && forall i :: 0 <= i < |results| ==> s.outcome.value[i] == ToGeoResult(results[i])
  {
    if !cache.Available() then
      Step([], Success([]))
    else
      var storeKey := GetKey(key);
      var reply := store.geoRadius(storeKey, longitude, latitude, radius);
      if reply.None? then Step([GeoRadius(storeKey, longitude, latitude, radius)], Success([]))
      else Step([GeoRadius(storeKey, longitude, latitude, radius)], Success(ToGeoResults(reply.value)))
  }

  /** `DeleteAsync`: a soft delete. When available it writes the serialised
      `null` to the normalised key with a one-millisecond expiry, through
      `AddAsync` (which normalises the key a second time). */
  function Delete<V>(cache: Cache, serialize: Maybe<V> -> string, key: string): (s: Step<()>)
    ensures s.outcome.Success?
    ensures !cache.Available() ==> s.commands == []
    ensures cache.Available() ==> s.commands == [StringSet(GetKey(key), serialize(None), Some(SoftDeleteExpiry))]
  {
    if !cache.Available() then Step([], Success(()))
    else
      GetKeyIdempotent(key);
      Add(cache, serialize, GetKey(key), None, Some(FromMilliseconds(1)))
  }
}
