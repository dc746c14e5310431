/** The `ICache` surface as data: one constructor per operation the store-backed
    cache implements, one dispatcher that runs a call against the cache, and
    the properties every call shares — the availability gate, at most one
    store command, normalised keys and case-insensitivity. */
module CacheContract {
  import opened Types
  import opened Keys
  import opened Json
  import opened Redis
  import opened RedisCache

  /** One call of the cache, with its arguments. */
  datatype Call<V> =
    | GetCall(key: string)
    | GetManyCall(keys: Maybe<seq<string>>)
    | AddCall(key: string, value: Maybe<V>, expiry: Maybe<TimeSpan>)
    | GeoAddCall(key: string, longitude: Double, latitude: Double, name: string)
    | GeoRemoveCall(key: string, name: string)
    | GetGeoRadiusCall(key: string, longitude: Double, latitude: Double, radius: Double)
    | DeleteCall(key: string)

  /** What a call hands back: nothing (a write), one value, a batch of
      values, or the entries of a radius query. */
  datatype Reply<T> =
    | Done
    | Value(value: Maybe<T>)
    | Values(values: seq<Maybe<T>>)
    | Places(places: seq<GeoResult>)

  /** The keys a call names. */
  function CallKeys<V>(call: Call<V>): seq<string> {
    match call
    case GetCall(k) => [k]
    case GetManyCall(ks) => if ks.Some? then ks.value else []
    case AddCall(k, _, _) => [k]
    case GeoAddCall(k, _, _, _) => [k]
    case GeoRemoveCall(k, _) => [k]
    case GetGeoRadiusCall(k, _, _, _) => [k]
    case DeleteCall(k) => [k]
  }

  /** The reply a call gives when the store is not touched. */
  function EmptyReply<V, T>(call: Call<V>): Reply<T> {
    match call
    case GetCall(_) => Value(None)
    case GetManyCall(_) => Values([])
    case GetGeoRadiusCall(_, _, _, _) => Places([])
    case _ => Done
  }

  function WrapOutcome<R, T>(s: Step<R>, wrap: R -> Reply<T>): Step<Reply<T>> {
    Step(s.commands, match s.outcome case Success(v) => Success(wrap(v)) case Failure(e) => Failure(e))
  }

  /** Runs one call against the cache. */
  function Run<V, T>(cache: Cache, serialize: Maybe<V> -> string, reader: Reader<T>, store: Store, call: Call<V>): Step<Reply<T>> {
    match call
    case GetCall(k) => WrapOutcome(Get(cache, reader, store, k), v => Value(v))
    case GetManyCall(ks) => WrapOutcome(GetMany(cache, reader, store, ks), vs => Values(vs))
    case AddCall(k, v, e) => WrapOutcome(Add(cache, serialize, k, v, e), _ => Done)
    case GeoAddCall(k, lon, lat, n) => WrapOutcome(GeoAddPoint(cache, k, lon, lat, n), _ => Done)
    case GeoRemoveCall(k, n) => WrapOutcome(GeoRemovePoint(cache, k, n), _ => Done)
    case GetGeoRadiusCall(k, lon, lat, r) => WrapOutcome(GetGeoRadius(cache, store, k, lon, lat, r), ps => Places(ps))
    case DeleteCall(k) => WrapOutcome(Delete(cache, serialize, k), _ => Done)
  }

  /** When the cache is unavailable no call contacts the store: reads give
      absent or empty results and writes do nothing. */
  lemma UnavailableIsInert<V, T>(cache: Cache, serialize: Maybe<V> -> string, reader: Reader<T>, store: Store, call: Call<V>)
    requires !cache.Available()
    ensures Run(cache, serialize, reader, store, call) == Step([], Success(EmptyReply(call)))
  {
  }

  /** Every call issues at most one store command, and every key it sends is
      the lower-cased form of a key of the call. */
  lemma CommandsUseNormalisedKeys<V, T>(cache: Cache, serialize: Maybe<V> -> string, reader: Reader<T>, store: Store, call: Call<V>)
    ensures |Run(cache, serialize, reader, store, call).commands| <= 1
    ensures forall c, k :: c in Run(cache, serialize, reader, store, call).commands && k in c.Keys() ==>
              IsNormalKey(k) && exists key :: key in CallKeys(call) && k == GetKey(key)
  {
    var cmds := Run(cache, serialize, reader, store, call).commands;
    forall c, k | c in cmds && k in c.Keys()
      ensures IsNormalKey(k) && exists key :: key in CallKeys(call) && k == GetKey(key)
    {
      if call.GetManyCall? {
        var i :| 0 <= i < |c.Keys()| && c.Keys()[i] == k;
        assert CallKeys(call)[i] in CallKeys(call);
      } else {
        assert CallKeys(call)[0] in CallKeys(call);
      }
    }
  }

  /** Two calls of the same operation with the same arguments, whose keys
      differ only in letter case. */
  ghost predicate SameCallIgnoringCase<V>(a: Call<V>, b: Call<V>) {
    match (a, b)
    case (GetCall(k1), GetCall(k2)) => SameIgnoringCase(k1, k2)
    case (GetManyCall(ks1), GetManyCall(ks2)) =>
      && ks1.Some? == ks2.Some?
      && (ks1.Some? ==>
            |ks1.value| == |ks2.value| && forall i :: 0 <= i < |ks1.value| ==> SameIgnoringCase(ks1.value[i], ks2.value[i]))
    case (AddCall(k1, v1, e1), AddCall(k2, v2, e2)) => SameIgnoringCase(k1, k2) && v1 == v2 && e1 == e2
    case (GeoAddCall(k1, lon1, lat1, n1), GeoAddCall(k2, lon2, lat2, n2)) =>
      SameIgnoringCase(k1, k2) && lon1 == lon2 && lat1 == lat2 && n1 == n2
    case (GeoRemoveCall(k1, n1), GeoRemoveCall(k2, n2)) => SameIgnoringCase(k1, k2) && n1 == n2
    case (GetGeoRadiusCall(k1, lon1, lat1, r1), GetGeoRadiusCall(k2, lon2, lat2, r2)) =>
      SameIgnoringCase(k1, k2) && lon1 == lon2 && lat1 == lat2 && r1 == r2
    case (DeleteCall(k1), DeleteCall(k2)) => SameIgnoringCase(k1, k2)
    case _ => false
  }

  /** Keys are case-insensitive: two calls that differ only in the letter
      case of their keys issue the same commands and give the same reply. */
  lemma CaseInsensitive<V, T>(cache: Cache, serialize: Maybe<V> -> string, reader: Reader<T>, store: Store, a: Call<V>, b: Call<V>)
    requires SameCallIgnoringCase(a, b)
    ensures Run(cache, serialize, reader, store, a) == Run(cache, serialize, reader, store, b)
  {
    if a.GetManyCall? {
      if a.keys.Some? {
        forall i | 0 <= i < |a.keys.value|
          ensures GetKey(a.keys.value[i]) == GetKey(b.keys.value[i])
        {
          GetKeyCaseInsensitive(a.keys.value[i], b.keys.value[i]);
        }
        assert StoreKeys(a.keys.value) == StoreKeys(b.keys.value);
      }
    } else {
      GetKeyCaseInsensitive(a.key, b.key);
    }
  }

  /** A soft delete is the write of `null` with a one-millisecond expiry,
      whether or not the caller's key is lower-cased first. */
  lemma DeleteIsAddOfNull<V>(cache: Cache, serialize: Maybe<V> -> string, key: string)
    ensures Delete(cache, serialize, key) == Add(cache, serialize, GetKey(key), None, Some(SoftDeleteExpiry))
    ensures Delete(cache, serialize, key) == Add(cache, serialize, key, None, Some(SoftDeleteExpiry))
  {
    GetKeyIdempotent(key);
  }

  /** A key the store does not hold reads back as absent. */
  lemma GetMissingKeyIsAbsent<T>(cache: Cache, reader: Reader<T>, store: Store, key: string)
    requires store.stringGet(GetKey(key)).None?
    ensures Get(cache, reader, store, key).outcome == Success(None)
  {
  }

  /** A key holding the empty payload reads back as absent, and the parser is
      not consulted. */
  lemma GetEmptyPayloadIsAbsent<T>(cache: Cache, reader: Reader<T>, store: Store, key: string)
    requires reader.Valid()
    requires store.stringGet(GetKey(key)) == Some("")
    ensures Get(cache, reader, store, key).outcome == Success(None)
  {
  }
}
