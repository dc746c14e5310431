/** The surface of the store client the cache talks to. Its behaviour is not
    modelled: a read's reply is an opaque function of the command's
    arguments, and writes are only recorded as issued commands. */
module Redis {
  import opened Types

  /** A `RedisValue` read back from a string key; `None` is the null value
      the store returns for a missing key. */
  type RedisValue = Maybe<string>

  /** An opaque handle to a store database (`IDatabase`). */
  datatype DatabaseHandle = DatabaseHandle(id: nat)

  datatype GeoPosition = GeoPosition(longitude: Double, latitude: Double)

  /** One entry of a radius query's reply. */
  datatype GeoRadiusResult = GeoRadiusResult(member: string, distance: Maybe<Double>, position: Maybe<GeoPosition>)

  /** A command sent to the store. */
  datatype Command =
    | StringGet(key: string)
    | StringGetMany(keys: seq<string>)
    | StringSet(key: string, payload: string, expiry: Maybe<TimeSpan>)
    | GeoAdd(key: string, longitude: Double, latitude: Double, member: string)
    | GeoRemove(key: string, member: string)
    | GeoRadius(key: string, longitude: Double, latitude: Double, radius: Double)
  {
    /** Every key the command names. */
    function Keys(): seq<string> {
      match this
      case StringGetMany(ks) => ks
      case StringGet(k) => [k]
      case StringSet(k, _, _) => [k]
      case GeoAdd(k, _, _, _) => [k]
      case GeoRemove(k, _) => [k]
      case GeoRadius(k, _, _, _) => [k]
    }
  }

  /** The store's replies to the three reads, as seen at the time of a call. */
  datatype Store = Store(stringGet: string -> RedisValue,
                         stringGetMany: seq<string> -> seq<RedisValue>,
                         geoRadius: (string, Double, Double, Double) -> Maybe<seq<GeoRadiusResult>>)
}
