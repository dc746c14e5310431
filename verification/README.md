# RedisCache decision layer, in Dafny

This project models `RedisCache`, the store-backed implementation of the
`ICache` caching abstraction of Collectively.Common. The cache sits in front
of a Redis store. For each call it decides three things: whether to contact
the store, which command to send, and what to return to the caller.

Each operation is a pure function. Its inputs are the cache (its database
handle and settings), the call's arguments and the collaborators the call
uses. Its output is a `Step`: the store commands issued, in order, and the
outcome. The outcome is the returned value, or the parser's exception when
one escapes.

The collaborators are passed in as functions and are never interpreted:
- the store's replies to the three reads (`Store`);
- the JSON serialiser;
- the `Empty()` string test and the JSON parser (`Reader`).

Files:
- `types.dfy`: `Maybe`, `Result`, `TimeSpan` (as ticks) and `Double` (an opaque bit pattern).
- `keys.dfy`: key normalisation and case-insensitivity.
- `json.dfy`: the empty-payload rule of `Deserialize`.
- `redis.dfy`: the store client's surface, meaning the commands and the reply shapes.
- `redis_cache.dfy`: the availability gate, the constructor and every operation.
- `cache_contract.dfy`: the operations as one `Call` datatype, with the properties all calls share.

`GetManyAsync` does not catch the parser's exception: the loop that
deserialises the batch reply stops at the first entry the parser rejects.
In the model that entry's error is the call's outcome (`DeserializeAll`),
and no values are returned.

## Model

| member | source | states |
|---|---|---|
| `RedisCache.Create` | src/Collectively.Common/Caching/RedisCache.cs:16-22 | the built cache is available exactly when a database was supplied, its handle is non-null and the settings enable the cache |
| `RedisCache.Get` | src/Collectively.Common/Caching/RedisCache.cs:24-25 | unavailable: no command and an absent result; available: exactly one single-key read of the lower-cased key, and the outcome is the deserialised reply to that read; a value or an exception can only come from a present, non-empty payload |
| `RedisCache.DeserializeAll` | src/Collectively.Common/Caching/RedisCache.cs:38-42 | succeeds exactly when every entry deserialises, and then gives one value per store entry in store order; on failure it reports the error of the first entry that fails |
| `RedisCache.StoreKeys` | src/Collectively.Common/Caching/RedisCache.cs:37 | the batch read's keys are the caller's keys lower-cased, one for one, in input order |
| `RedisCache.GetMany` | src/Collectively.Common/Caching/RedisCache.cs:27-45 | when unavailable, or given a null or empty key array, it issues nothing and returns an empty sequence; otherwise exactly one batch read of the normalised keys in input order, and one deserialised value per store result, in order; the outcome is exactly the batch deserialisation, so it succeeds when every entry deserialises and otherwise carries the first failing entry's error |
| `RedisCache.Add` | src/Collectively.Common/Caching/RedisCache.cs:47-54 | a no-op when unavailable; otherwise exactly one string write of the serialised value to the lower-cased key, with the caller's expiry |
| `RedisCache.GeoAddPoint` | src/Collectively.Common/Caching/RedisCache.cs:56-63 | a no-op when unavailable; otherwise exactly one geo insert under the lower-cased key, forwarding longitude, latitude and name unchanged |
| `RedisCache.GeoRemovePoint` | src/Collectively.Common/Caching/RedisCache.cs:65-72 | a no-op when unavailable; otherwise exactly one geo removal of the name under the lower-cased key |
| `RedisCache.ToGeoResult` | src/Collectively.Common/Caching/RedisCache.cs:86-92 | a result always carries the member's name and distance; it has a longitude and a latitude exactly when the store entry has a position, and these are that position's coordinates |
| `RedisCache.ToGeoResults` | src/Collectively.Common/Caching/RedisCache.cs:86-92 | one result per store entry, same count and order |
| `RedisCache.GetGeoRadius` | src/Collectively.Common/Caching/RedisCache.cs:74-93 | unavailable: nothing issued and an empty sequence; available: one radius query of the lower-cased key with the caller's centre and radius; a null reply gives an empty sequence, any other reply gives one result per entry, in order |
| `RedisCache.Delete` | src/Collectively.Common/Caching/RedisCache.cs:95-102 | a no-op when unavailable; otherwise exactly one command, a string write of the serialised null to the once-lowered key with a 1 ms expiry, even though the key is lowered twice |
| `Keys.LowerChar` | src/Collectively.Common/Caching/RedisCache.cs:104 | the lowered character is never upper-case, and it differs from the input exactly for upper-case letters |
| `Keys.GetKey` | src/Collectively.Common/Caching/RedisCache.cs:104 | the store key has the caller's key's length, has each character lowered and contains no upper-case letter |
| `Keys.LowerCharAgrees` | src/Collectively.Common/Caching/RedisCache.cs:104 | two characters lower to the same character exactly when they are the same letter in either case |
| `Keys.GetKeyFixesNormalKeys` | src/Collectively.Common/Caching/RedisCache.cs:104 | lower-casing leaves a key unchanged exactly when the key has no upper-case letter |
| `Keys.GetKeyIdempotent` | src/Collectively.Common/Caching/RedisCache.cs:101-104 | lower-casing twice yields the same store key as lower-casing once |
| `Keys.GetKeyCaseInsensitive` | src/Collectively.Common/Caching/RedisCache.cs:104 | two keys map to the same store key if and only if they differ only in letter case |
| `Json.Deserialize` | src/Collectively.Common/Caching/RedisCache.cs:108-109 | an absent payload, or the empty string, gives the default null; a value or a parser error can only come from a present payload that `Empty()` rejects |
| `Json.DeserializeEmptySkipsParser` | src/Collectively.Common/Caching/RedisCache.cs:108-109 | on an empty or absent payload the result is null whatever the parser would do, so the parser is not invoked |
| `Json.DeserializeDelegatesToParser` | src/Collectively.Common/Caching/RedisCache.cs:109 | a present, non-empty payload gives exactly the parser's answer, exception included |
| `CacheContract.UnavailableIsInert` | src/Collectively.Common/Caching/RedisCache.cs:24-102 | when the cache is unavailable, every operation issues no store command and returns its empty result without failing: absent for a get, empty sequences for the batch and radius reads, nothing for the writes |
| `CacheContract.CommandsUseNormalisedKeys` | src/Collectively.Common/Caching/RedisCache.cs:24-104 | every operation issues at most one store command, and every key sent to the store is the lower-cased form of one of the call's keys |
| `CacheContract.CaseInsensitive` | src/Collectively.Common/Caching/RedisCache.cs:24-104 | two calls of the same operation whose keys differ only in letter case issue the same commands and return the same result |
| `CacheContract.DeleteIsAddOfNull` | src/Collectively.Common/Caching/RedisCache.cs:95-102 | a delete is identical to an add of null with a 1 ms expiry, whether or not the key is lowered first |
| `CacheContract.GetMissingKeyIsAbsent` | src/Collectively.Common/Caching/RedisCache.cs:24-25 | a key the store does not hold reads back as absent, never as an error |
| `CacheContract.GetEmptyPayloadIsAbsent` | src/Collectively.Common/Caching/RedisCache.cs:108-109 | a key holding the empty payload reads back as absent |

## Left out

- Sorted sets: `GetSortedSetAsync`, `AddToSortedSetAsync` and `RemoveFromSortedSetAsync` are declared in `ICache.cs` (lines 12-14) but have no implementation in `RedisCache.cs`, so top-N truncation is not modelled.
- The store itself: StackExchange.Redis is not part of this model. The replies to reads are opaque functions of the command's arguments. Writes are only logged as commands. Expiry timing and geo-distance computation are therefore not modelled. So the add-then-get round trip and the "get after delete is empty" property cannot be stated.
- JSON: Newtonsoft.Json is not part of this model. The serialiser and parser are uninterpreted parameters, and no JSON round trip is claimed.
- `Empty()`: its source is not part of this model. Two facts about it are assumed. It holds for the empty string (`Reader.Valid`). It also holds for `null`: the source calls `Empty()` on the null string a missing key reads as, and `Json.Deserialize` builds in that answer by returning the default for an absent payload without consulting `empty`.
- Exceptions thrown by the serialiser are not modelled. Neither is any exception the store client raises, error replies included (a GEOADD rejecting an out-of-range longitude or latitude, WRONGTYPE on a key of another type), nor transport faults. The source does not catch these, so they reach the caller.
- RedisCache.Add, RedisCache.GeoAddPoint, RedisCache.GeoRemovePoint, RedisCache.GetGeoRadius, RedisCache.Delete: the ensures `s.outcome.Success?` holds only because store exceptions are not modelled; in the source these calls fail whenever the store client throws.
- Null strings: a null key, or a null element of the key array, throws `NullReferenceException` in `ToLowerInvariant`. The model's keys are non-null strings.
- Null settings are not modelled either. The settings are always present and expose only the `Enabled` flag.
- `Member.ToString()` of a null geo member is not modelled: a member name is a plain string.
- Parameters the radius query leaves at the client's defaults (unit, count, order, options) are not modelled; only the key, centre and radius are recorded.
- async `Task` plumbing and concurrency: each call is a single synchronous step.
- `double` values are carried as opaque bit patterns. They are forwarded and copied, never computed with.
- `IJwtTokenHandler` is an interface with no behaviour.
- Keys.LowerChar: lowers only the ASCII letters A-Z; `ToLowerInvariant` also lowers every other upper-case Unicode character.
- Keys.LowerCharAgrees: "the same letter in either case" covers the ASCII letters only.
- Keys.GetKeyFixesNormalKeys: a normal key is one with no ASCII upper-case letter; other Unicode upper-case characters are not excluded.
- Keys.GetKey: lowers only the ASCII letters A-Z, whereas `ToLowerInvariant` lowers all of Unicode. Idempotence and case-insensitivity are proved for the ASCII lowering only.
- Keys.GetKeyCaseInsensitive: "differ only in letter case" means only the ASCII letters.
