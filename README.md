# Redis Connector plugin — a Dafny model

This project models the core of the Halo "Redis Connector" plugin. The plugin
gives other Halo plugins one shared Redis connection. Its parts are modelled
as follows.

- **The connection facade** (`RedisClientImpl`, module `Facade`). It owns at
  most one Jedis connection pool and a cached `available` flag.
  - `initialize` (first call wins, settings from the host environment),
    `initializeWithConfig` (always tears down and rebuilds) and `shutdown`
    drive it.
  - Every data operation goes through the `execute` template. That template
    answers a fixed per-operation default whenever the facade is unavailable
    or the command fails.
  - Pools are objects whose only state is whether they were closed. A ghost
    set of every pool ever built proves that at most one pool is open and
    that it is the current one.
- **The global holder and the static entry point** (`RedisClientHolder`,
  `Redis`; modules `Holder` and `RedisApi`). These are how other plugins
  reach the facade.
- **Configuration resolution** (`RedisConfigService`, module
  `ConfigService`). It decides between the host's Redis settings ("halo"),
  the plugin's own ConfigMap ("plugin") and none. It also reads and saves the
  plugin settings, and runs the reconnect flow.
- **The console's HTTP handlers** (`RedisEndpoint`, module `Endpoint`):
  - the connection test;
  - key listing, with wildcard wrapping and a limit;
  - reading a key by its type;
  - writing a string key, with or without a TTL;
  - deleting a key.
- **The plugin lifecycle** (`RedisConnectorPlugin`, module `Plugin`).
- **The documented results of the `RedisClient` operations.** These are
  modelled as one function `Keyspace.Apply` over an immutable Redis
  keyspace. Supporting modules give it the Redis rules it relies on:
  - `Decimal`: integer text, for INCR;
  - `SortedSet`: sorted-set order, for ZADD and ZREVRANGE;
  - `Glob`: KEYS patterns;
  - `Text`: Java's `equalsIgnoreCase` and byte-wise string order.

The outside world appears as inputs:
- the liveness probe (PING on a fresh pool);
- the failure of a command or of a direct connection call;
- the iteration order of the Java `Set` of keys that Jedis returns for KEYS;
- the outcome of updating the ConfigMap;
- the JSON codec, as a pair of abstract functions.

The Redis server is the keyspace value that operations read and return.

Two behaviours of the code are worth stating outright:

- A pool whose probe fails stays assigned and open, and only `shutdown`
  closes it (`RedisClientImpl.java:124-155`). The facade can therefore end
  up "pool present, not available", and a later `initialize` then does
  nothing. `Facade.RedisClientImpl.DoInitialize` and `Initialize` state
  exactly that.
- `reconnect` shuts the old client down before building the new one, and
  has no fallback to the previous state (`RedisConfigService.java:143-183`).
  `ConfigService.Reconnect` models that.

## Model

| member | source | states |
|---|---|---|
| Facade.RedisClientImpl.constructor | app/src/main/java/com/xhhao/redisconnector/service/RedisClientImpl.java:46-50 | a new facade has no pool, is unavailable, and satisfies the invariant (available ⇒ pool; the pool is the only open pool) |
| Facade.RedisClientImpl.IsAvailable | app/src/main/java/com/xhhao/redisconnector/service/RedisClientImpl.java:53-55 | available exactly when the flag is set and a pool exists; availability implies a pool |
| Facade.RedisClientImpl.AvailableIsFlag | app/src/main/java/com/xhhao/redisconnector/service/RedisClientImpl.java:53-55 | under the invariant, `isAvailable()` equals the `available` flag |
| Facade.RedisClientImpl.GetJedisPool | app/src/main/java/com/xhhao/redisconnector/service/RedisClientImpl.java:41-43 | the getter returns the current pool, null when there is none; an available facade always has one |
| Facade.RedisClientImpl.Initialize | app/src/main/java/com/xhhao/redisconnector/service/RedisClientImpl.java:60-84 | with a pool already present (including a pool whose probe failed), or with `halo.redis.enabled` not case-insensitively "true", nothing changes; otherwise exactly one fresh pool is built from the environment settings, and availability is the probe's outcome; the invariant is kept |
| Facade.HaloSettings | app/src/main/java/com/xhhao/redisconnector/service/RedisClientImpl.java:60-84 | each connection property as set in the environment, else localhost, 6379, "" and 0; the port and database are the `Integer.parseInt` values of the properties, within the int range |
| Facade.HaloSettingsDefaults | app/src/main/java/com/xhhao/redisconnector/service/RedisClientImpl.java:76-79 | with no connection properties, `initialize` connects to localhost:6379, database 0, with an empty password |
| Facade.DefaultNumbersParse | app/src/main/java/com/xhhao/redisconnector/service/RedisClientImpl.java:77-79 | the default strings "6379" and "0" parse to 6379 and 0 |
| Facade.RedisClientImpl.InitializeWithConfig | app/src/main/java/com/xhhao/redisconnector/service/RedisClientImpl.java:94-102 | an existing pool is closed first; then exactly one fresh pool is built for the given host, port, password and database, and availability is the probe's outcome; every earlier pool is closed |
| Facade.RedisClientImpl.Shutdown | app/src/main/java/com/xhhao/redisconnector/service/RedisClientImpl.java:107-119 | afterwards there is no pool and the facade is unavailable; the old pool is closed; with no pool nothing changes at all, so a second call is harmless |
| Facade.RedisClientImpl.DoInitialize | app/src/main/java/com/xhhao/redisconnector/service/RedisClientImpl.java:124-155 | the new pool is assigned before the probe and stays assigned and open whatever the probe says; `available` is true exactly when the probe succeeds |
| Facade.BuildClientConfig | app/src/main/java/com/xhhao/redisconnector/service/RedisClientImpl.java:132-141 | timeouts 10000/5000 ms and the given database; credentials (user "default" and the password) are present exactly when the password is non-null and non-empty |
| Facade.JedisPool.constructor | app/src/main/java/com/xhhao/redisconnector/service/RedisClientImpl.java:143 | a new pool holds its endpoint and configuration and is open |
| Facade.JedisPool.Close | app/src/main/java/com/xhhao/redisconnector/service/RedisClientImpl.java:110 | a closed pool stays closed |
| Facade.ReinitializeTwiceUnreachable | app/src/main/java/com/xhhao/redisconnector/service/RedisClientImpl.java:94-102 | rebuilding twice against an unreachable server leaves the facade unavailable with a pool, and every other pool closed |
| Facade.MonoOf | app/src/main/java/com/xhhao/redisconnector/service/RedisClientImpl.java:168 | a callable's null result completes empty; any other result is emitted as is; it never fails |
| Facade.Just | app/src/main/java/com/xhhao/redisconnector/service/RedisClientImpl.java:166 | `Mono.just` fails with a NullPointerException exactly for a null value, and emits any other value as is |
| Facade.ExecuteAsWritten | app/src/main/java/com/xhhao/redisconnector/service/RedisClientImpl.java:164-174 | the template as written raises exactly when the facade is unavailable or the call fails and the default is null; whenever it does not raise it agrees with the corrected template |
| Facade.ExecuteSignal | app/src/main/java/com/xhhao/redisconnector/service/RedisClientImpl.java:164-174 | the corrected template: never fails; unavailable or failed call gives the default, null default as empty; otherwise the call's result |
| Facade.NullDefaultRaisesAsWritten | app/src/main/java/com/xhhao/redisconnector/service/RedisClientImpl.java:164-174 | as written, a null-default operation raises a NullPointerException when the facade is unavailable or the call fails; the corrected template does not |
| Facade.FixKeepsOtherDefaults | app/src/main/java/com/xhhao/redisconnector/service/RedisClientImpl.java:164-174 | for every operation with a non-null default, the corrected and the written template agree on all inputs |
| Facade.Default | app/src/main/java/com/xhhao/redisconnector/service/RedisClientImpl.java:185-273 | each operation's default fits its result type, and is null exactly for set, setEx, get and hget |
| Facade.DefaultIsMissingKeyReply | app/src/main/java/com/xhhao/redisconnector/service/RedisClientImpl.java:185-273 | for read-only operations and for del/expire, the default is exactly what the server answers for a missing key (e.g. ttl's -2) |
| Facade.Run | app/src/main/java/com/xhhao/redisconnector/service/RedisClientImpl.java:179-183 | a command that throws (transport fault or error reply) leaves the server unchanged |
| Facade.RedisClientImpl.Execute | app/src/main/java/com/xhhao/redisconnector/service/RedisClientImpl.java:164-174 | the facade with the corrected template (`Facade.ExecuteSignal`): never fails; unavailable: the default and the server untouched; a fault or an error reply: the default and the server untouched; otherwise the store's reply and new state |
| Holder.RedisClientHolder.constructor | api/src/main/java/com/xhhao/redisconnector/api/internal/RedisClientHolder.java:16 | the slot starts empty |
| Holder.RedisClientHolder.GetClient | api/src/main/java/com/xhhao/redisconnector/api/internal/RedisClientHolder.java:21-23 | `getClient()` returns whatever the slot holds, null when no client is registered |
| Holder.RedisClientHolder.SetClient | api/src/main/java/com/xhhao/redisconnector/api/internal/RedisClientHolder.java:25-27 | `getClient()` afterwards returns the client just set, overwriting any earlier one |
| Holder.RedisClientHolder.Clear | api/src/main/java/com/xhhao/redisconnector/api/internal/RedisClientHolder.java:29-31 | `getClient()` afterwards returns null; the slot is the only state touched, so clearing twice is the same as once |
| RedisApi.IsAvailable | api/src/main/java/com/xhhao/redisconnector/api/Redis.java:68-71 | true exactly when a client is registered and it reports available |
| RedisApi.GetJedisPool | api/src/main/java/com/xhhao/redisconnector/api/Redis.java:96-99 | null without a client, else the client's pool |
| RedisApi.Call | api/src/main/java/com/xhhao/redisconnector/api/Redis.java:57-243 | fails with the "not initialized" IllegalStateException exactly when no client is registered; otherwise exactly the registered client's `Execute` of the operation (it delegates without further checks), which with the corrected template (`Facade.ExecuteSignal`) never fails |
| RedisApi.DegradedClientAnswersDefault | api/src/main/java/com/xhhao/redisconnector/api/Redis.java:104-107 | with the corrected template (`Facade.ExecuteSignal`), a registered but unavailable client yields its default, not an error, and the server is untouched |
| RedisApi.AvailableCallIsCommand | api/src/main/java/com/xhhao/redisconnector/api/Redis.java:104-107 | with an available client, a call is the command on the server, or the default when the server rejects it |
| ConfigService.ConfigSource | app/src/main/java/com/xhhao/redisconnector/service/RedisConfigService.java:48-66 | "halo" iff enabled is "true" ignoring case and the halo host is non-empty; else "plugin" iff the plugin host is non-empty; else "none" |
| ConfigService.ActiveConfig | app/src/main/java/com/xhhao/redisconnector/service/RedisConfigService.java:73-81 | the active host/port/database are the winning source's (plugin defaults "6379" and "0"), absent exactly for "none"; an active host is never empty |
| ConfigService.GetFullStatus | app/src/main/java/com/xhhao/redisconnector/service/RedisConfigService.java:38-85 | each field is read from its origin: the enabled property as set (default "false"), the Halo flags and endpoint from the environment, the plugin flags and endpoint from the stored settings, the source and the active endpoint as `ConfigSource`/`ActiveConfig` decide; the named source is the one whose settings are active, and `available` is the facade's |
| ConfigService.GetRedisConfig | app/src/main/java/com/xhhao/redisconnector/service/RedisConfigService.java:90-106 | empty when the ConfigMap is missing, its data is null, it has no "redis" entry, or that entry does not decode; otherwise the decoded entry |
| ConfigService.WithRedisGroup | app/src/main/java/com/xhhao/redisconnector/service/RedisConfigService.java:115-120 | the encoded settings sit under "redis"; null data becomes a map holding only that entry; every other entry is kept |
| ConfigService.SaveThenGet | app/src/main/java/com/xhhao/redisconnector/service/RedisConfigService.java:90-120 | reading back after a save returns the saved settings whenever the codec round-trips them |
| ConfigService.ExtensionClient.constructor | app/src/main/java/com/xhhao/redisconnector/service/RedisConfigService.java:31 | the store holds the given ConfigMaps |
| ConfigService.ExtensionClient.Fetch | app/src/main/java/com/xhhao/redisconnector/service/RedisConfigService.java:112 | fetching gives the named ConfigMap, or nothing when it is missing |
| ConfigService.ExtensionClient.Update | app/src/main/java/com/xhhao/redisconnector/service/RedisConfigService.java:121 | an accepted update replaces the ConfigMap; a rejected one changes nothing |
| ConfigService.SaveRedisConfig | app/src/main/java/com/xhhao/redisconnector/service/RedisConfigService.java:111-137 | no answer for a missing ConfigMap; success exactly when encoding and update both succeed, with the saved message and the settings stored under "redis"; otherwise "保存失败: " plus the error, and nothing stored |
| ConfigService.PluginSettings | app/src/main/java/com/xhhao/redisconnector/service/RedisConfigService.java:162-171 | host, password, port and database as stored in the plugin settings, else "", "", 6379 and 0; port and database are the `Integer.parseInt` values, within the int range |
| ConfigService.PluginSettingsDefaults | app/src/main/java/com/xhhao/redisconnector/service/RedisConfigService.java:162-171 | plugin settings naming only a host connect on port 6379, database 0, with an empty password |
| ConfigService.Reconnect | app/src/main/java/com/xhhao/redisconnector/service/RedisConfigService.java:143-183 | shuts the old pool down first; with no source: success false, "未配置 Redis 连接信息", no source, no pool; otherwise a fresh pool from the winning source, the source reported, and success/available/message all follow the facade's availability |
| Endpoint.SearchPattern | app/src/main/java/com/xhhao/redisconnector/endpoint/RedisEndpoint.java:194 | unchanged when it has a '*', else wrapped as "*p*"; the result always has a '*' |
| Endpoint.SearchPatternIdempotent | app/src/main/java/com/xhhao/redisconnector/endpoint/RedisEndpoint.java:194 | wrapping twice is wrapping once |
| Endpoint.PlainPatternFindsSubstrings | app/src/main/java/com/xhhao/redisconnector/endpoint/RedisEndpoint.java:193-195 | a pattern without wildcards finds exactly the keys containing it |
| Glob.Match | app/src/main/java/com/xhhao/redisconnector/endpoint/RedisEndpoint.java:194-195 | the KEYS pattern match: a pattern without wildcards matches only itself, one without `*` only strings of its own length |
| Glob.WrappedLiteralIsSubstringSearch | app/src/main/java/com/xhhao/redisconnector/endpoint/RedisEndpoint.java:193-195 | "*p*" matches exactly the strings containing p |
| Endpoint.ListKeys | app/src/main/java/com/xhhao/redisconnector/endpoint/RedisEndpoint.java:178-216 | empty when unavailable or on a failure; otherwise the first min(limit, n) matching keys in the iteration order of the key set Jedis returns, none for limit ≤ 0, each with key == fullKey and its type and TTL from the server |
| Endpoint.ReadByType | app/src/main/java/com/xhhao/redisconnector/endpoint/RedisEndpoint.java:243-250 | a value is read exactly when the key exists and the type name is the key's own type |
| Endpoint.ReadKey | app/src/main/java/com/xhhao/redisconnector/endpoint/RedisEndpoint.java:229-252 | no pool: "Pool not available"; a failed call: its exception message; otherwise the key, its type and TTL as the server reports them, and a value exactly for a present key |
| Endpoint.GetData | app/src/main/java/com/xhhao/redisconnector/endpoint/RedisEndpoint.java:221-257 | "Redis not available" when unavailable; the exception message when the connection call fails; otherwise the key, its type and TTL as the server reports them, and a value exactly for a present key |
| Endpoint.GetDataShowsStoredValue | app/src/main/java/com/xhhao/redisconnector/endpoint/RedisEndpoint.java:234-252 | the key's type and TTL, and the value of the stored kind read by get/lrange/smembers/zrange/hgetAll; a missing key shows "none", -2 and no value |
| Endpoint.UnknownTypeHasNoValue | app/src/main/java/com/xhhao/redisconnector/endpoint/RedisEndpoint.java:243-250 | a type name outside the five readers gives no value |
| Endpoint.WriteCommand | app/src/main/java/com/xhhao/redisconnector/endpoint/RedisEndpoint.java:276-278 | a positive TTL selects SETEX with that TTL, anything else SET |
| Endpoint.SetDataAnswer | app/src/main/java/com/xhhao/redisconnector/endpoint/RedisEndpoint.java:280-286 | success with "保存成功" exactly for a written value; no response for an empty completion; failure with the exception's message for an error signal |
| Endpoint.SetData | app/src/main/java/com/xhhao/redisconnector/endpoint/RedisEndpoint.java:261-287 | a missing key or value gives success false with "key 和 value 不能为空" and writes nothing; the server stays well formed; a success always carries "保存成功" |
| Endpoint.SetDataStores | app/src/main/java/com/xhhao/redisconnector/endpoint/RedisEndpoint.java:262-283 | on an available facade: success with "保存成功"; the key reads back as the value; its TTL is the given one when positive and -1 otherwise (the default TTL is -1) |
| Endpoint.SetDataDegraded | app/src/main/java/com/xhhao/redisconnector/endpoint/RedisEndpoint.java:276-286 | with the corrected template (`Facade.ExecuteSignal`), unavailable or failed: nothing is written and no response is produced |
| Endpoint.DeleteAnswer | app/src/main/java/com/xhhao/redisconnector/endpoint/RedisEndpoint.java:296-303 | success with "删除成功" exactly for a positive deleted count, else "Key 不存在"; no response for an empty completion; failure with the exception's message for an error signal |
| Endpoint.DeleteData | app/src/main/java/com/xhhao/redisconnector/endpoint/RedisEndpoint.java:292-304 | always answers; a success carries "删除成功"; unavailable or failed: "Key 不存在", success false, nothing changes |
| Endpoint.DeleteSucceedsIffPresent | app/src/main/java/com/xhhao/redisconnector/endpoint/RedisEndpoint.java:296-300 | success iff the key existed (the deleted count is positive), with the matching message; the key is gone |
| Endpoint.TestAnswer | app/src/main/java/com/xhhao/redisconnector/endpoint/RedisEndpoint.java:127-140 | no response when the write or the read completes empty; an error adds only "error" (no "message"); after a write "writeSuccess" is whether it answered "OK"; a read value gives "Redis working!" exactly when it equals the value written |
| Endpoint.TestConnection | app/src/main/java/com/xhhao/redisconnector/endpoint/RedisEndpoint.java:115-141 | unavailable: "Redis not available" and no write; the server stays well formed; whenever a value was read back, the message is "Redis working!" exactly when it equals the value written |
| Endpoint.HealthyServerWorks | app/src/main/java/com/xhhao/redisconnector/endpoint/RedisEndpoint.java:124-135 | a healthy server passes: write acknowledged, value read back, "Redis working!", and only the test key changes |
| Plugin.RedisConnectorPlugin.constructor | app/src/main/java/com/xhhao/redisconnector/RedisConnectorPlugin.java:24-30 | the plugin holds its facade and the holder |
| Plugin.RedisConnectorPlugin.Start | app/src/main/java/com/xhhao/redisconnector/RedisConnectorPlugin.java:32-41 | whichever of reconnect and registration finishes first, the client ends registered and reconnected: old pool closed, no pool with no source, else a fresh pool whose availability is the probe's |
| Plugin.RedisConnectorPlugin.Stop | app/src/main/java/com/xhhao/redisconnector/RedisConnectorPlugin.java:43-49 | the holder is empty, the facade has no pool and is unavailable, the old pool is closed; stopping a stopped plugin changes nothing |
| Plugin.RedisConnectorPlugin.StopTwice | app/src/main/java/com/xhhao/redisconnector/RedisConnectorPlugin.java:43-49 | two stops are safe and leave every pool closed |
| Keyspace.Apply | api/src/main/java/com/xhhao/redisconnector/api/RedisClient.java:28-186 | every successful command keeps the keyspace well formed and answers in its documented result type; read-only commands change nothing; set, del, exists, expire and ttl never fail |
| Keyspace.SetThenGet | api/src/main/java/com/xhhao/redisconnector/api/RedisClient.java:28-53 | set answers "OK"; get then returns the value; the key has no expiry; other keys are untouched |
| Keyspace.SetExThenTtl | api/src/main/java/com/xhhao/redisconnector/api/RedisClient.java:37-45 | setEx fails exactly for a non-positive expiry; otherwise "OK", get returns the value and ttl the seconds |
| Keyspace.GetMissing | api/src/main/java/com/xhhao/redisconnector/api/RedisClient.java:47-53 | get of a missing key returns null |
| Keyspace.DelCountsDeleted | api/src/main/java/com/xhhao/redisconnector/api/RedisClient.java:55-61 | del returns the number of keys deleted (1 or 0) and the key is gone (exists false, ttl -2) |
| Keyspace.IncrReturnsNewValue | api/src/main/java/com/xhhao/redisconnector/api/RedisClient.java:63-78 | incrBy returns the counter plus the increment, and the key then holds that number as text |
| Keyspace.IncrByComposes | api/src/main/java/com/xhhao/redisconnector/api/RedisClient.java:71-78 | incrBy(a) then incrBy(b) equals incrBy(a + b), reply and state |
| Decimal.RedisIntRoundTrip | api/src/main/java/com/xhhao/redisconnector/api/RedisClient.java:63-78 | the stored decimal text of every 64-bit counter reads back as that counter |
| Decimal.RedisIntCanonical | api/src/main/java/com/xhhao/redisconnector/api/RedisClient.java:63-78 | text accepted as an integer is exactly the canonical text of its value |
| Decimal.ParseJavaInt | app/src/main/java/com/xhhao/redisconnector/service/RedisConfigService.java:169-171 | `Integer.parseInt` accepts only non-empty text and yields a value in the int range |
| Decimal.JavaIntRoundTrip | app/src/main/java/com/xhhao/redisconnector/service/RedisConfigService.java:169-171 | every int's decimal text parses back to it |
| Keyspace.HSetThenHGet | api/src/main/java/com/xhhao/redisconnector/api/RedisClient.java:80-97 | hset returns 1 for a new field and 0 for an update, hget then returns the value; hget of a missing field returns null |
| Keyspace.WholeCollections | api/src/main/java/com/xhhao/redisconnector/api/RedisClient.java:99-122 | hgetAll and smembers return the whole stored hash or set, empty for a missing key |
| Keyspace.SAddCountsNew | api/src/main/java/com/xhhao/redisconnector/api/RedisClient.java:107-114 | sadd returns the number of members that were new, and each given member is then present |
| Keyspace.SIsMemberIffPresent | api/src/main/java/com/xhhao/redisconnector/api/RedisClient.java:124-131 | sismember is true exactly when the member is in the set |
| Keyspace.ZAddCountsNew | api/src/main/java/com/xhhao/redisconnector/api/RedisClient.java:133-141 | zadd returns 1 for a new member and 0 for a score update, and the member then has that score |
| SortedSet.Upsert | api/src/main/java/com/xhhao/redisconnector/api/RedisClient.java:133-141 | adding or re-scoring keeps the set ordered and duplicate-free, gives the member the score and leaves all other scores alone |
| Keyspace.ZRevRangeByDescendingScore | api/src/main/java/com/xhhao/redisconnector/api/RedisClient.java:143-151 | zrevrange returns the members of the picked range in descending score order |
| SortedSet.RevRangeDescending | api/src/main/java/com/xhhao/redisconnector/api/RedisClient.java:143-151 | the picked entries are in descending (score, member) order and the reply names exactly them |
| Keyspace.LeaderboardExample | api/src/main/java/com/xhhao/redisconnector/api/RedisClient.java:133-151 | zadd alice 100, zadd bob 50, zrevrange 0 1 gives ["alice", "bob"] |
| Keyspace.ZIncrByAdds | api/src/main/java/com/xhhao/redisconnector/api/RedisClient.java:153-161 | zincrby returns the old score (0 when absent) plus the increment, and the member then has it |
| Keyspace.ExistsIffPresent | api/src/main/java/com/xhhao/redisconnector/api/RedisClient.java:163-169 | exists is true exactly for a present key |
| Keyspace.ExpireReply | api/src/main/java/com/xhhao/redisconnector/api/RedisClient.java:171-178 | expire returns 1 when the key exists and 0 when it does not; a positive expiry is then reported by ttl |
| Keyspace.TtlSentinels | api/src/main/java/com/xhhao/redisconnector/api/RedisClient.java:180-186 | ttl returns -2 for a missing key, -1 for a key without expiry, else a positive number of seconds |

## Left out

- Reactor scheduling, the `volatile` fields and the double-checked `synchronized` blocks are left out. Each call is one sequential, atomic step.
- The result of `start`'s reconnect is only logged, so `Plugin.RedisConnectorPlugin.Start` does not return it. The asynchronous subscription is modelled by an input that picks which step finishes first.
- Network I/O is left out: connection borrowing, PING, KEYS, TYPE and TTL calls, and pool internals. The probe and the failures are inputs, and the iteration order of the key set Jedis returns is an input to `ListKeys`.
- `Endpoint.GetData`'s "Pool not available" branch is modelled by `Endpoint.ReadKey`, but `GetData` cannot reach it in a sequential model, because availability implies a pool. The error-signal branches of `SetDataAnswer`, `DeleteAnswer` and `TestAnswer` are modelled, but the handlers cannot reach them, because the corrected facade never fails.
- Facade.RedisClientImpl.Execute, RedisApi.Call, RedisApi.DegradedClientAnswersDefault and Endpoint.SetDataDegraded describe the corrected template (`Facade.ExecuteSignal`). As written, a null-default operation (set, setEx, get, hget) on an unavailable facade or after a failed call throws a NullPointerException instead; `Facade.ExecuteAsWritten` and `Facade.NullDefaultRaisesAsWritten` state that.
- Keyspace.Apply: SETEX and EXPIRE accept any positive number of seconds up to the 64-bit limit. Redis 7 also rejects an expiry whose milliseconds overflow (more than 9223372036854775 seconds); that error is not modelled, and Keyspace.SetExThenTtl inherits the omission.
- Glob.Match: `?` matches one character of the string. Redis matches one byte, so on keys with multi-byte characters the two can differ.
- Decimal.ParseJavaInt: only ASCII digits are accepted. Java's `Integer.parseInt` also accepts other Unicode decimal digits, such as full-width "６３７９".
- Facade.Run: a fault is taken to happen before the command reaches Redis, so a failed call leaves the server unchanged. A read time-out (5000 ms) after Redis already applied a write is not modelled: there the write stays in place while the handler answers the default.
- Facade.RedisClientImpl.Execute: "a fault leaves the server untouched" holds only under the before-send assumption of `Facade.Run`.
- Endpoint.SetDataDegraded: "a failed write writes nothing" holds only under the before-send assumption of `Facade.Run`; a SET or SETEX applied before a read time-out stays written.
- Endpoint.DeleteData: "failed: nothing changes" holds only under the before-send assumption of `Facade.Run`; a DEL applied before a read time-out stays applied.
- Endpoint.SetData: the request body arrives already typed (key and value as optional strings, ttl as an optional whole number). The `(String)`/`(Number)` casts that throw a ClassCastException for a body of the wrong types (so the request ends in an error), and the truncation of a fractional ttl by `Number.longValue()` (0.5 becomes 0 and picks SET, 1.9 becomes 1), are not modelled.
- Facade.JedisPool.Close: closing never fails. `shutdown` only logs a failing close, and its `finally` clears the pool and the flag anyway, so the facade's state afterwards is the same; the failing pool's own state is not modelled.
- Jackson (de)serialisation is left out. The codec is the pair of functions `encode`/`decode`.
- The Spring environment is a string map. The Halo extension client is the `ExtensionClient` object.
- `Integer.parseInt` failures on port, database and the listing limit are left out:
  - they are preconditions of `Initialize`, `Reconnect` and `Start`;
  - `ListKeys` takes an already parsed limit.
- The pool-tuning constants (10/5/1/test-on-borrow) are recorded in `DefaultPoolConfig`. They have no behaviour to prove.
- Keyspace.Apply: scores of `zadd`/`zincrby` are integers, not doubles, so floating-point rounding is not modelled.
- Keyspace.Apply: keys do not expire over time. There is no clock, so a TTL is a stored number of seconds.
- Glob.Match covers only `*` and `?`. Redis's `[...]` classes and backslash escapes in KEYS patterns are not modelled.
- Lists and `lrange` exist only as a stored value kind that `getData` can show. `RedisClient` has no list operations.
- The endpoint's routing table, the OpenAPI descriptions, `getStatus`/`getConfig`/`saveConfig`/`reconnect` route wrappers and logging are left out. The wrappers only forward to the configuration service.
- The getters `getHaloRedisEnabled`, `getRedisHost`, `getRedisPort` and `getRedisDatabase` are left out. They only read environment properties, which `HaloSettings` covers.

## Findings

| source | as written | input that shows it | evidently intended | confidence | as-written member | corrected member |
|---|---|---|---|---|---|---|
| app/src/main/java/com/xhhao/redisconnector/service/RedisClientImpl.java:164-174 | the template answers `Mono.just(defaultValue)`. For set, setEx, get and hget the default is `null`, and Reactor's `Mono.just` rejects null with a NullPointerException. So the "safe default" becomes an error. On an unavailable facade the NullPointerException is thrown synchronously by `execute` itself, which `ExecuteAsWritten` simplifies to an error signal; in `setData` that throw happens inside the `flatMap` lambda (`RedisEndpoint.java:275-277`), before the handler's `onErrorResume`, so the request ends in an error. After a failed call the NullPointerException is an error signal carrying Reactor's non-null message | `get("k")` while the facade is unavailable: the caller receives an error, not an empty result | a null default completes empty (`Mono.justOrEmpty`), like a null result of the callable | high (not executed) | Facade.NullDefaultRaisesAsWritten | Facade.ExecuteSignal |
