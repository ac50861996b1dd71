/** The configuration service: which Redis settings are in force (the host
    environment's, the plugin's own ConfigMap, or none), the stored plugin
    settings, and the reconnect flow that rebuilds the facade's pool.

    The service shares the host environment with the facade, so the
    environment here is the facade's. JSON (de)serialisation is the pair of
    abstract functions `encode`/`decode`; the extension store is an object
    holding ConfigMaps by name, and its update outcome is an input. */
module ConfigService {
  import opened Common
  import opened Text
  import opened Decimal
  import opened Facade

  const ConfigMapName := "redis-connector-configmap"
  const RedisGroup := "redis"

  const Saved := "配置已保存，请点击重新连接"
  const SaveFailedPrefix := "保存失败: "
  const NotConfigured := "未配置 Redis 连接信息"
  const Connected := "连接成功"
  const ConnectFailed := "连接失败"

  /** The plugin's own settings: a string map with keys host/port/password/database. */
  type PluginConfig = map<string, string>

  /** Where the settings in force come from. */
  datatype Source = Halo | Plugin | NoSource

  function SourceName(s: Source): string {
    match s
    case Halo => "halo"
    case Plugin => "plugin"
    case NoSource => "none"
  }

  /** Halo's Redis is enabled and names a host. */
  predicate HaloConfigured(env: Environment) {
    HaloEnabled(env) && GetProperty(env, HostProperty, "") != ""
  }

  predicate PluginConfigured(cfg: PluginConfig) {
    GetOrDefault(cfg, "host", "") != ""
  }

  /** The host environment wins over the plugin's settings. */
  function ConfigSource(env: Environment, cfg: PluginConfig): (s: Source)
    ensures s == Halo <==> HaloConfigured(env)
    ensures s == Plugin <==> !HaloConfigured(env) && PluginConfigured(cfg)
    ensures s == NoSource <==> !HaloConfigured(env) && !PluginConfigured(cfg)
  {
    if HaloConfigured(env) then Halo
    else if PluginConfigured(cfg) then Plugin
    else NoSource
  }

  /** Host, port and database as reported (strings, unparsed). */
  datatype Endpoint = Endpoint(host: string, port: string, database: string)

  function HaloEndpoint(env: Environment): Endpoint {
    Endpoint(GetProperty(env, HostProperty, ""), GetProperty(env, PortProperty, "6379"),
             GetProperty(env, DatabaseProperty, "0"))
  }

  function PluginEndpoint(cfg: PluginConfig): Endpoint {
    Endpoint(GetOrDefault(cfg, "host", ""), GetOrDefault(cfg, "port", "6379"),
             GetOrDefault(cfg, "database", "0"))
  }

  /** The settings actually in use: those of the winning source; absent when
      neither source is configured. */
  function ActiveConfig(env: Environment, cfg: PluginConfig): (a: Option<Endpoint>)
    ensures a.None? <==> ConfigSource(env, cfg) == NoSource
    ensures ConfigSource(env, cfg) == Halo ==> a == Some(HaloEndpoint(env))
    ensures ConfigSource(env, cfg) == Plugin ==> a == Some(PluginEndpoint(cfg))
    ensures a.Some? ==> a.value.host != ""
  {
    match ConfigSource(env, cfg)
    case Halo => Some(HaloEndpoint(env))
    case Plugin => Some(PluginEndpoint(cfg))
    case NoSource => None
  }

  /** The status report shown on the console. */
  datatype Status = Status(
    haloRedisEnabled: string,
    haloConfigured: bool,
    halo: Endpoint,
    pluginConfigured: bool,
    plugin: Endpoint,
    configSource: string,
    available: bool,
    active: Option<Endpoint>)

  /** The status report is consistent: the named source is the one whose
      settings are active, the flags agree with it, and availability is the
      facade's. */
  function GetFullStatus(client: RedisClientImpl, fetched: Option<ConfigMap>, decode: string -> Option<PluginConfig>): (st: Status)
    reads client
    ensures st.configSource == "halo" <==> st.haloConfigured
    ensures st.configSource == "plugin" <==> !st.haloConfigured && st.pluginConfigured
    ensures st.configSource == "none" <==> st.active.None?
    ensures st.configSource == "halo" ==> st.active == Some(st.halo)
    ensures st.configSource == "plugin" ==> st.active == Some(st.plugin)
    ensures st.available == client.IsAvailable()
    ensures st.haloRedisEnabled == GetProperty(client.environment, EnabledProperty, "false")
    ensures st.haloConfigured == HaloConfigured(client.environment)
    ensures st.halo == HaloEndpoint(client.environment)
    ensures st.pluginConfigured == PluginConfigured(GetRedisConfig(fetched, decode))
    ensures st.plugin == PluginEndpoint(GetRedisConfig(fetched, decode))
    ensures st.configSource == SourceName(ConfigSource(client.environment, GetRedisConfig(fetched, decode)))
    ensures st.active == ActiveConfig(client.environment, GetRedisConfig(fetched, decode))
  {
    var env := client.environment;
    var cfg := GetRedisConfig(fetched, decode);
    Status(
      GetProperty(env, EnabledProperty, "false"),
      HaloConfigured(env),
      HaloEndpoint(env),
      PluginConfigured(cfg),
      PluginEndpoint(cfg),
      SourceName(ConfigSource(env, cfg)),
      client.IsAvailable(),
      ActiveConfig(env, cfg))
  }

  // ----- The stored plugin settings -----

  /** A ConfigMap resource; its data map may be null. */
  datatype ConfigMap = ConfigMap(data: Option<map<string, string>>)

  /** `getRedisConfig`: the decoded "redis" entry of the ConfigMap, or the
      empty map when the ConfigMap is missing, has no data, has no "redis"
      entry, or that entry does not decode. */
  function GetRedisConfig(fetched: Option<ConfigMap>, decode: string -> Option<PluginConfig>): (cfg: PluginConfig)
    ensures fetched.None? || fetched.value.data.None? ==> cfg == map[]
    ensures fetched.Some? && fetched.value.data.Some? ==>
      var data := fetched.value.data.value;
      && (RedisGroup !in data ==> cfg == map[])
      && (RedisGroup in data && decode(data[RedisGroup]).None? ==> cfg == map[])
      && (RedisGroup in data && decode(data[RedisGroup]).Some? ==> cfg == decode(data[RedisGroup]).value)
  {
    if fetched.None? then map[]
    else match fetched.value.data
      case None => map[]
      case Some(data) =>
        if RedisGroup !in data then map[]
        else decode(data[RedisGroup]).GetOr(map[])
  }

  /** The ConfigMap with `encoded` stored under "redis": a null data map
      becomes a fresh one, every other entry is kept. */
  function WithRedisGroup(cm: ConfigMap, encoded: string): (r: ConfigMap)
    ensures r.data.Some?
    ensures RedisGroup in r.data.value && r.data.value[RedisGroup] == encoded
    ensures cm.data.None? ==> r.data.value.Keys == {RedisGroup}
    ensures cm.data.Some? ==> r.data.value.Keys == cm.data.value.Keys + {RedisGroup}
    ensures cm.data.Some? ==> forall k :: k in cm.data.value && k != RedisGroup ==> r.data.value[k] == cm.data.value[k]
  {
    ConfigMap(Some(cm.data.GetOr(map[])[RedisGroup := encoded]))
  }

  /** Saving then reading back returns the saved settings, whenever the JSON
      codec round-trips them. */
  lemma {:induction false} SaveThenGet(cm: ConfigMap, config: PluginConfig,
      encode: PluginConfig -> Result<string, string>, decode: string -> Option<PluginConfig>)
    requires encode(config).Success?
    requires decode(encode(config).value) == Some(config)
    ensures GetRedisConfig(Some(WithRedisGroup(cm, encode(config).value)), decode) == config
  {
    var saved := WithRedisGroup(cm, encode(config).value);
    assert saved.data.value[RedisGroup] == encode(config).value;
  }

  /** The extension store, holding ConfigMaps by name. */
  class ExtensionClient {
    var configMaps: map<string, ConfigMap>

    constructor (configMaps: map<string, ConfigMap>)
      ensures this.configMaps == configMaps
    {
      this.configMaps := configMaps;
    }

    /** Fetching by name yields nothing for a missing resource. */
    function Fetch(name: string): (r: Option<ConfigMap>)
      reads this
      ensures r.Some? <==> name in configMaps
      ensures r.Some? ==> r.value == configMaps[name]
    {
      if name in configMaps then Some(configMaps[name]) else None
    }

    /** Writes `cm` back unless the store rejects it with an error message. */
    method Update(name: string, cm: ConfigMap, rejection: Option<string>)
      modifies this
      ensures rejection.None? ==> configMaps == old(configMaps)[name := cm]
      ensures rejection.Some? ==> configMaps == old(configMaps)
    {
      if rejection.None? {
        configMaps := configMaps[name := cm];
      }
    }
  }

  datatype SaveResult = SaveResult(success: bool, message: string)

  /** `saveRedisConfig`: stores the encoded settings under "redis". A missing
      ConfigMap gives no answer (an empty Mono); a failed encoding or a
      rejected update reports the error and stores nothing. */
  method SaveRedisConfig(store: ExtensionClient, config: PluginConfig,
      encode: PluginConfig -> Result<string, string>, rejection: Option<string>)
    returns (r: Option<SaveResult>)
    modifies store
    ensures ConfigMapName !in old(store.configMaps) ==> r.None? && store.configMaps == old(store.configMaps)
    ensures ConfigMapName in old(store.configMaps) ==> r.Some?
    ensures r.Some? ==> (r.value.success <==> encode(config).Success? && rejection.None?)
    ensures r.Some? && r.value.success ==>
      && r.value.message == Saved
      && store.configMaps == old(store.configMaps)[ConfigMapName :=
           WithRedisGroup(old(store.configMaps)[ConfigMapName], encode(config).value)]
    ensures r.Some? && !r.value.success ==> store.configMaps == old(store.configMaps)
    ensures r.Some? && encode(config).Failure? ==> r.value.message == SaveFailedPrefix + encode(config).error
    ensures r.Some? && encode(config).Success? && rejection.Some? ==> r.value.message == SaveFailedPrefix + rejection.value
  {
    var fetched := store.Fetch(ConfigMapName);
    if fetched.None? {
      return None;
    }
    match encode(config)
    case Failure(e) =>
      r := Some(SaveResult(false, SaveFailedPrefix + e));
    case Success(encoded) =>
      store.Update(ConfigMapName, WithRedisGroup(fetched.value, encoded), rejection);
      if rejection.Some? {
        r := Some(SaveResult(false, SaveFailedPrefix + rejection.value));
      } else {
        r := Some(SaveResult(true, Saved));
      }
  }

  // ----- Reconnecting -----

  /** The plugin settings' port and database are numbers. */
  predicate PluginNumbersParse(cfg: PluginConfig) {
    && ParseJavaInt(GetOrDefault(cfg, "port", "6379")).Some?
    && ParseJavaInt(GetOrDefault(cfg, "database", "0")).Some?
  }

  /** The settings the plugin path connects with, defaulting port 6379,
      password "" and database 0. */
  function PluginSettings(cfg: PluginConfig): (s: Settings)
    requires PluginNumbersParse(cfg)
    ensures s.host == (if "host" in cfg then cfg["host"] else "")
    ensures "port" in cfg ==> ParseJavaInt(cfg["port"]) == Some(s.port)
    ensures "port" !in cfg ==> s.port == 6379
    ensures s.password == Some(if "password" in cfg then cfg["password"] else "")
    ensures "database" in cfg ==> ParseJavaInt(cfg["database"]) == Some(s.database)
    ensures "database" !in cfg ==> s.database == 0
    ensures MinInt <= s.port <= MaxInt && MinInt <= s.database <= MaxInt
  {
    DefaultNumbersParse();
    Settings(
      GetOrDefault(cfg, "host", ""),
      ParseJavaInt(GetOrDefault(cfg, "port", "6379")).value,
      Some(GetOrDefault(cfg, "password", "")),
      ParseJavaInt(GetOrDefault(cfg, "database", "0")).value)
  }

  /** Plugin settings naming only a host connect to its port 6379, database
      0, without a password. */
  lemma PluginSettingsDefaults(cfg: PluginConfig)
    requires cfg.Keys == {"host"}
    ensures PluginNumbersParse(cfg)
    ensures PluginSettings(cfg) == Settings(cfg["host"], 6379, Some(""), 0)
  {
    assert "port" !in cfg && "database" !in cfg && "password" !in cfg;
    DefaultNumbersParse();
  }

  datatype ReconnectResult = ReconnectResult(
    success: bool,
    available: Option<bool>,
    message: string,
    configSource: Option<string>)

  /** `reconnect`: shuts the pool down first, then rebuilds it from the
      winning source; with neither source configured it reports so and
      leaves the facade without a pool. */
  method Reconnect(client: RedisClientImpl, fetched: Option<ConfigMap>,
      decode: string -> Option<PluginConfig>, probe: bool)
    returns (r: ReconnectResult)
    requires client.Valid()
    requires HaloConfigured(client.environment) ==> HaloNumbersParse(client.environment)
    requires ConfigSource(client.environment, GetRedisConfig(fetched, decode)) == Plugin ==>
      PluginNumbersParse(GetRedisConfig(fetched, decode))
    modifies client, client.created
    ensures client.Valid()
    ensures old(client.jedisPool) != null ==> old(client.jedisPool).closed
    ensures var source := ConfigSource(client.environment, GetRedisConfig(fetched, decode));
      && (source == NoSource ==>
           && r == ReconnectResult(false, None, NotConfigured, None)
           && client.jedisPool == null && !client.available)
      && (source != NoSource ==>
           && r.configSource == Some(SourceName(source))
           && client.jedisPool != null && fresh(client.jedisPool)
           && client.available == probe
           && r.success == client.IsAvailable() && r.available == Some(client.IsAvailable())
           && r.message == (if client.IsAvailable() then Connected else ConnectFailed))
      && (source == Halo ==> BuiltFor(client.jedisPool, HaloSettings(client.environment)))
      && (source == Plugin ==> BuiltFor(client.jedisPool, PluginSettings(GetRedisConfig(fetched, decode))))
  {
    var cfg := GetRedisConfig(fetched, decode);
    client.Shutdown();
    var source: string;
    if HaloConfigured(client.environment) {
      client.Initialize(probe);
      source := "halo";
    } else {
      if GetOrDefault(cfg, "host", "") == "" {
        return ReconnectResult(false, None, NotConfigured, None);
      }
      var settings := PluginSettings(cfg);
      client.InitializeWithConfig(settings.host, settings.port, settings.password, settings.database, probe);
      source := "plugin";
    }
    var up := client.IsAvailable();
    r := ReconnectResult(up, Some(up), if up then Connected else ConnectFailed, Some(source));
  }
}
