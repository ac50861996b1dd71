/** The connection facade (`RedisClientImpl`): it owns at most one live pool,
    keeps a cached availability flag, and runs every command through one
    template that answers a per-command default whenever the facade is not
    available or the command fails.

    Pools are objects whose only mutable state is whether they were closed.
    The liveness probe (PING on a fresh connection) and a command's failure
    are inputs; the Redis server is the keyspace of module Keyspace. */
module Facade {
  import opened Common
  import opened Text
  import opened Decimal
  import Keyspace

  type Environment = map<string, string>

  const EnabledProperty := "halo.redis.enabled"
  const HostProperty := "spring.data.redis.host"
  const PortProperty := "spring.data.redis.port"
  const PasswordProperty := "spring.data.redis.password"
  const DatabaseProperty := "spring.data.redis.database"

  /** Spring's `environment.getProperty(name, default)`. */
  function GetProperty(env: Environment, name: string, default: string): string {
    GetOrDefault(env, name, default)
  }

  /** `"true".equalsIgnoreCase(environment.getProperty("halo.redis.enabled", "false"))` */
  predicate HaloEnabled(env: Environment) {
    EqualsIgnoreCase("true", GetProperty(env, EnabledProperty, "false"))
  }

  /** What one (re)initialisation connects to. */
  datatype Settings = Settings(host: string, port: int, password: Option<string>, database: int)

  /** The port and database properties read by `initialize` are numbers. */
  predicate HaloNumbersParse(env: Environment) {
    && ParseJavaInt(GetProperty(env, PortProperty, "6379")).Some?
    && ParseJavaInt(GetProperty(env, DatabaseProperty, "0")).Some?
  }

  /** The settings `initialize` reads from the host environment: each
      property as set, else localhost, 6379, "" and 0; the port and database
      within Java's int range. */
  function HaloSettings(env: Environment): (s: Settings)
    requires HaloNumbersParse(env)
    ensures s.host == (if HostProperty in env then env[HostProperty] else "localhost")
    ensures PortProperty in env ==> ParseJavaInt(env[PortProperty]) == Some(s.port)
    ensures PortProperty !in env ==> s.port == 6379
    ensures s.password == Some(if PasswordProperty in env then env[PasswordProperty] else "")
    ensures DatabaseProperty in env ==> ParseJavaInt(env[DatabaseProperty]) == Some(s.database)
    ensures DatabaseProperty !in env ==> s.database == 0
    ensures MinInt <= s.port <= MaxInt && MinInt <= s.database <= MaxInt
  {
    DefaultNumbersParse();
    Settings(
      GetProperty(env, HostProperty, "localhost"),
      ParseJavaInt(GetProperty(env, PortProperty, "6379")).value,
      Some(GetProperty(env, PasswordProperty, "")),
      ParseJavaInt(GetProperty(env, DatabaseProperty, "0")).value)
  }

  /** With none of the connection properties set, `initialize` connects to
      localhost:6379, database 0, without a password. */
  lemma HaloSettingsDefaults(env: Environment)
    requires HostProperty !in env && PortProperty !in env
    requires PasswordProperty !in env && DatabaseProperty !in env
    ensures HaloNumbersParse(env)
    ensures HaloSettings(env) == Settings("localhost", 6379, Some(""), 0)
  {
    DefaultNumbersParse();
  }

  /** The default port and database strings parse to 6379 and 0. */
  lemma DefaultNumbersParse()
    ensures ParseJavaInt("6379") == Some(6379)
    ensures ParseJavaInt("0") == Some(0)
  {
    assert FormatInt(6379) == "6379" by {
      assert FormatNat(6379) == FormatNat(637) + "9";
      assert FormatNat(637) == FormatNat(63) + "7";
      assert FormatNat(63) == FormatNat(6) + "3";
    }
    JavaIntRoundTrip(6379);
    JavaIntRoundTrip(0);
  }

  /** The pool sizing every pool is built with. */
  datatype PoolConfig = PoolConfig(maxTotal: nat, maxIdle: nat, minIdle: nat, testOnBorrow: bool)

  const DefaultPoolConfig := PoolConfig(10, 5, 1, true)

  /** Per-connection settings: timeouts, database, and optional credentials. */
  datatype ClientConfig = ClientConfig(
    connectionTimeoutMillis: nat,
    socketTimeoutMillis: nat,
    database: int,
    user: Option<string>,
    password: Option<string>)

  /** The client configuration of a pool: credentials (user "default" and the
      password) are attached only for a non-null, non-empty password. */
  function BuildClientConfig(password: Option<string>, database: int): (c: ClientConfig)
    ensures c.connectionTimeoutMillis == 10000 && c.socketTimeoutMillis == 5000
    ensures c.database == database
    ensures c.user.Some? <==> password.Some? && password.value != ""
    ensures c.user.Some? ==> c.user == Some("default") && c.password == password
    ensures c.user.None? ==> c.password.None?
  {
    var base := ClientConfig(10000, 5000, database, None, None);
    if password.Some? && password.value != "" then base.(user := Some("default"), password := password)
    else base
  }

  /** A connection pool to one Redis endpoint. */
  class JedisPool {
    const host: string
    const port: int
    const poolConfig: PoolConfig
    const clientConfig: ClientConfig
    var closed: bool

    constructor (host: string, port: int, poolConfig: PoolConfig, clientConfig: ClientConfig)
      ensures this.host == host && this.port == port
      ensures this.poolConfig == poolConfig && this.clientConfig == clientConfig
      ensures !closed
    {
      this.host := host;
      this.port := port;
      this.poolConfig := poolConfig;
      this.clientConfig := clientConfig;
      closed := false;
    }

    method Close()
      modifies this
      ensures closed
    {
      closed := true;
    }
  }

  /** `pool` was built for `s`. */
  predicate BuiltFor(pool: JedisPool, s: Settings) {
    && pool.host == s.host
    && pool.port == s.port
    && pool.poolConfig == DefaultPoolConfig
    && pool.clientConfig == BuildClientConfig(s.password, s.database)
  }

  // ----- Results of a command, as the Mono the facade hands back -----

  /** A Mono completes with a value, completes empty, or fails with an exception. */
  datatype Signal = Value(reply: Keyspace.Reply) | Empty | Raised(exception: string)

  /** What the callable (one command on a pooled connection) did. */
  datatype CallResult = Returned(reply: Keyspace.Reply) | Threw

  const NullPointer := "java.lang.NullPointerException"

  /** `Mono.fromCallable` of a result: a null result completes empty. */
  function MonoOf(r: Keyspace.Reply): (s: Signal)
    ensures !s.Raised?
    ensures s.Empty? <==> r.Nil?
    ensures s.Value? ==> s.reply == r
  {
    if r.Nil? then Empty else Value(r)
  }

  /** `Mono.just(r)`, which rejects a null value with a NullPointerException. */
  function Just(r: Keyspace.Reply): (s: Signal)
    ensures s.Raised? <==> r.Nil?
    ensures !r.Nil? ==> s == Value(r)
    ensures r.Nil? ==> s == Raised(NullPointer)
  {
    if r.Nil? then Raised(NullPointer) else Value(r)
  }

  /** The `execute` template as written: `Mono.just(defaultValue)` both when the
      facade is unavailable and in `onErrorResume`. */
  function ExecuteAsWritten(available: bool, call: CallResult, default: Keyspace.Reply): (s: Signal)
    ensures s.Raised? <==> (!available || call.Threw?) && default.Nil?
    ensures s.Raised? ==> s == Raised(NullPointer)
    ensures !s.Raised? ==> s == ExecuteSignal(available, call, default)
  {
    if !available then Just(default)
    else match call
      case Threw => Just(default)
      case Returned(r) => MonoOf(r)
  }

  /** The `execute` template as intended (`Mono.justOrEmpty(defaultValue)`):
      never fails; an unavailable facade or a failed call yields the default,
      a null default as an empty Mono like a null result. */
  function ExecuteSignal(available: bool, call: CallResult, default: Keyspace.Reply): (s: Signal)
    ensures !s.Raised?
    ensures !available || call.Threw? ==> s == MonoOf(default)
    ensures available && call.Returned? ==> s == MonoOf(call.reply)
  {
    if !available then MonoOf(default)
    else match call
      case Threw => MonoOf(default)
      case Returned(r) => MonoOf(r)
  }

  /** The operations whose default is Java's null. */
  predicate NullDefault(cmd: Keyspace.Command) {
    cmd.Set? || cmd.SetEx? || cmd.Get? || cmd.HGet?
  }

  /** The exact value each operation answers when it cannot run. */
  function Default(cmd: Keyspace.Command): (r: Keyspace.Reply)
    ensures Keyspace.ReplyFits(cmd, r)
    ensures r.Nil? <==> NullDefault(cmd)
  {
    match cmd
    case Set(_, _) => Keyspace.Nil
    case SetEx(_, _, _) => Keyspace.Nil
    case Get(_) => Keyspace.Nil
    case HGet(_, _) => Keyspace.Nil
    case Del(_) => Keyspace.Integer(0)
    case HSet(_, _, _) => Keyspace.Integer(0)
    case SAdd(_, _) => Keyspace.Integer(0)
    case ZAdd(_, _, _) => Keyspace.Integer(0)
    case Expire(_, _) => Keyspace.Integer(0)
    case ZIncrBy(_, _, _) => Keyspace.Integer(0)
    case Incr(_) => Keyspace.Integer(-1)
    case IncrBy(_, _) => Keyspace.Integer(-1)
    case Ttl(_) => Keyspace.Integer(-2)
    case HGetAll(_) => Keyspace.FieldMap(map[])
    case SMembers(_) => Keyspace.MemberSet({})
    case ZRevRange(_, _, _) => Keyspace.Ordered([])
    case SIsMember(_, _) => Keyspace.Flag(false)
    case Exists(_) => Keyspace.Flag(false)
  }

  /** As written, a null-default operation on an unavailable facade throws a
      NullPointerException instead of answering null; e.g. `get("k")`. */
  lemma NullDefaultRaisesAsWritten(cmd: Keyspace.Command, call: CallResult)
    requires NullDefault(cmd)
    ensures ExecuteAsWritten(false, call, Default(cmd)) == Raised(NullPointer)
    ensures ExecuteAsWritten(true, Threw, Default(cmd)) == Raised(NullPointer)
    ensures !ExecuteSignal(false, call, Default(cmd)).Raised?
  {
  }

  /** The correction changes nothing for operations with a non-null default. */
  lemma FixKeepsOtherDefaults(cmd: Keyspace.Command, available: bool, call: CallResult)
    requires !NullDefault(cmd)
    ensures ExecuteAsWritten(available, call, Default(cmd)) == ExecuteSignal(available, call, Default(cmd))
  {
  }

  /** The callable of each operation: one command on a pooled connection. A
      transport failure (`fault`) or an error reply from the server throws. */
  function Run(server: Keyspace.Keyspace, cmd: Keyspace.Command, fault: bool): (r: (CallResult, Keyspace.Keyspace))
    requires Keyspace.Valid(server)
    ensures Keyspace.Valid(r.1)
    ensures r.0.Threw? ==> r.1 == server
  {
    if fault then (Threw, server)
    else match Keyspace.Apply(server, cmd)
      case Ok(reply, after) => (Returned(reply), after)
      case Err(_) => (Threw, server)
  }

  /** For every command that only reads, and for DEL and EXPIRE, the default
      is exactly what the server answers for a key that does not exist (so
      TTL's default -2 is the store's own "no such key" sentinel). */
  lemma DefaultIsMissingKeyReply(server: Keyspace.Keyspace, cmd: Keyspace.Command)
    requires Keyspace.Valid(server) && cmd.key !in server
    requires Keyspace.ReadOnly(cmd) || cmd.Del? || cmd.Expire?
    ensures Keyspace.Apply(server, cmd) == Keyspace.Ok(Default(cmd), server)
  {
    assert server - {cmd.key} == server;
  }

  class RedisClientImpl {
    const environment: Environment
    var jedisPool: JedisPool?
    var available: bool
    /** Every pool this facade ever built. */
    ghost var created: set<JedisPool>

    /** At most one pool is open, it is the current one, and availability
        implies a pool. */
    ghost predicate Valid()
      reads this, created
    {
      && (available ==> jedisPool != null)
      && (jedisPool != null ==> jedisPool in created && !jedisPool.closed)
      && (forall p :: p in created && p != jedisPool ==> p.closed)
    }

    constructor (environment: Environment)
      ensures Valid()
      ensures this.environment == environment
      ensures jedisPool == null && !available && created == {}
    {
      this.environment := environment;
      jedisPool := null;
      available := false;
      created := {};
    }

    function IsAvailable(): (r: bool)
      reads this
      ensures r ==> jedisPool != null
      ensures r <==> available && jedisPool != null
    {
      available && jedisPool != null
    }

    /** Under the invariant the pool check is implied by the flag. */
    lemma AvailableIsFlag()
      requires Valid()
      ensures IsAvailable() <==> available
    {
    }

    function GetJedisPool(): (r: JedisPool?)
      reads this
      ensures r == jedisPool
      ensures IsAvailable() ==> r != null
    {
      jedisPool
    }

    /** First-call-wins initialisation from the host environment. */
    method Initialize(probe: bool)
      requires Valid()
      requires jedisPool == null && HaloEnabled(environment) ==> HaloNumbersParse(environment)
      modifies this
      ensures Valid()
      ensures old(jedisPool) != null || !HaloEnabled(environment) ==>
        jedisPool == old(jedisPool) && available == old(available) && created == old(created)
      ensures old(jedisPool) == null && HaloEnabled(environment) ==>
        && jedisPool != null && fresh(jedisPool)
        && BuiltFor(jedisPool, HaloSettings(environment))
        && available == probe
        && created == old(created) + {jedisPool}
    {
      if jedisPool != null {
        return;
      }
      if !HaloEnabled(environment) {
        return;
      }
      var settings := HaloSettings(environment);
      DoInitialize(settings.host, settings.port, settings.password, settings.database, probe);
    }

    /** Initialisation from explicit settings: always tears down and rebuilds. */
    method InitializeWithConfig(host: string, port: int, password: Option<string>, database: int, probe: bool)
      requires Valid()
      modifies this, created
      ensures Valid()
      ensures old(jedisPool) != null ==> old(jedisPool).closed
      ensures jedisPool != null && fresh(jedisPool)
      ensures BuiltFor(jedisPool, Settings(host, port, password, database))
      ensures available == probe
      ensures created == old(created) + {jedisPool}
    {
      if jedisPool != null {
        Shutdown();
      }
      DoInitialize(host, port, password, database, probe);
    }

    /** Closes the pool if there is one; with no pool it changes nothing. */
    method Shutdown()
      requires Valid()
      modifies this, created
      ensures Valid()
      ensures jedisPool == null && !available && created == old(created)
      ensures old(jedisPool) != null ==> old(jedisPool).closed
      ensures old(jedisPool) == null ==> unchanged(this) && unchanged(created)
    {
      if jedisPool != null {
        jedisPool.Close();
        jedisPool := null;
        available := false;
      }
    }

    /** Builds the pool, assigns it, then probes it. A failed probe leaves
        the new pool assigned and open, with `available` false. */
    method DoInitialize(host: string, port: int, password: Option<string>, database: int, probe: bool)
      requires Valid() && jedisPool == null
      modifies this
      ensures Valid()
      ensures jedisPool != null && fresh(jedisPool)
      ensures BuiltFor(jedisPool, Settings(host, port, password, database))
      ensures available == probe
      ensures created == old(created) + {jedisPool}
    {
      var clientConfig := BuildClientConfig(password, database);
      jedisPool := new JedisPool(host, port, DefaultPoolConfig, clientConfig);
      created := created + {jedisPool};
      available := probe;
    }

    /** The `execute` template applied to one operation. */
    function Execute(cmd: Keyspace.Command, server: Keyspace.Keyspace, fault: bool): (r: (Signal, Keyspace.Keyspace))
      reads this
      requires Keyspace.Valid(server)
      ensures !r.0.Raised? && Keyspace.Valid(r.1)
      ensures !IsAvailable() ==> r == (MonoOf(Default(cmd)), server)
      ensures IsAvailable() && fault ==> r == (MonoOf(Default(cmd)), server)
      ensures IsAvailable() && !fault ==>
        match Keyspace.Apply(server, cmd)
        case Ok(reply, after) => r == (MonoOf(reply), after)
        case Err(_) => r == (MonoOf(Default(cmd)), server)
    {
      if !IsAvailable() then (ExecuteSignal(false, Threw, Default(cmd)), server)
      else
        var (call, after) := Run(server, cmd, fault);
        (ExecuteSignal(true, call, Default(cmd)), after)
    }
  }

  /** Repeated rebuilding against an unreachable server ends unavailable,
      with every pool but the last one closed. */
  method ReinitializeTwiceUnreachable(client: RedisClientImpl, s: Settings)
    requires client.Valid()
    modifies client, client.created
    ensures client.Valid() && !client.IsAvailable() && client.jedisPool != null
    ensures forall p :: p in client.created && p != client.jedisPool ==> p.closed
  {
    client.InitializeWithConfig(s.host, s.port, s.password, s.database, false);
    client.InitializeWithConfig(s.host, s.port, s.password, s.database, false);
  }
}
