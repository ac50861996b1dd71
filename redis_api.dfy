/** The static entry point (`Redis`) other plugins call: every operation
    looks the client up in the holder, fails with an IllegalStateException
    when none is registered, and otherwise delegates to the client. */
module RedisApi {
  import opened Common
  import Keyspace
  import Facade
  import Holder

  const NotInitialized := "Redis 未初始化，请确保 Redis Connector 插件已启动"

  /** A client is registered and reports itself available. */
  function IsAvailable(h: Holder.RedisClientHolder): (r: bool)
    reads h, h.client
    ensures r <==> h.client != null && h.client.IsAvailable()
  {
    var client := h.GetClient();
    client != null && client.IsAvailable()
  }

  /** The registered client's pool, or null without a client. */
  function GetJedisPool(h: Holder.RedisClientHolder): (r: Facade.JedisPool?)
    reads h, h.client
    ensures h.client == null ==> r == null
    ensures h.client != null ==> r == h.client.jedisPool
  {
    var client := h.GetClient();
    if client != null then client.GetJedisPool() else null
  }

  /** One delegated operation: `checkAvailable()` then the client's method.
      The thrown IllegalStateException is the Failure. */
  function Call(h: Holder.RedisClientHolder, cmd: Keyspace.Command, server: Keyspace.Keyspace, fault: bool)
    : (r: Result<(Facade.Signal, Keyspace.Keyspace), string>)
    reads h, h.client
    requires Keyspace.Valid(server)
    ensures r.Failure? <==> h.client == null
    ensures r.Failure? ==> r.error == NotInitialized
    ensures r.Success? ==> !r.value.0.Raised? && Keyspace.Valid(r.value.1)
    ensures h.client != null ==> r == Success(h.client.Execute(cmd, server, fault))
  {
    var client := h.GetClient();
    if client == null then Failure(NotInitialized)
    else Success(client.Execute(cmd, server, fault))
  }

  /** "Unregistered" and "registered but unavailable" are told apart: only
      the first throws; the second answers the operation's default and does
      not touch the server. */
  lemma DegradedClientAnswersDefault(h: Holder.RedisClientHolder, cmd: Keyspace.Command, server: Keyspace.Keyspace, fault: bool)
    requires Keyspace.Valid(server)
    requires h.client != null && !IsAvailable(h)
    ensures Call(h, cmd, server, fault) == Success((Facade.MonoOf(Facade.Default(cmd)), server))
  {
  }

  /** With an available client and no fault, a call behaves exactly as the
      command does on the server, and a rejected command falls back to its
      default without changing the server. */
  lemma AvailableCallIsCommand(h: Holder.RedisClientHolder, cmd: Keyspace.Command, server: Keyspace.Keyspace)
    requires Keyspace.Valid(server)
    requires IsAvailable(h)
    ensures Keyspace.Apply(server, cmd).Ok? ==>
      Call(h, cmd, server, false) == Success((Facade.MonoOf(Keyspace.Apply(server, cmd).reply), Keyspace.Apply(server, cmd).after))
    ensures Keyspace.Apply(server, cmd).Err? ==>
      Call(h, cmd, server, false) == Success((Facade.MonoOf(Facade.Default(cmd)), server))
  {
  }
}
