/** The plugin's lifecycle: starting reconnects the facade and registers it
    in the holder; stopping unregisters it and shuts it down. */
module Plugin {
  import opened Common
  import opened Facade
  import Holder
  import ConfigService

  class RedisConnectorPlugin {
    const redisClient: RedisClientImpl
    /** The process-wide holder other plugins read. */
    const holder: Holder.RedisClientHolder

    constructor (redisClient: RedisClientImpl, holder: Holder.RedisClientHolder)
      ensures this.redisClient == redisClient && this.holder == holder
    {
      this.redisClient := redisClient;
      this.holder := holder;
    }

    /** `start`: the reconnect is subscribed to asynchronously, so it may
        finish before or after the registration (`reconnectFirst`); either
        way the client ends registered and reconnected. */
    method Start(fetched: Option<ConfigService.ConfigMap>, decode: string -> Option<ConfigService.PluginConfig>,
        probe: bool, reconnectFirst: bool)
      requires redisClient.Valid()
      requires ConfigService.HaloConfigured(redisClient.environment) ==> HaloNumbersParse(redisClient.environment)
      requires ConfigService.ConfigSource(redisClient.environment, ConfigService.GetRedisConfig(fetched, decode)) == ConfigService.Plugin ==>
        ConfigService.PluginNumbersParse(ConfigService.GetRedisConfig(fetched, decode))
      modifies holder, redisClient, redisClient.created
      ensures redisClient.Valid()
      ensures holder.client == redisClient
      ensures old(redisClient.jedisPool) != null ==> old(redisClient.jedisPool).closed
      ensures var source := ConfigService.ConfigSource(redisClient.environment, ConfigService.GetRedisConfig(fetched, decode));
        && (source == ConfigService.NoSource ==> redisClient.jedisPool == null && !redisClient.IsAvailable())
        && (source != ConfigService.NoSource ==>
             redisClient.jedisPool != null && fresh(redisClient.jedisPool) && redisClient.IsAvailable() == probe)
    {
      if reconnectFirst {
        var _ := ConfigService.Reconnect(redisClient, fetched, decode, probe);
        holder.SetClient(redisClient);
      } else {
        holder.SetClient(redisClient);
        var _ := ConfigService.Reconnect(redisClient, fetched, decode, probe);
      }
    }

    /** `stop`: unregisters the client, then closes its pool. Stopping a
        stopped plugin changes nothing. */
    method Stop()
      requires redisClient.Valid()
      modifies holder, redisClient, redisClient.created
      ensures redisClient.Valid()
      ensures holder.client == null
      ensures redisClient.jedisPool == null && !redisClient.available && !redisClient.IsAvailable()
      ensures old(redisClient.jedisPool) != null ==> old(redisClient.jedisPool).closed
      ensures redisClient.created == old(redisClient.created)
      ensures old(redisClient.jedisPool) == null ==> unchanged(redisClient) && unchanged(redisClient.created)
    {
      holder.Clear();
      redisClient.Shutdown();
    }

    /** Two stops in a row are safe and leave the plugin stopped. */
    method StopTwice()
      requires redisClient.Valid()
      modifies holder, redisClient, redisClient.created
      ensures redisClient.Valid()
      ensures holder.client == null && redisClient.jedisPool == null && !redisClient.available
      ensures forall p :: p in redisClient.created ==> p.closed
    {
      Stop();
      Stop();
    }
  }
}
