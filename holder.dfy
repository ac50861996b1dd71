/** The process-wide slot through which other plugins reach the connector's
    client. The source keeps it in a static field; here it is one object. */
module Holder {
  import Facade

  class RedisClientHolder {
    var client: Facade.RedisClientImpl?

    /** The slot starts empty. */
    constructor ()
      ensures client == null
    {
      client := null;
    }

    function GetClient(): (c: Facade.RedisClientImpl?)
      reads this
      ensures c == client
    {
      client
    }

    /** Registers `c` (or empties the slot for null); a later read returns it. */
    method SetClient(c: Facade.RedisClientImpl?)
      modifies this
      ensures client == c
      ensures GetClient() == c
    {
      client := c;
    }

    method Clear()
      modifies this
      ensures client == null
      ensures GetClient() == null
    {
      client := null;
    }
  }
}
