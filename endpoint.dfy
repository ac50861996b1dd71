/** The console's HTTP handlers: connection test, key listing, reading a
    key of any type, writing a string key, deleting a key.

    Handlers that go through the facade use `RedisClientImpl.Execute`;
    `listKeys` and `getData` talk to a pooled connection directly, so they
    read the server keyspace themselves. A failure of such a direct call
    is an input. A handler's "no response" (an empty Mono) is `None`. */
module Endpoint {
  import opened Common
  import opened Text
  import Glob
  import SortedSet
  import Keyspace
  import opened Facade

  // ----- listKeys -----

  /** The pattern handed to KEYS: unchanged when it already holds a '*',
      otherwise wrapped as "*pattern*" for a substring search. */
  function SearchPattern(pattern: string): (r: string)
    ensures '*' in r
    ensures '*' in pattern ==> r == pattern
    ensures '*' !in pattern ==> r == "*" + pattern + "*"
  {
    if '*' in pattern then pattern else "*" + pattern + "*"
  }

  /** Wrapping is idempotent. */
  lemma SearchPatternIdempotent(pattern: string)
    ensures SearchPattern(SearchPattern(pattern)) == SearchPattern(pattern)
  {
  }

  /** A pattern without wildcards searches for the keys containing it. */
  lemma PlainPatternFindsSubstrings(pattern: string, key: string)
    requires Glob.IsLiteral(pattern)
    ensures Glob.Match(SearchPattern(pattern), key) <==> IsSubstring(pattern, key)
  {
    Glob.WrappedLiteralIsSubstringSearch(pattern, key);
  }

  /** One listed key. */
  datatype KeyItem = KeyItem(key: string, fullKey: string, typeName: string, ttl: int)

  predicate Distinct(keys: seq<string>) {
    forall i, j :: 0 <= i < j < |keys| ==> keys[i] != keys[j]
  }

  /** `order` lists exactly the keys of `server` that `glob` matches, each
      once, in the iteration order of the key set Jedis returns. */
  ghost predicate KeysReply(server: Keyspace.Keyspace, glob: string, order: seq<string>) {
    && Distinct(order)
    && (forall k :: k in order <==> k in server && Glob.Match(glob, k))
  }

  function Min(a: int, b: int): int {
    if a <= b then a else b
  }

  /** `listKeys`: the first `limit` matching keys with their type and TTL.
      An unavailable facade or a failing connection yields the empty list. */
  method ListKeys(client: RedisClientImpl, server: Keyspace.Keyspace, pattern: Option<string>, limit: int,
      order: seq<string>, fault: bool)
    returns (items: seq<KeyItem>)
    requires KeysReply(server, SearchPattern(pattern.GetOr("*")), order)
    ensures !client.IsAvailable() || fault ==> items == []
    ensures client.IsAvailable() && !fault ==> |items| == Min(if limit < 0 then 0 else limit, |order|)
    ensures |items| <= |order| && (limit <= 0 ==> items == [])
    ensures forall i :: 0 <= i < |items| ==>
      && items[i].key == order[i] && items[i].fullKey == order[i]
      && items[i].typeName == Keyspace.TypeName(server, order[i])
      && items[i].ttl == Keyspace.TtlOf(server, order[i])
    ensures forall i :: 0 <= i < |items| ==>
      items[i].key in server && Glob.Match(SearchPattern(pattern.GetOr("*")), items[i].key)
  {
    if !client.IsAvailable() {
      return [];
    }
    var pool := client.GetJedisPool();
    if pool == null || fault {
      return [];
    }
    var result: seq<KeyItem> := [];
    var count := 0;
    var i := 0;
    while i < |order|
      invariant 0 <= i <= |order|
      invariant count == i && |result| == i
      invariant i == 0 || i <= limit
      invariant forall j :: 0 <= j < i ==>
        result[j] == KeyItem(order[j], order[j], Keyspace.TypeName(server, order[j]), Keyspace.TtlOf(server, order[j]))
    {
      if count >= limit {
        break;
      }
      var key := order[i];
      result := result + [KeyItem(key, key, Keyspace.TypeName(server, key), Keyspace.TtlOf(server, key))];
      count := count + 1;
      i := i + 1;
    }
    items := result;
  }

  // ----- getData -----

  /** The value part of a key's data, by kind. */
  datatype DataValue =
    | NoValue
    | Text(text: string)
    | Items(items: seq<string>)
    | Members(members: set<string>)
    | Scored(entries: seq<SortedSet.ZEntry>)
    | Fields(fields: map<string, string>)

  datatype DataResponse =
    | DataError(error: string)
    | Data(key: string, typeName: string, ttl: int, value: DataValue)

  const NotAvailable := "Redis not available"
  const PoolNotAvailable := "Pool not available"

  /** The reader chosen by the type name: GET, LRANGE 0 -1, SMEMBERS,
      ZRANGE 0 -1 WITHSCORES, HGETALL; no value for any other name. */
  function ReadByType(typeName: string, server: Keyspace.Keyspace, key: string): (r: DataValue)
    ensures r != NoValue <==> key in server && typeName == Keyspace.TypeName(server, key)
  {
    if key !in server then NoValue
    else
      var v := server[key].value;
      if typeName == "string" && v.StringValue? then Text(v.text)
      else if typeName == "list" && v.ListValue? then Items(v.items)
      else if typeName == "set" && v.SetValue? then Members(v.members)
      else if typeName == "zset" && v.ZSetValue? then Scored(v.entries)
      else if typeName == "hash" && v.HashValue? then Fields(v.fields)
      else NoValue
  }

  /** The callable of `getData`, run with the pool it reads at that moment:
      no pool, a failed call, or the key's type, TTL and value. */
  function ReadKey(pool: JedisPool?, server: Keyspace.Keyspace, key: string, fault: Option<string>): (r: DataResponse)
    ensures pool == null ==> r == DataError(PoolNotAvailable)
    ensures pool != null && fault.Some? ==> r == DataError(fault.value)
    ensures pool != null && fault.None? ==>
      && r.Data? && r.key == key
      && r.typeName == Keyspace.TypeName(server, key) && r.ttl == Keyspace.TtlOf(server, key)
      && (r.value != NoValue <==> key in server)
  {
    if pool == null then DataError(PoolNotAvailable)
    else if fault.Some? then DataError(fault.value)
    else
      var typeName := Keyspace.TypeName(server, key);
      Data(key, typeName, Keyspace.TtlOf(server, key), ReadByType(typeName, server, key))
  }

  /** `getData`: "Redis not available" from an unavailable facade, the
      exception message of a failed connection call, otherwise the key's
      type and TTL as the server reports them, and a value exactly for a
      present key. */
  function GetData(client: RedisClientImpl, server: Keyspace.Keyspace, key: string, fault: Option<string>): (r: DataResponse)
    reads client
    ensures !client.IsAvailable() ==> r == DataError(NotAvailable)
    ensures client.IsAvailable() && fault.Some? ==> r == DataError(fault.value)
    ensures client.IsAvailable() && fault.None? ==>
      && r.Data? && r.key == key
      && r.typeName == Keyspace.TypeName(server, key) && r.ttl == Keyspace.TtlOf(server, key)
      && (r.value != NoValue <==> key in server)
  {
    if !client.IsAvailable() then DataError(NotAvailable)
    else ReadKey(client.GetJedisPool(), server, key, fault)
  }

  /** The value that `getData` shows is the stored one, of the stored kind;
      a missing key shows type "none", TTL -2 and no value. */
  lemma GetDataShowsStoredValue(client: RedisClientImpl, server: Keyspace.Keyspace, key: string)
    requires client.IsAvailable()
    ensures var r := GetData(client, server, key, None);
      && r.Data? && r.key == key
      && (key !in server ==> r.typeName == "none" && r.ttl == -2 && r.value == NoValue)
      && (key in server ==> r.ttl == Keyspace.TtlOf(server, key) && r.value != NoValue)
      && (key in server && server[key].value.StringValue? ==> r.typeName == "string" && r.value == Text(server[key].value.text))
      && (key in server && server[key].value.ListValue? ==> r.typeName == "list" && r.value == Items(server[key].value.items))
      && (key in server && server[key].value.SetValue? ==> r.typeName == "set" && r.value == Members(server[key].value.members))
      && (key in server && server[key].value.ZSetValue? ==> r.typeName == "zset" && r.value == Scored(server[key].value.entries))
      && (key in server && server[key].value.HashValue? ==> r.typeName == "hash" && r.value == Fields(server[key].value.fields))
  {
  }

  /** Any type name other than the five readers' gives no value. */
  lemma UnknownTypeHasNoValue(typeName: string, server: Keyspace.Keyspace, key: string)
    requires typeName !in {"string", "list", "set", "zset", "hash"}
    ensures ReadByType(typeName, server, key) == NoValue
  {
  }

  // ----- setData / deleteData -----

  datatype Response = Response(success: bool, message: string)

  const MissingKeyOrValue := "key 和 value 不能为空"
  const StoredMessage := "保存成功"
  const DeletedMessage := "删除成功"
  const NoSuchKeyMessage := "Key 不存在"

  /** The write `setData` issues: SETEX for a positive TTL, else SET. */
  function WriteCommand(key: string, value: string, ttl: Long): (cmd: Keyspace.Command)
    ensures ttl > 0 ==> cmd == Keyspace.SetEx(key, value, ttl)
    ensures ttl <= 0 ==> cmd == Keyspace.Set(key, value)
  {
    if ttl > 0 then Keyspace.SetEx(key, value, ttl) else Keyspace.Set(key, value)
  }

  /** How `setData` answers once the write completes: success for a value,
      no response for an empty completion (the `flatMap` never runs), and
      failure with the exception's message for an error signal. */
  function SetDataAnswer(signal: Signal): (r: Option<Response>)
    ensures r.None? <==> signal.Empty?
    ensures r.Some? ==> (r.value.success <==> signal.Value?)
    ensures signal.Value? ==> r == Some(Response(true, StoredMessage))
    ensures signal.Raised? ==> r == Some(Response(false, signal.exception))
  {
    match signal
    case Value(_) => Some(Response(true, StoredMessage))
    case Empty => None
    case Raised(e) => Some(Response(false, e))
  }

  /** `setData`: a missing key or value is refused without a write; the TTL
      defaults to -1; whatever the outcome, the server stays well formed. */
  function SetData(client: RedisClientImpl, server: Keyspace.Keyspace,
      key: Option<string>, value: Option<string>, ttl: Option<Long>, fault: bool)
    : (r: (Option<Response>, Keyspace.Keyspace))
    reads client
    requires Keyspace.Valid(server)
    ensures key.None? || value.None? ==> r == (Some(Response(false, MissingKeyOrValue)), server)
    ensures Keyspace.Valid(r.1)
    ensures r.0.Some? && r.0.value.success ==> r.0.value.message == StoredMessage
  {
    if key.None? || value.None? then (Some(Response(false, MissingKeyOrValue)), server)
    else
      var seconds: Long := ttl.GetOr(-1);
      var (signal, after) := client.Execute(WriteCommand(key.value, value.value, seconds), server, fault);
      (SetDataAnswer(signal), after)
  }

  /** On an available facade, `setData` stores the string: reading the key
      back gives the value, and its TTL is the given one when positive and
      -1 (no expiry) otherwise. */
  lemma SetDataStores(client: RedisClientImpl, server: Keyspace.Keyspace, key: string, value: string, ttl: Option<Long>)
    requires Keyspace.Valid(server) && client.IsAvailable()
    ensures var r := SetData(client, server, Some(key), Some(value), ttl, false);
      && r.0 == Some(Response(true, StoredMessage))
      && Keyspace.Apply(r.1, Keyspace.Get(key)) == Keyspace.Ok(Keyspace.Bulk(value), r.1)
      && Keyspace.TtlOf(r.1, key) == (if ttl.Some? && ttl.value > 0 then ttl.value else -1)
  {
    var seconds: Long := ttl.GetOr(-1);
    if seconds > 0 {
      Keyspace.SetExThenTtl(server, key, value, seconds);
    } else {
      Keyspace.SetThenGet(server, key, value);
    }
  }

  /** With the corrected facade, an unavailable facade or a failed write
      makes `setData` write nothing and give no response (SET's default is
      null, which completes empty). */
  lemma SetDataDegraded(client: RedisClientImpl, server: Keyspace.Keyspace, key: string, value: string, ttl: Option<Long>, fault: bool)
    requires Keyspace.Valid(server)
    requires !client.IsAvailable() || fault
    ensures SetData(client, server, Some(key), Some(value), ttl, fault) == (None, server)
  {
  }

  /** How `deleteData` answers once DEL completes: success exactly for a
      positive count; no response for an empty completion; failure with the
      exception's message for an error signal. */
  function DeleteAnswer(signal: Signal): (r: Option<Response>)
    ensures r.None? <==> signal.Empty?
    ensures signal.Value? ==>
      var count := if signal.reply.Integer? then signal.reply.n else 0;
      r == Some(Response(count > 0, if count > 0 then DeletedMessage else NoSuchKeyMessage))
    ensures signal.Raised? ==> r == Some(Response(false, signal.exception))
  {
    match signal
    case Value(reply) =>
      var count := if reply.Integer? then reply.n else 0;
      Some(Response(count > 0, if count > 0 then DeletedMessage else NoSuchKeyMessage))
    case Empty => None
    case Raised(e) => Some(Response(false, e))
  }

  /** `deleteData`: always answers (DEL's default 0 is not null). Without a
      reachable server the answer is "no such key" and nothing changes. */
  function DeleteData(client: RedisClientImpl, server: Keyspace.Keyspace, key: string, fault: bool)
    : (r: (Option<Response>, Keyspace.Keyspace))
    reads client
    requires Keyspace.Valid(server)
    ensures r.0.Some?
    ensures r.0.value.success ==> r.0.value.message == DeletedMessage
    ensures !client.IsAvailable() || fault ==> r == (Some(Response(false, NoSuchKeyMessage)), server)
  {
    var (signal, after) := client.Execute(Keyspace.Del(key), server, fault);
    (DeleteAnswer(signal), after)
  }

  /** With an available facade, deletion succeeds iff the key existed, and
      the key is gone afterwards. */
  lemma DeleteSucceedsIffPresent(client: RedisClientImpl, server: Keyspace.Keyspace, key: string)
    requires Keyspace.Valid(server) && client.IsAvailable()
    ensures var r := DeleteData(client, server, key, false);
      && r.0.Some?
      && (r.0.value.success <==> key in server)
      && r.0.value.message == (if key in server then DeletedMessage else NoSuchKeyMessage)
      && key !in r.1
  {
    Keyspace.DelCountsDeleted(server, key);
  }

  // ----- testConnection -----

  const TestKey := "redis-connector:test"
  const TestValue := "Hello from Redis Connector!"
  const Working := "Redis working!"
  const Mismatch := "Read/write mismatch"

  /** The keys of the answer: "available" always; "message", "writeSuccess",
      "readValue" and "error" only when the handler put them. */
  datatype TestReport = TestReport(
    available: bool,
    message: Option<string>,
    writeSuccess: Option<bool>,
    readValue: Option<string>,
    error: Option<string>)

  /** The report once the write and then the read complete: no response when
      either completes empty; an error signal adds only its message; two
      values give the verdict comparing the value read with the one written. */
  function TestAnswer(written: Signal, read: Signal): (r: Option<TestReport>)
    ensures r.None? <==> written.Empty? || (written.Value? && read.Empty?)
    ensures r.Some? ==> r.value.available
    ensures r.Some? ==> (r.value.error.Some? <==> r.value.message.None?)
    ensures written.Raised? ==> r == Some(TestReport(true, None, None, None, Some(written.exception)))
    ensures written.Value? && read.Raised? ==> r.Some? && r.value.readValue.None? && r.value.error == Some(read.exception)
    ensures written.Value? && r.Some? ==> r.value.writeSuccess == Some(written.reply == Keyspace.Status("OK"))
    ensures r.Some? && r.value.readValue.Some? ==>
      (r.value.message == Some(Working) <==> r.value.readValue == Some(TestValue))
  {
    match written
    case Empty => None
    case Raised(e) => Some(TestReport(true, None, None, None, Some(e)))
    case Value(setReply) =>
      var writeSuccess := setReply == Keyspace.Status("OK");
      match read
      case Empty => None
      case Raised(e) => Some(TestReport(true, None, Some(writeSuccess), None, Some(e)))
      case Value(readReply) =>
        var readValue := if readReply.Bulk? then readReply.text else "";
        Some(TestReport(true, Some(if readValue == TestValue then Working else Mismatch),
                        Some(writeSuccess), Some(readValue), None))
  }

  /** `testConnection`: an unavailable facade is reported without any write;
      otherwise write the test key, read it back (only after a written
      value), and compare. */
  function TestConnection(client: RedisClientImpl, server: Keyspace.Keyspace, setFault: bool, getFault: bool)
    : (r: (Option<TestReport>, Keyspace.Keyspace))
    reads client
    requires Keyspace.Valid(server)
    ensures !client.IsAvailable() ==> r == (Some(TestReport(false, Some(NotAvailable), None, None, None)), server)
    ensures Keyspace.Valid(r.1)
    ensures r.0.Some? && r.0.value.readValue.Some? ==>
      (r.0.value.message == Some(Working) <==> r.0.value.readValue == Some(TestValue))
  {
    if !client.IsAvailable() then (Some(TestReport(false, Some(NotAvailable), None, None, None)), server)
    else
      var (written, afterSet) := client.Execute(Keyspace.Set(TestKey, TestValue), server, setFault);
      var (read, afterGet) :=
        if written.Value? then client.Execute(Keyspace.Get(TestKey), afterSet, getFault) else (Empty, afterSet);
      (TestAnswer(written, read), afterGet)
  }

  /** A healthy server passes the test: the write is acknowledged, the value
      reads back, and the only change is the test key. */
  lemma HealthyServerWorks(client: RedisClientImpl, server: Keyspace.Keyspace)
    requires Keyspace.Valid(server) && client.IsAvailable()
    ensures var r := TestConnection(client, server, false, false);
      && r.0 == Some(TestReport(true, Some(Working), Some(true), Some(TestValue), None))
      && r.1 == server[TestKey := Keyspace.Entry(Keyspace.StringValue(TestValue), None)]
  {
    Keyspace.SetThenGet(server, TestKey, TestValue);
  }
}
