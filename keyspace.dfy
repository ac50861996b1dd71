/** The key-value store behind the connector, as the `RedisClient` interface
    documents it: each command is a function from the keyspace before it to a
    reply and the keyspace after it, or to an error reply (which the client
    library raises as an exception). Time does not pass: a key's remaining
    time to live is stored and reported as it was set. */
module Keyspace {
  import opened Common
  import opened Decimal
  import SortedSet

  type Positive = n: int | n > 0 witness 1

  datatype Value =
    | StringValue(text: string)
    | ListValue(items: seq<string>)
    | HashValue(fields: map<string, string>)
    | SetValue(members: set<string>)
    | ZSetValue(entries: seq<SortedSet.ZEntry>)

  /** A stored value and its remaining time to live in seconds, if any. */
  datatype Entry = Entry(value: Value, ttl: Option<Positive>)

  type Keyspace = map<string, Entry>

  predicate Valid(ks: Keyspace) {
    forall k :: k in ks && ks[k].value.ZSetValue? ==> SortedSet.Valid(ks[k].value.entries)
  }

  /** The commands the connector's client offers (its verb set). */
  datatype Command =
    | Set(key: string, value: string)
    | SetEx(key: string, value: string, seconds: Long)
    | Get(key: string)
    | Del(key: string)
    | Incr(key: string)
    | IncrBy(key: string, increment: Long)
    | HSet(key: string, field: string, value: string)
    | HGet(key: string, field: string)
    | HGetAll(key: string)
    | SAdd(key: string, members: seq<string>)
    | SMembers(key: string)
    | SIsMember(key: string, member: string)
    | ZAdd(key: string, score: int, member: string)
    | ZRevRange(key: string, start: Long, stop: Long)
    | ZIncrBy(key: string, delta: int, member: string)
    | Exists(key: string)
    | Expire(key: string, seconds: Long)
    | Ttl(key: string)

  /** What a command answers. `Nil` is Java's `null`. */
  datatype Reply =
    | Nil
    | Status(text: string)
    | Bulk(text: string)
    | Integer(n: int)
    | Flag(b: bool)
    | FieldMap(fields: map<string, string>)
    | MemberSet(members: set<string>)
    | Ordered(items: seq<string>)

  datatype Outcome = Ok(reply: Reply, after: Keyspace) | Err(message: string)

  const WrongType := "WRONGTYPE Operation against a key holding the wrong kind of value"
  const NotAnInteger := "ERR value is not an integer or out of range"
  const Overflow := "ERR increment or decrement would overflow"
  const InvalidExpire := "ERR invalid expire time in 'setex' command"
  const SAddArity := "ERR wrong number of arguments for 'sadd' command"

  /** The Java return type of each command, as the shape of its reply. */
  predicate ReplyFits(cmd: Command, r: Reply) {
    match cmd
    case Set(_, _) => r.Nil? || r.Status?
    case SetEx(_, _, _) => r.Nil? || r.Status?
    case Get(_) => r.Nil? || r.Bulk?
    case HGet(_, _) => r.Nil? || r.Bulk?
    case HGetAll(_) => r.FieldMap?
    case SMembers(_) => r.MemberSet?
    case SIsMember(_, _) => r.Flag?
    case Exists(_) => r.Flag?
    case ZRevRange(_, _, _) => r.Ordered?
    case _ => r.Integer?
  }

  /** Commands that only read. */
  predicate ReadOnly(cmd: Command) {
    cmd.Get? || cmd.HGet? || cmd.HGetAll? || cmd.SMembers? || cmd.SIsMember? ||
    cmd.ZRevRange? || cmd.Exists? || cmd.Ttl?
  }

  /** TYPE: the name Redis gives the kind of value under `key`. */
  function TypeName(ks: Keyspace, key: string): string {
    if key !in ks then "none"
    else match ks[key].value
      case StringValue(_) => "string"
      case ListValue(_) => "list"
      case HashValue(_) => "hash"
      case SetValue(_) => "set"
      case ZSetValue(_) => "zset"
  }

  /** TTL: -2 for a missing key, -1 for a key without expiry, else the seconds left. */
  function TtlOf(ks: Keyspace, key: string): int {
    if key !in ks then -2
    else match ks[key].ttl
      case None => -1
      case Some(s) => s
  }

  /** The integer a key holds for INCR/INCRBY: 0 when absent. */
  function CounterOf(ks: Keyspace, key: string): Result<int, string> {
    if key !in ks then Success(0)
    else match ks[key].value
      case StringValue(t) =>
        (match ParseRedisInt(t)
         case Some(v) => Success(v)
         case None => Failure(NotAnInteger))
      case _ => Failure(WrongType)
  }

  /** The outcome of one command against the keyspace. */
  function Apply(ks: Keyspace, cmd: Command): (r: Outcome)
    requires Valid(ks)
    ensures r.Ok? ==> Valid(r.after) && ReplyFits(cmd, r.reply)
    ensures r.Ok? && ReadOnly(cmd) ==> r.after == ks
    ensures r.Err? ==> !cmd.Set? && !cmd.Del? && !cmd.Exists? && !cmd.Ttl? && !cmd.Expire?
  {
    match cmd
    case Set(_, _) => ApplyString(ks, cmd)
    case SetEx(_, _, _) => ApplyString(ks, cmd)
    case Get(_) => ApplyString(ks, cmd)
    case Incr(k) => IncrementBy(ks, k, 1)
    case IncrBy(k, n) => IncrementBy(ks, k, n)
    case HSet(_, _, _) => ApplyHash(ks, cmd)
    case HGet(_, _) => ApplyHash(ks, cmd)
    case HGetAll(_) => ApplyHash(ks, cmd)
    case SAdd(_, _) => ApplySet(ks, cmd)
    case SMembers(_) => ApplySet(ks, cmd)
    case SIsMember(_, _) => ApplySet(ks, cmd)
    case ZAdd(_, _, _) => ApplyZSet(ks, cmd)
    case ZRevRange(_, _, _) => ApplyZSet(ks, cmd)
    case ZIncrBy(_, _, _) => ApplyZSet(ks, cmd)
    case Del(_) => ApplyKey(ks, cmd)
    case Exists(_) => ApplyKey(ks, cmd)
    case Expire(_, _) => ApplyKey(ks, cmd)
    case Ttl(_) => ApplyKey(ks, cmd)
  }

  /** SET, SETEX, GET. */
  function ApplyString(ks: Keyspace, cmd: Command): (r: Outcome)
    requires Valid(ks) && (cmd.Set? || cmd.SetEx? || cmd.Get?)
    ensures r.Ok? ==> Valid(r.after) && ReplyFits(cmd, r.reply)
    ensures r.Ok? && ReadOnly(cmd) ==> r.after == ks
    ensures r.Err? ==> !cmd.Set?
  {
    match cmd
    case Set(k, v) => Ok(Status("OK"), ks[k := Entry(StringValue(v), None)])
    case SetEx(k, v, secs) =>
      if secs <= 0 then Err(InvalidExpire)
      else Ok(Status("OK"), ks[k := Entry(StringValue(v), Some(secs))])
    case Get(k) =>
      if k !in ks then Ok(Nil, ks)
      else if ks[k].value.StringValue? then Ok(Bulk(ks[k].value.text), ks)
      else Err(WrongType)
  }

  /** HSET, HGET, HGETALL. */
  function ApplyHash(ks: Keyspace, cmd: Command): (r: Outcome)
    requires Valid(ks) && (cmd.HSet? || cmd.HGet? || cmd.HGetAll?)
    ensures r.Ok? ==> Valid(r.after) && ReplyFits(cmd, r.reply)
    ensures r.Ok? && ReadOnly(cmd) ==> r.after == ks
  {
    match cmd
    case HSet(k, f, v) =>
      if k !in ks then Ok(Integer(1), ks[k := Entry(HashValue(map[f := v]), None)])
      else if !ks[k].value.HashValue? then Err(WrongType)
      else
        var fields := ks[k].value.fields;
        Ok(Integer(if f in fields then 0 else 1),
           ks[k := Entry(HashValue(fields[f := v]), ks[k].ttl)])
    case HGet(k, f) =>
      if k !in ks then Ok(Nil, ks)
      else if !ks[k].value.HashValue? then Err(WrongType)
      else if f in ks[k].value.fields then Ok(Bulk(ks[k].value.fields[f]), ks)
      else Ok(Nil, ks)
    case HGetAll(k) =>
      if k !in ks then Ok(FieldMap(map[]), ks)
      else if ks[k].value.HashValue? then Ok(FieldMap(ks[k].value.fields), ks)
      else Err(WrongType)
  }

  /** SADD, SMEMBERS, SISMEMBER. */
  function ApplySet(ks: Keyspace, cmd: Command): (r: Outcome)
    requires Valid(ks) && (cmd.SAdd? || cmd.SMembers? || cmd.SIsMember?)
    ensures r.Ok? ==> Valid(r.after) && ReplyFits(cmd, r.reply)
    ensures r.Ok? && ReadOnly(cmd) ==> r.after == ks
  {
    match cmd
    case SAdd(k, ms) =>
      if |ms| == 0 then Err(SAddArity)
      else if k !in ks then
        Ok(Integer(|set m | m in ms|), ks[k := Entry(SetValue(set m | m in ms), None)])
      else if !ks[k].value.SetValue? then Err(WrongType)
      else
        var present := ks[k].value.members;
        var added := (set m | m in ms) - present;
        Ok(Integer(|added|), ks[k := Entry(SetValue(present + added), ks[k].ttl)])
    case SMembers(k) =>
      if k !in ks then Ok(MemberSet({}), ks)
      else if ks[k].value.SetValue? then Ok(MemberSet(ks[k].value.members), ks)
      else Err(WrongType)
    case SIsMember(k, m) =>
      if k !in ks then Ok(Flag(false), ks)
      else if ks[k].value.SetValue? then Ok(Flag(m in ks[k].value.members), ks)
      else Err(WrongType)
  }

  /** ZADD, ZREVRANGE, ZINCRBY. */
  function ApplyZSet(ks: Keyspace, cmd: Command): (r: Outcome)
    requires Valid(ks) && (cmd.ZAdd? || cmd.ZRevRange? || cmd.ZIncrBy?)
    ensures r.Ok? ==> Valid(r.after) && ReplyFits(cmd, r.reply)
    ensures r.Ok? && ReadOnly(cmd) ==> r.after == ks
  {
    match cmd
    case ZAdd(k, score, m) =>
      if k !in ks then
        Ok(Integer(1), ks[k := Entry(ZSetValue(SortedSet.Upsert([], m, score)), None)])
      else if !ks[k].value.ZSetValue? then Err(WrongType)
      else
        var es := ks[k].value.entries;
        Ok(Integer(if m in SortedSet.Members(es) then 0 else 1),
           ks[k := Entry(ZSetValue(SortedSet.Upsert(es, m, score)), ks[k].ttl)])
    case ZRevRange(k, start, stop) =>
      if k !in ks then Ok(Ordered([]), ks)
      else if ks[k].value.ZSetValue? then
        Ok(Ordered(SortedSet.RevRange(ks[k].value.entries, start, stop)), ks)
      else Err(WrongType)
    case ZIncrBy(k, n, m) =>
      if k !in ks then
        Ok(Integer(n), ks[k := Entry(ZSetValue(SortedSet.Upsert([], m, n)), None)])
      else if !ks[k].value.ZSetValue? then Err(WrongType)
      else
        var es := ks[k].value.entries;
        var score := SortedSet.ScoreOf(es, m).GetOr(0) + n;
        Ok(Integer(score), ks[k := Entry(ZSetValue(SortedSet.Upsert(es, m, score)), ks[k].ttl)])
  }

  /** DEL, EXISTS, EXPIRE, TTL: commands on keys of any type. */
  function ApplyKey(ks: Keyspace, cmd: Command): (r: Outcome)
    requires Valid(ks) && (cmd.Del? || cmd.Exists? || cmd.Expire? || cmd.Ttl?)
    ensures r.Ok? && Valid(r.after) && ReplyFits(cmd, r.reply)
    ensures ReadOnly(cmd) ==> r.after == ks
  {
    match cmd
    case Del(k) => Ok(Integer(if k in ks then 1 else 0), ks - {k})
    case Exists(k) => Ok(Flag(k in ks), ks)
    case Expire(k, secs) =>
      if k !in ks then Ok(Integer(0), ks)
      else if secs <= 0 then Ok(Integer(1), ks - {k})
      else Ok(Integer(1), ks[k := Entry(ks[k].value, Some(secs))])
    case Ttl(k) => Ok(Integer(TtlOf(ks, k)), ks)
  }

  /** INCR / INCRBY: add to the integer held as text, keeping the key's expiry. */
  function IncrementBy(ks: Keyspace, k: string, n: int): (r: Outcome)
    requires Valid(ks)
    ensures r.Ok? ==> Valid(r.after) && r.reply.Integer?
    ensures r.Ok? <==> CounterOf(ks, k).Success? && MinLong <= CounterOf(ks, k).value + n <= MaxLong
    ensures r.Ok? ==> r.reply.n == CounterOf(ks, k).value + n && CounterOf(r.after, k) == Success(r.reply.n)
  {
    match CounterOf(ks, k)
    case Failure(e) => Err(e)
    case Success(v) =>
      if v + n < MinLong || v + n > MaxLong then Err(Overflow)
      else
        var ttl := if k in ks then ks[k].ttl else None;
        RedisIntRoundTrip(v + n);
        Ok(Integer(v + n), ks[k := Entry(StringValue(FormatInt(v + n)), ttl)])
  }

  // ----- The documented results of the RedisClient operations -----

  /** `set` answers "OK"; a following `get` returns the value and the key has no expiry. */
  lemma SetThenGet(ks: Keyspace, k: string, v: string)
    requires Valid(ks)
    ensures Apply(ks, Set(k, v)).Ok? && Apply(ks, Set(k, v)).reply == Status("OK")
    ensures var after := Apply(ks, Set(k, v)).after;
      && Apply(after, Get(k)) == Ok(Bulk(v), after)
      && Apply(after, Ttl(k)) == Ok(Integer(-1), after)
      && forall other :: other != k ==> (other in after <==> other in ks) && (other in ks ==> after[other] == ks[other])
  {
  }

  /** `setEx` with a positive time answers "OK" and sets that time to live;
      a non-positive time is refused. */
  lemma SetExThenTtl(ks: Keyspace, k: string, v: string, secs: Long)
    requires Valid(ks)
    ensures secs <= 0 <==> Apply(ks, SetEx(k, v, secs)).Err?
    ensures secs > 0 ==>
      var after := Apply(ks, SetEx(k, v, secs)).after;
      && Apply(ks, SetEx(k, v, secs)).reply == Status("OK")
      && Apply(after, Get(k)) == Ok(Bulk(v), after)
      && Apply(after, Ttl(k)) == Ok(Integer(secs), after)
  {
  }

  /** `get` of a missing key returns null. */
  lemma GetMissing(ks: Keyspace, k: string)
    requires Valid(ks) && k !in ks
    ensures Apply(ks, Get(k)) == Ok(Nil, ks)
  {
  }

  /** `del` returns the number of keys it deleted, and the key is gone. */
  lemma DelCountsDeleted(ks: Keyspace, k: string)
    requires Valid(ks)
    ensures var r := Apply(ks, Del(k));
      && r.Ok? && r.reply == Integer(if k in ks then 1 else 0)
      && k !in r.after
      && Apply(r.after, Exists(k)) == Ok(Flag(false), r.after)
      && Apply(r.after, Ttl(k)) == Ok(Integer(-2), r.after)
  {
  }

  /** `incr` and `incrBy` return the value after the addition, and the key then holds it. */
  lemma IncrReturnsNewValue(ks: Keyspace, k: string, n: Long)
    requires Valid(ks)
    requires CounterOf(ks, k).Success?
    requires MinLong <= CounterOf(ks, k).value + n <= MaxLong
    ensures Apply(ks, IncrBy(k, n)).Ok?
    ensures Apply(ks, IncrBy(k, n)).reply == Integer(CounterOf(ks, k).value + n)
    ensures var after := Apply(ks, IncrBy(k, n)).after;
      Apply(after, Get(k)) == Ok(Bulk(FormatInt(CounterOf(ks, k).value + n)), after)
  {
  }

  /** Two increments add up: incrBy(a) then incrBy(b) leaves the store as incrBy(a + b). */
  lemma IncrByComposes(ks: Keyspace, k: string, a: Long, b: Long)
    requires Valid(ks)
    requires CounterOf(ks, k).Success?
    requires MinLong <= CounterOf(ks, k).value + a <= MaxLong
    requires MinLong <= CounterOf(ks, k).value + a + b <= MaxLong
    requires MinLong <= a + b <= MaxLong
    ensures var first := Apply(ks, IncrBy(k, a));
      && first.Ok?
      && Apply(first.after, IncrBy(k, b)) == Apply(ks, IncrBy(k, a + b))
  {
    var first := Apply(ks, IncrBy(k, a));
    assert first == IncrementBy(ks, k, a);
    assert Apply(first.after, IncrBy(k, b)) == IncrementBy(first.after, k, b);
    assert Apply(ks, IncrBy(k, a + b)) == IncrementBy(ks, k, a + b);
    IncrementByComposes(ks, k, a, b);
  }

  /** The step of IncrByComposes: the stored text reads back as the sum, and
      the expiry is carried over, so the second increment continues the first. */
  lemma {:induction false} IncrementByComposes(ks: Keyspace, k: string, a: int, b: int)
    requires Valid(ks)
    requires CounterOf(ks, k).Success?
    requires MinLong <= CounterOf(ks, k).value + a <= MaxLong
    requires MinLong <= CounterOf(ks, k).value + a + b <= MaxLong
    ensures IncrementBy(ks, k, a).Ok?
    ensures IncrementBy(IncrementBy(ks, k, a).after, k, b) == IncrementBy(ks, k, a + b)
  {
    var v := CounterOf(ks, k).value;
    var ttl := if k in ks then ks[k].ttl else None;
    var after := IncrementBy(ks, k, a).after;
    assert after == ks[k := Entry(StringValue(FormatInt(v + a)), ttl)];
    RedisIntRoundTrip(v + a);
    assert CounterOf(after, k) == Success(v + a);
    assert after[k := Entry(StringValue(FormatInt(v + a + b)), ttl)]
        == ks[k := Entry(StringValue(FormatInt(v + a + b)), ttl)];
  }

  /** `hset` returns 1 for a new field and 0 for an update; `hget` then reads the value,
      and `hget` of a missing field returns null. */
  lemma HSetThenHGet(ks: Keyspace, k: string, f: string, v: string)
    requires Valid(ks)
    requires k !in ks || ks[k].value.HashValue?
    ensures var r := Apply(ks, HSet(k, f, v));
      && r.Ok?
      && r.reply == Integer(if k in ks && f in ks[k].value.fields then 0 else 1)
      && Apply(r.after, HGet(k, f)) == Ok(Bulk(v), r.after)
    ensures k !in ks || f !in ks[k].value.fields ==> Apply(ks, HGet(k, f)) == Ok(Nil, ks)
  {
  }

  /** `sadd` returns how many of the members were new; each is a member afterwards. */
  lemma SAddCountsNew(ks: Keyspace, k: string, ms: seq<string>)
    requires Valid(ks)
    requires |ms| > 0
    requires k !in ks || ks[k].value.SetValue?
    ensures var r := Apply(ks, SAdd(k, ms));
      var before := if k in ks then ks[k].value.members else {};
      && r.Ok?
      && r.reply == Integer(|(set m | m in ms) - before|)
      && forall m :: m in ms ==> Apply(r.after, SIsMember(k, m)) == Ok(Flag(true), r.after)
  {
    var r := Apply(ks, SAdd(k, ms));
    assert r == ApplySet(ks, SAdd(k, ms));
    forall m | m in ms ensures Apply(r.after, SIsMember(k, m)) == Ok(Flag(true), r.after) {
      assert Apply(r.after, SIsMember(k, m)) == ApplySet(r.after, SIsMember(k, m));
    }
  }

  /** `sismember` is true exactly when the member is in the set. */
  lemma SIsMemberIffPresent(ks: Keyspace, k: string, m: string)
    requires Valid(ks)
    requires k !in ks || ks[k].value.SetValue?
    ensures Apply(ks, SIsMember(k, m)) == Ok(Flag(k in ks && m in ks[k].value.members), ks)
  {
  }

  /** `zadd` returns 1 for a new member and 0 when it only changes a score. */
  lemma ZAddCountsNew(ks: Keyspace, k: string, score: int, m: string)
    requires Valid(ks)
    requires k !in ks || ks[k].value.ZSetValue?
    ensures var r := Apply(ks, ZAdd(k, score, m));
      && r.Ok?
      && r.reply == Integer(if k in ks && m in SortedSet.Members(ks[k].value.entries) then 0 else 1)
      && SortedSet.ScoreOf(r.after[k].value.entries, m) == Some(score)
  {
  }

  /** `zrevrange` returns members of the sorted set, by descending score. */
  lemma ZRevRangeByDescendingScore(ks: Keyspace, k: string, start: Long, stop: Long)
    requires Valid(ks)
    requires k in ks && ks[k].value.ZSetValue?
    ensures var r := Apply(ks, ZRevRange(k, start, stop));
      var es := SortedSet.RevEntries(ks[k].value.entries, start, stop);
      && r == Ok(Ordered(SortedSet.RevRange(ks[k].value.entries, start, stop)), ks)
      && |r.reply.items| == |es|
      && (forall i :: 0 <= i < |es| ==> r.reply.items[i] == es[i].member)
      && (forall i, j :: 0 <= i < j < |es| ==> es[i].score >= es[j].score)
  {
    SortedSet.RevRangeDescending(ks[k].value.entries, start, stop);
  }

  /** A leaderboard: after zadd("lb", 100, "alice") and zadd("lb", 50, "bob"),
      zrevrange("lb", 0, 1) returns alice then bob, highest score first. */
  lemma LeaderboardExample()
    ensures Apply(map[], ZAdd("lb", 100, "alice")) == Ok(Integer(1), BoardWithAlice)
    ensures Apply(BoardWithAlice, ZAdd("lb", 50, "bob")) == Ok(Integer(1), BoardWithBoth)
    ensures Apply(BoardWithBoth, ZRevRange("lb", 0, 1)) == Ok(Ordered(["alice", "bob"]), BoardWithBoth)
  {
    LeaderboardEntries();
  }

  const BoardWithAlice: Keyspace := map["lb" := Entry(ZSetValue([SortedSet.ZEntry("alice", 100)]), None)]
  const BoardWithBoth: Keyspace :=
    map["lb" := Entry(ZSetValue([SortedSet.ZEntry("bob", 50), SortedSet.ZEntry("alice", 100)]), None)]

  /** The sorted-set steps of the leaderboard example. */
  lemma LeaderboardEntries()
    ensures SortedSet.Upsert([], "alice", 100) == [SortedSet.ZEntry("alice", 100)]
    ensures SortedSet.Upsert([SortedSet.ZEntry("alice", 100)], "bob", 50)
         == [SortedSet.ZEntry("bob", 50), SortedSet.ZEntry("alice", 100)]
    ensures SortedSet.RevRange([SortedSet.ZEntry("bob", 50), SortedSet.ZEntry("alice", 100)], 0, 1)
         == ["alice", "bob"]
  {
    var alice, bob := SortedSet.ZEntry("alice", 100), SortedSet.ZEntry("bob", 50);
    assert SortedSet.Upsert([], "alice", 100) == [alice] by {
      assert SortedSet.Remove([], "alice") == [];
    }
    assert SortedSet.Upsert([alice], "bob", 50) == [bob, alice] by {
      assert SortedSet.Remove([alice], "bob") == [alice] by {
        assert SortedSet.Remove([alice][1..], "bob") == [];
      }
      assert SortedSet.Precedes(bob, alice);
    }
    assert SortedSet.RevRange([bob, alice], 0, 1) == ["alice", "bob"] by {
      assert SortedSet.RangeBounds(2, 0, 1) == (0, 2);
      assert SortedSet.Reverse([bob, alice]) == [alice, bob];
    }
  }

  /** `expire` returns 1 when the key exists (and sets its time to live) and 0 when it does not. */
  lemma ExpireReply(ks: Keyspace, k: string, secs: Long)
    requires Valid(ks)
    ensures var r := Apply(ks, Expire(k, secs));
      && r.Ok?
      && r.reply == Integer(if k in ks then 1 else 0)
      && (k in ks && secs > 0 ==> Apply(r.after, Ttl(k)) == Ok(Integer(secs), r.after))
      && (k !in ks ==> r.after == ks)
  {
  }

  /** `ttl` returns -2 for a missing key, -1 for a key without expiry, else the seconds left. */
  lemma TtlSentinels(ks: Keyspace, k: string)
    requires Valid(ks)
    ensures k !in ks ==> Apply(ks, Ttl(k)) == Ok(Integer(-2), ks)
    ensures k in ks && ks[k].ttl.None? ==> Apply(ks, Ttl(k)) == Ok(Integer(-1), ks)
    ensures k in ks && ks[k].ttl.Some? ==> Apply(ks, Ttl(k)).reply.n > 0
  {
  }

  /** `zincrby` returns the member's new score: its old score (0 when it was
      absent) plus the increment, which the member then holds. */
  lemma ZIncrByAdds(ks: Keyspace, k: string, delta: int, m: string)
    requires Valid(ks)
    requires k !in ks || ks[k].value.ZSetValue?
    ensures var before := if k in ks then SortedSet.ScoreOf(ks[k].value.entries, m).GetOr(0) else 0;
      var r := Apply(ks, ZIncrBy(k, delta, m));
      && r.Ok?
      && r.reply == Integer(before + delta)
      && SortedSet.ScoreOf(r.after[k].value.entries, m) == Some(before + delta)
  {
    assert Apply(ks, ZIncrBy(k, delta, m)) == ApplyZSet(ks, ZIncrBy(k, delta, m));
    if k in ks {
      var es := ks[k].value.entries;
      var score := SortedSet.ScoreOf(es, m).GetOr(0) + delta;
      assert SortedSet.ScoreOf(SortedSet.Upsert(es, m, score), m) == Some(score);
    } else {
      assert SortedSet.ScoreOf(SortedSet.Upsert([], m, delta), m) == Some(delta);
    }
  }

  /** `exists` is true exactly for a present key. */
  lemma ExistsIffPresent(ks: Keyspace, k: string)
    requires Valid(ks)
    ensures Apply(ks, Exists(k)) == Ok(Flag(k in ks), ks)
  {
  }

  /** `hgetAll` and `smembers` return the whole stored hash or set, and an
      empty one for a missing key. */
  lemma WholeCollections(ks: Keyspace, k: string)
    requires Valid(ks)
    ensures k !in ks ==> Apply(ks, HGetAll(k)) == Ok(FieldMap(map[]), ks)
    ensures k !in ks ==> Apply(ks, SMembers(k)) == Ok(MemberSet({}), ks)
    ensures k in ks && ks[k].value.HashValue? ==> Apply(ks, HGetAll(k)) == Ok(FieldMap(ks[k].value.fields), ks)
    ensures k in ks && ks[k].value.SetValue? ==> Apply(ks, SMembers(k)) == Ok(MemberSet(ks[k].value.members), ks)
  {
  }
}
