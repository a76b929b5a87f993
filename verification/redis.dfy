/** The Redis command client (RedisImpl): argument checks, the
    borrow/return discipline around every operation, and the single-reply
    commands GET, SET, PEXPIRE, DEL, INCRBY and PUBLISH. */
module Redis {
  import opened Common
  import opened Connection
  import opened Protocol
  import opened Pool
  import Encodings

  /** Duration.ofMillis(500).toNanos(). */
  const DEFAULT_SLOW_OPERATION_THRESHOLD_NANOS: int := 500 * NANOS_PER_MILLI

  const KEYS_MUST_NOT_BE_EMPTY: string := "keys must not be empty"
  const VALUES_MUST_NOT_BE_EMPTY: string := "values must not be empty"
  const EXPIRATION_TOO_SHORT: string := "expiration time must be longer than 1ms"

  datatype RedisClient = RedisClient(pool: Pool, slowOperationThresholdInNanos: int)

  /** What an operation leaves behind: the client (its pool and connection)
      and either a value or the failure it threw. */
  datatype Outcome<+T> = Outcome(redis: RedisClient, result: Result<T>)

  /** A client over a connection, with nothing borrowed yet and the default
      slow-operation threshold. */
  function NewClient(conn: Conn): (redis: RedisClient)
    ensures redis.pool.resource == conn && Balanced(redis.pool.events)
    ensures redis.slowOperationThresholdInNanos == 500_000_000
  {
    RedisClient(Pool(conn, []), DEFAULT_SLOW_OPERATION_THRESHOLD_NANOS)
  }

  /** `slowOperationThreshold(threshold)`: only the threshold changes, and
      from then on exactly the operations slower than it are reported. */
  function SlowOperationThreshold(redis: RedisClient, threshold: Duration): (r: RedisClient)
    ensures r.pool == redis.pool && r.slowOperationThresholdInNanos == threshold.nanos
    ensures forall elapsed :: CheckSlowOperation(r, elapsed) <==> elapsed > threshold.nanos
  {
    redis.(slowOperationThresholdInNanos := threshold.nanos)
  }

  /** Whether an operation that took `elapsed` nanoseconds is reported as a
      slow operation (SLOW_REDIS). */
  function CheckSlowOperation(redis: RedisClient, elapsed: int): bool {
    elapsed > redis.slowOperationThresholdInNanos
  }

  /** The warning is strict: an operation that takes exactly the threshold
      is not slow, and anything slower than a slow operation is slow too. */
  lemma SlowOperationIsStrictAndMonotone(redis: RedisClient, elapsed: int, longer: int)
    requires elapsed <= longer
    ensures !CheckSlowOperation(redis, redis.slowOperationThresholdInNanos)
    ensures CheckSlowOperation(redis, elapsed) ==> CheckSlowOperation(redis, longer)
    ensures CheckSlowOperation(redis, elapsed) <==> elapsed >= redis.slowOperationThresholdInNanos + 1
  {
  }

  /** The private `expirationTime(Duration)`: the PX argument, refused
      unless the duration is at least one whole millisecond. */
  function ExpirationArgument(expiration: Duration): (r: Result<Bytes>)
    ensures r.Ok? <==> expiration.nanos >= NANOS_PER_MILLI
    ensures r.Ok? ==> r.value == Encodings.EncodeLong(ToMillis(expiration)) && ToMillis(expiration) >= 1
    ensures r.Fail? ==> r.failure == CallerError(EXPIRATION_TOO_SHORT)
  {
    var millis := ToMillis(expiration);
    if millis <= 0 then Fail(CallerError(EXPIRATION_TOO_SHORT)) else Ok(Encodings.EncodeLong(millis))
  }

  // ------------------------------------------------------ borrow and return

  /** The reply the next read will find, or None when it will fail. */
  function NextReply(redis: RedisClient): Option<Reply> {
    var script := redis.pool.resource.script;
    if script != [] && script[0].Arrives? then Some(script[0].reply) else None
  }

  /** The `catch (IOException)` and `finally` of every operation: the item
      is marked broken exactly when the step failed with an I/O failure, and
      is returned to the pool either way. */
  function Finish<T>(redis: RedisClient, checkout: Checkout, s: Step<T>): (o: Outcome<T>)
    requires !checkout.item.broken
    ensures o.result == s.result && o.redis.pool.resource == s.conn
    ensures o.redis.pool.events == checkout.pool.events + [Returned(IsIOFailure(s.result))]
    ensures o.redis.slowOperationThresholdInNanos == redis.slowOperationThresholdInNanos
  {
    var item := checkout.item.(resource := s.conn);
    var returned := if IsIOFailure(s.result) then item.(broken := true) else item;
    Outcome(redis.(pool := ReturnItem(checkout.pool, returned)), s.result)
  }

  /** The operation borrowed one item and returned it once, broken exactly
      on the I/O failure path. */
  predicate ReturnedOnce<T>(redis: RedisClient, o: Outcome<T>) {
    && o.redis.pool.events == redis.pool.events + [Borrowed, Returned(IsIOFailure(o.result))]
    && o.redis.slowOperationThresholdInNanos == redis.slowOperationThresholdInNanos
  }

  /** The operation failed on its arguments and touched nothing. */
  predicate Rejected<T>(redis: RedisClient, o: Outcome<T>, message: string) {
    o.redis == redis && o.result.Fail? && o.result.failure == CallerError(message)
  }

  /** The operation wrote exactly these frames, in this order. */
  predicate Wrote<T>(redis: RedisClient, o: Outcome<T>, frames: seq<Frame>) {
    o.redis.pool.resource.written == redis.pool.resource.written + SerializeAll(frames)
  }

  /** The operation read exactly one reply (or met the end of the stream). */
  predicate ReadOne<T>(redis: RedisClient, o: Outcome<T>) {
    var script := redis.pool.resource.script;
    o.redis.pool.resource.script == if script == [] then [] else script[1..]
  }

  /** How a single-reply operation answers: an I/O failure when no reply
      comes, the server's error for an error reply, the cast value for a
      reply of the expected kind, UnexpectedReply otherwise. */
  predicate AnswersWith<T(==)>(redis: RedisClient, o: Outcome<T>, cast: Reply -> Option<T>) {
    match NextReply(redis)
    case None => IsIOFailure(o.result)
    case Some(reply) =>
      if reply.ErrorReply? then o.result == Fail(ServerError(reply.message))
      else match cast(reply)
        case None => o.result == Fail(UnexpectedReply)
        case Some(v) => o.result == Ok(v)
  }

  /** Runs a one-frame, one-reply command on a borrowed connection. */
  function Command<T(==)>(redis: RedisClient, f: Frame, cast: Reply -> Option<T>): (o: Outcome<T>)
    ensures ReturnedOnce(redis, o) && Wrote(redis, o, [f]) && ReadOne(redis, o)
    ensures AnswersWith(redis, o, cast)
  {
    SerializeSingle(f);
    var checkout := BorrowItem(redis.pool);
    var conn := WriteCommand(checkout.item.resource, f);
    Finish(redis, checkout, Typed(ReadReply(conn), cast))
  }

  // ------------------------------------------------------------ operations

  /** `getBytes(key)`: GET, answered by a bulk string (null when absent). */
  function GetBytes(redis: RedisClient, key: string): (o: Outcome<Option<Bytes>>)
    ensures ReturnedOnce(redis, o) && ReadOne(redis, o)
    ensures Wrote(redis, o, [[GET, Encodings.Encode(key)]])
    ensures AnswersWith(redis, o, AsBlobString)
    ensures o.result.Ok? ==> NextReply(redis) == Some(BulkString(o.result.value))
  {
    Command(redis, [GET, Encodings.Encode(key)], AsBlobString)
  }

  /** Whether SET reports success: only the simple string "OK" does; a
      null reply (NX lost the race) or any other text is false. */
  function IsOk(result: Option<string>): bool {
    result == Some("OK")
  }

  /** What `set` makes of its reply: true only for the simple string "OK";
      false for any other simple string and for a null reply (NX lost). */
  function SetAnswer(reply: Reply): Option<bool> {
    match reply
    case SimpleString(text) => Some(text == "OK")
    case BulkString(None) => Some(false)
    case _ => None
  }

  /** The arguments `set` sends, once its expiration has been accepted. */
  function SetRequestOf(key: string, value: Bytes, expiration: Option<Duration>, onlyIfAbsent: bool): SetRequest {
    SetRequest(key, value, onlyIfAbsent, if expiration.Some? then Some(ToMillis(expiration.value)) else None)
  }

  /** `set(key, value, expiration, onlyIfAbsent)`. The expiration is checked
      before anything is borrowed. */
  function Set(redis: RedisClient, key: string, value: Bytes, expiration: Option<Duration>, onlyIfAbsent: bool)
    : (o: Outcome<bool>)
    ensures expiration.Some? && expiration.value.nanos < NANOS_PER_MILLI ==> Rejected(redis, o, EXPIRATION_TOO_SHORT)
    ensures expiration.None? || expiration.value.nanos >= NANOS_PER_MILLI ==>
      && ReturnedOnce(redis, o) && ReadOne(redis, o)
      && Wrote(redis, o, [SetFrame(SetRequestOf(key, value, expiration, onlyIfAbsent))])
      && AnswersWith(redis, o, SetAnswer)
  {
    var expirationTime := if expiration.None? then Ok([]) else ExpirationArgument(expiration.value);
    if expirationTime.Fail? then Outcome(redis, Fail(expirationTime.failure))
    else SetCommand(redis, key, value, expiration, onlyIfAbsent, expirationTime.value)
  }

  /** The part of `set` after the expiration is accepted: borrow, write the
      SET, read the simple-string reply, return the item. */
  function SetCommand(redis: RedisClient, key: string, value: Bytes, expiration: Option<Duration>, onlyIfAbsent: bool,
                      expirationTime: Bytes): (o: Outcome<bool>)
    requires expiration.Some? ==> expirationTime == Encodings.EncodeLong(ToMillis(expiration.value))
    ensures ReturnedOnce(redis, o) && ReadOne(redis, o)
    ensures Wrote(redis, o, [SetFrame(SetRequestOf(key, value, expiration, onlyIfAbsent))])
    ensures AnswersWith(redis, o, SetAnswer)
  {
    var checkout := BorrowItem(redis.pool);
    var conn := WriteSetCommand(checkout.item.resource, key, value, expiration, onlyIfAbsent, expirationTime);
    var reply := ReadSimpleString(conn);
    var updated := match reply.result
      case Ok(text) => Ok(IsOk(text))
      case Fail(f) => Fail(f);
    Finish(redis, checkout, Step(reply.conn, updated))
  }

  /** `set` answers true exactly when the server replied with the simple
      string "OK", and false exactly for another simple string or a null
      reply; an I/O failure is the only way it marks the item broken. */
  lemma SetTrueIffOk(redis: RedisClient, key: string, value: Bytes, expiration: Option<Duration>, onlyIfAbsent: bool)
    requires expiration.None? || expiration.value.nanos >= NANOS_PER_MILLI
    ensures var o := Set(redis, key, value, expiration, onlyIfAbsent);
      && (o.result == Ok(true) <==> NextReply(redis) == Some(SimpleString("OK")))
      && (o.result == Ok(false) <==>
            (NextReply(redis).Some? &&
             (NextReply(redis).value == BulkString(None) ||
              (NextReply(redis).value.SimpleString? && NextReply(redis).value.text != "OK"))))
      && (IsIOFailure(o.result) <==> NextReply(redis).None?)
  {
    var o := Set(redis, key, value, expiration, onlyIfAbsent);
    assert AnswersWith(redis, o, SetAnswer);
  }

  /** The writes of `set`: an announced length, then SET, the key, the
      value, NX when only-if-absent, PX and the milliseconds when expiring;
      the announced length agrees with the elements that follow it. */
  function WriteSetCommand(c: Conn, key: string, value: Bytes, expiration: Option<Duration>, onlyIfAbsent: bool,
                           expirationTime: Bytes): (c': Conn)
    requires expiration.Some? ==> expirationTime == Encodings.EncodeLong(ToMillis(expiration.value))
    ensures c'.written == c.written + SerializeAll([SetFrame(SetRequestOf(key, value, expiration, onlyIfAbsent))])
    ensures c'.script == c.script
  {
    var length := 3 + (if onlyIfAbsent then 1 else 0) + (if expiration.Some? then 2 else 0);
    var elements := [SET, Encodings.Encode(key), value]
      + (if onlyIfAbsent then [NX] else [])
      + (if expiration.Some? then [PX, expirationTime] else []);
    assert elements == SetFrame(SetRequestOf(key, value, expiration, onlyIfAbsent));
    WriteFrameSerializes(c, length, elements);
    WriteArguments(WriteArray(c, length), elements)
  }

  /** `expire(key, expiration)`: PEXPIRE with the milliseconds as given;
      zero and negative durations are sent, not refused. */
  function Expire(redis: RedisClient, key: string, expiration: Duration): (o: Outcome<int>)
    ensures ReturnedOnce(redis, o) && ReadOne(redis, o)
    ensures Wrote(redis, o, [[PEXPIRE, Encodings.Encode(key), Encodings.EncodeLong(ToMillis(expiration))]])
    ensures AnswersWith(redis, o, AsLong)
  {
    Command(redis, [PEXPIRE, Encodings.Encode(key), Encodings.EncodeLong(ToMillis(expiration))], AsLong)
  }

  /** `del(keys...)`: refused for no keys; otherwise one DEL with every key,
      answered by the number of keys removed. */
  function Del(redis: RedisClient, keys: seq<string>): (o: Outcome<int>)
    ensures |keys| == 0 ==> Rejected(redis, o, KEYS_MUST_NOT_BE_EMPTY)
    ensures |keys| > 0 ==> ReturnedOnce(redis, o) && ReadOne(redis, o) && AnswersWith(redis, o, AsLong)
    ensures |keys| > 0 ==> Wrote(redis, o, [[DEL] + EncodeAll(keys)])
  {
    if |keys| == 0 then Outcome(redis, Fail(CallerError(KEYS_MUST_NOT_BE_EMPTY)))
    else Command(redis, [DEL] + EncodeAll(keys), AsLong)
  }

  /** `increaseBy(key, increment)`: INCRBY, answered by the new value; a
      non-numeric value comes back as the server's error, and the
      connection is not marked broken for it. */
  function IncreaseBy(redis: RedisClient, key: string, increment: int): (o: Outcome<int>)
    ensures ReturnedOnce(redis, o) && ReadOne(redis, o) && AnswersWith(redis, o, AsLong)
    ensures Wrote(redis, o, [[INCRBY, Encodings.Encode(key), Encodings.EncodeLong(increment)]])
    ensures NextReply(redis).Some? && NextReply(redis).value.ErrorReply? ==>
      o.result.Fail? && o.redis.pool.events[|o.redis.pool.events| - 1] == Returned(false)
  {
    Command(redis, [INCRBY, Encodings.Encode(key), Encodings.EncodeLong(increment)], AsLong)
  }

  /** `publish(channel, message)`: PUBLISH, answered by the receiver count. */
  function Publish(redis: RedisClient, channel: string, message: Bytes): (o: Outcome<int>)
    ensures ReturnedOnce(redis, o) && ReadOne(redis, o) && AnswersWith(redis, o, AsLong)
    ensures Wrote(redis, o, [[PUBLISH, Encodings.Encode(channel), message]])
  {
    Command(redis, [PUBLISH, Encodings.Encode(channel), message], AsLong)
  }

  /** What an operation wrote reads back, on the server's side, as exactly
      the frames it meant to send. */
  lemma WroteParses<T>(redis: RedisClient, o: Outcome<T>, frames: seq<Frame>)
    requires Wrote(redis, o, frames)
    ensures ParseFrames(o.redis.pool.resource.written[|redis.pool.resource.written|..]) == Some(frames)
  {
    var before := redis.pool.resource.written;
    assert o.redis.pool.resource.written[|before|..] == SerializeAll(frames);
    ParseSerializeAll(frames);
  }

  /** `del` hands the server one DEL command naming every key, in order. */
  lemma DelSendsEveryKey(redis: RedisClient, keys: seq<string>)
    requires |keys| > 0
    ensures var o := Del(redis, keys);
      var sent := ParseFrames(o.redis.pool.resource.written[|redis.pool.resource.written|..]);
      && sent.Some? && |sent.value| == 1 && sent.value[0][0] == DEL
      && DecodeAll(sent.value[0][1..]) == keys
  {
    var o := Del(redis, keys);
    WroteParses(redis, o, [[DEL] + EncodeAll(keys)]);
    assert ([DEL] + EncodeAll(keys))[1..] == EncodeAll(keys);
    DecodeEncodeAll(keys);
  }

  /** Every operation that gets past its argument checks leaves the pool's
      borrow/return history balanced, with no item still out. */
  lemma ReturnedOnceKeepsBalance<T>(redis: RedisClient, o: Outcome<T>)
    requires Balanced(redis.pool.events) && ReturnedOnce(redis, o)
    ensures Balanced(o.redis.pool.events) && Outstanding(o.redis.pool.events) == 0
  {
    BalancedAfterPair(redis.pool.events, IsIOFailure(o.result));
    BalancedHasNoneOutstanding(o.redis.pool.events);
  }
}
