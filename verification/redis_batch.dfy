/** The multi-key operations of the Redis client: MGET with its positional
    alignment of replies to keys, MSET, the pipelined SET-with-PX emulation of
    a multi-set with expiration, and the pipelined PTTL batch. */
module RedisBatch {
  import opened Common
  import opened Connection
  import opened Protocol
  import opened Pool
  import opened Redis
  import Encodings

  // ------------------------------------------------------------------ MGET

  /** Map.put on a LinkedHashMap's entries: an existing key keeps its place
      and takes the new value; a new key goes last. */
  function Put(entries: seq<(string, Bytes)>, key: string, value: Bytes): (r: seq<(string, Bytes)>)
    ensures |r| == |entries| || |r| == |entries| + 1
    decreases |entries|
  {
    if entries == [] then [(key, value)]
    else if entries[0].0 == key then [(key, value)] + entries[1..]
    else [entries[0]] + Put(entries[1..], key, value)
  }

  function Keys(entries: seq<(string, Bytes)>): (ks: seq<string>)
    ensures |ks| == |entries|
    ensures forall i :: 0 <= i < |entries| ==> ks[i] == entries[i].0
  {
    if entries == [] then [] else [entries[0].0] + Keys(entries[1..])
  }

  /** The loop of `multiGetBytes` over the first |response| replies of MGET:
      the i-th reply belongs to keys[i]; a null reply is skipped; a reply
      the cast to bytes rejects, or a value without a key, fails. */
  function Collect(keys: seq<string>, response: seq<Reply>): Result<seq<(string, Bytes)>>
    decreases |response|
  {
    if response == [] then Ok([])
    else
      var i := |response| - 1;
      match Collect(keys, response[..i])
      case Fail(f) => Fail(f)
      case Ok(values) =>
        if !CastsToBytes(response[i]) then Fail(UnexpectedReply)
        else if BytesOf(response[i]).None? then Ok(values)
        else if i >= |keys| then Fail(UnexpectedReply)
        else Ok(Put(values, keys[i], BytesOf(response[i]).value))
  }

  /** `multiGetBytes(keys...)`: refused for no keys; otherwise one MGET with
      every key, whose array reply is matched back to the keys by position. */
  method MultiGetBytes(redis: RedisClient, keys: seq<string>) returns (o: Outcome<seq<(string, Bytes)>>)
    ensures |keys| == 0 ==> Rejected(redis, o, KEYS_MUST_NOT_BE_EMPTY)
    ensures |keys| > 0 ==> ReturnedOnce(redis, o) && ReadOne(redis, o)
    ensures |keys| > 0 ==> Wrote(redis, o, [[MGET] + EncodeAll(keys)])
    ensures |keys| > 0 ==> (IsIOFailure(o.result) <==> NextReply(redis).None?)
    ensures o.result.Ok? <==>
      |keys| > 0 && NextReply(redis).Some? && NextReply(redis).value.Array?
      && NextReply(redis).value.elements.Some? && Readable(keys, NextReply(redis).value.elements.value)
    ensures o.result.Ok? ==> o.result == Collect(keys, NextReply(redis).value.elements.value)
    ensures o.result.Ok? && Distinct(keys) ==>
      o.result.value == PresentEntries(keys, NextReply(redis).value.elements.value)
    ensures |keys| > 0 && NextReply(redis).Some? && o.result.Fail? ==>
      o.result.failure == CastFailure(NextReply(redis).value)
  {
    if |keys| == 0 {
      return Outcome(redis, Fail(CallerError(KEYS_MUST_NOT_BE_EMPTY)));
    }
    var checkout := BorrowItem(redis.pool);
    var conn := WriteKeysCommand(checkout.item.resource, MGET, keys);
    SerializeSingle([MGET] + EncodeAll(keys));
    var read := ReadArray(conn);
    if read.result.Fail? {
      return Finish(redis, checkout, Step(read.conn, Fail(read.result.failure)));
    }
    if read.result.value.None? {
      // response.length on a null array
      return Finish(redis, checkout, Step(read.conn, Fail(UnexpectedReply)));
    }
    var response := read.result.value.value;
    var collected := CollectReplies(keys, response);
    o := Finish(redis, checkout, Step(read.conn, collected));
  }

  /** The loop of `multiGetBytes`: reply i goes to keys[i], null replies are
      skipped, and the first reply that cannot be read ends the loop. */
  method CollectReplies(keys: seq<string>, response: seq<Reply>) returns (r: Result<seq<(string, Bytes)>>)
    ensures r == Collect(keys, response)
    ensures r.Ok? <==> Readable(keys, response)
    ensures r.Fail? ==> r.failure == UnexpectedReply
    ensures r.Ok? && Distinct(keys) ==> r.value == PresentEntries(keys, response)
  {
    var values: seq<(string, Bytes)> := [];
    var i := 0;
    while i < |response|
      invariant 0 <= i <= |response|
      invariant Collect(keys, response[..i]) == Ok(values)
    {
      assert response[..i + 1][..i] == response[..i];
      if !CastsToBytes(response[i]) {
        // the cast to byte[] fails
        NoRecoveryAfterFailure(keys, response, i + 1);
        CollectOkIff(keys, response);
        return Fail(UnexpectedReply);
      }
      if BytesOf(response[i]).Some? {
        if i >= |keys| {
          // keys[i] is out of bounds
          NoRecoveryAfterFailure(keys, response, i + 1);
          CollectOkIff(keys, response);
          return Fail(UnexpectedReply);
        }
        values := Put(values, keys[i], BytesOf(response[i]).value);
      }
      i := i + 1;
    }
    assert response[..|response|] == response;
    r := Ok(values);
    CollectOkIff(keys, response);
    if Distinct(keys) {
      CollectDistinctKeys(keys, response);
    }
  }

  /** Once a prefix of the replies fails, the whole reply fails the same way. */
  lemma {:induction false} NoRecoveryAfterFailure(keys: seq<string>, response: seq<Reply>, n: nat)
    requires n <= |response| && Collect(keys, response[..n]).Fail?
    ensures Collect(keys, response) == Collect(keys, response[..n])
    decreases |response| - n
  {
    if n < |response| {
      assert response[..n + 1][..n] == response[..n];
      NoRecoveryAfterFailure(keys, response, n + 1);
    } else {
      assert response[..n] == response;
    }
  }

  /** The replies the MGET loop can read: every one is bytes or null, and
      past the last key only null ones (a value there has no key). */
  predicate Readable(keys: seq<string>, response: seq<Reply>) {
    && (forall i :: 0 <= i < |response| ==> CastsToBytes(response[i]))
    && (forall i :: |keys| <= i < |response| ==> IsNullElement(response[i]))
  }

  /** The loop fails exactly on a reply it cannot read, and always with
      UnexpectedReply. */
  lemma {:induction false} CollectOkIff(keys: seq<string>, response: seq<Reply>)
    ensures Collect(keys, response).Ok? <==> Readable(keys, response)
    ensures Collect(keys, response).Fail? ==> Collect(keys, response).failure == UnexpectedReply
    decreases |response|
  {
    if response != [] {
      var i := |response| - 1;
      var prefix := response[..i];
      CollectOkIff(keys, prefix);
      if Readable(keys, response) {
        assert Readable(keys, prefix) by {
          forall j | 0 <= j < |prefix| ensures prefix[j] == response[j] { }
        }
      } else if Readable(keys, prefix) {
        forall j | 0 <= j < |prefix| ensures prefix[j] == response[j] { }
      }
    }
  }

  /** The reference reading of an MGET reply: one entry per non-null reply
      that has a key, keyed by the key at the same position, in key order. */
  function PresentEntries(keys: seq<string>, response: seq<Reply>): seq<(string, Bytes)>
    decreases |response|
  {
    if response == [] then []
    else
      var i := |response| - 1;
      var earlier := PresentEntries(keys, response[..i]);
      if i < |keys| && BytesOf(response[i]).Some? then earlier + [(keys[i], BytesOf(response[i]).value)]
      else earlier
  }

  predicate Distinct(keys: seq<string>) {
    forall i, j :: 0 <= i < j < |keys| ==> keys[i] != keys[j]
  }

  lemma {:induction false} PutNewKey(entries: seq<(string, Bytes)>, key: string, value: Bytes)
    requires key !in Keys(entries)
    ensures Put(entries, key, value) == entries + [(key, value)]
    decreases |entries|
  {
    if entries != [] {
      assert Keys(entries[1..]) == Keys(entries)[1..];
      PutNewKey(entries[1..], key, value);
    }
  }

  /** `LinkedHashMap.put` on a key already present: the value of its
      (first) entry is replaced in place and nothing else moves. */
  lemma {:induction false} PutExistingKey(entries: seq<(string, Bytes)>, key: string, value: Bytes, j: int)
    requires 0 <= j < |entries| && entries[j].0 == key
    requires forall i :: 0 <= i < j ==> entries[i].0 != key
    ensures Put(entries, key, value) == entries[j := (key, value)]
    decreases |entries|
  {
    if j > 0 {
      PutExistingKey(entries[1..], key, value, j - 1);
      assert entries[1..][j - 1 := (key, value)] == entries[j := (key, value)][1..];
    }
  }

  lemma {:induction false} PresentEntriesKeys(keys: seq<string>, response: seq<Reply>, k: string)
    requires k in Keys(PresentEntries(keys, response))
    ensures exists j :: 0 <= j < |response| && j < |keys| && keys[j] == k
    decreases |response|
  {
    var i := |response| - 1;
    var earlier := PresentEntries(keys, response[..i]);
    if k in Keys(earlier) {
      PresentEntriesKeys(keys, response[..i], k);
    } else if i < |keys| && BytesOf(response[i]).Some? {
      var r := PresentEntries(keys, response);
      assert r == earlier + [(keys[i], BytesOf(response[i]).value)];
      var e :| 0 <= e < |r| && r[e].0 == k;
      assert e == |earlier|;
    } else {
      assert false;
    }
  }

  /** With distinct keys and a readable reply, the MGET loop gives exactly
      the reference reading: keys[i] maps to response[i] when that reply is
      not null, in key order. */
  lemma {:induction false} CollectDistinctKeys(keys: seq<string>, response: seq<Reply>)
    requires Distinct(keys) && Readable(keys, response)
    ensures Collect(keys, response) == Ok(PresentEntries(keys, response))
    decreases |response|
  {
    if response != [] {
      var i := |response| - 1;
      assert Readable(keys, response[..i]) by {
        forall j | 0 <= j < i ensures response[..i][j] == response[j] { }
      }
      CollectDistinctKeys(keys, response[..i]);
      if BytesOf(response[i]).Some? {
        if keys[i] in Keys(PresentEntries(keys, response[..i])) {
          PresentEntriesKeys(keys, response[..i], keys[i]);
          assert false;
        }
        PutNewKey(PresentEntries(keys, response[..i]), keys[i], BytesOf(response[i]).value);
      }
    }
  }

  /** With distinct keys, keys[i] is in the MGET result exactly when its
      reply is not null, and then it maps to that reply's bytes. */
  lemma {:induction false} PresentEntriesIff(keys: seq<string>, response: seq<Reply>, i: int)
    requires Distinct(keys) && Readable(keys, response) && 0 <= i < |response| && i < |keys|
    ensures BytesOf(response[i]).Some? <==> (keys[i] in Keys(PresentEntries(keys, response)))
    ensures BytesOf(response[i]).Some? ==> (keys[i], BytesOf(response[i]).value) in PresentEntries(keys, response)
    decreases |response|
  {
    var n := |response| - 1;
    var earlier := PresentEntries(keys, response[..n]);
    if i < n {
      assert Readable(keys, response[..n]) by {
        forall j | 0 <= j < n ensures response[..n][j] == response[j] { }
      }
      PresentEntriesIff(keys, response[..n], i);
      if BytesOf(response[n]).Some? {
        assert keys[n] != keys[i];
        assert Keys(PresentEntries(keys, response)) == Keys(earlier) + [keys[n]];
      }
    } else {
      if keys[i] in Keys(earlier) {
        PresentEntriesKeys(keys, response[..n], keys[i]);
        assert false;
      }
      var r := PresentEntries(keys, response);
      if BytesOf(response[n]).Some? {
        assert r == earlier + [(keys[n], BytesOf(response[n]).value)];
        assert r[|earlier|] == (keys[n], BytesOf(response[n]).value);
        assert Keys(r)[|earlier|] == keys[n];
      } else {
        assert r == earlier;
      }
    }
  }

  // ------------------------------------------------------------------ MSET

  /** The key/value writes of `multiSet`, entry by entry. */
  function WriteKeyValues(c: Conn, entries: seq<(string, string)>): (c': Conn)
    ensures c'.script == c.script
    decreases |entries|
  {
    if entries == [] then c
    else
      var key := Encodings.Encode(entries[0].0);
      var value := Encodings.Encode(entries[0].1);
      WriteKeyValues(WriteBlobString(WriteBlobString(c, key), value), entries[1..])
  }

  /** The entry-by-entry writes put exactly the MSET arguments on the wire. */
  lemma {:induction false} WriteKeyValuesWritesArguments(c: Conn, entries: seq<(string, string)>)
    ensures WriteKeyValues(c, entries).written == c.written + Blobs(KeyValueArguments(entries))
    decreases |entries|
  {
    if entries != [] {
      var key := Encodings.Encode(entries[0].0);
      var value := Encodings.Encode(entries[0].1);
      var c2 := WriteBlobString(WriteBlobString(c, key), value);
      WriteKeyValuesWritesArguments(c2, entries[1..]);
      KeyValueBlobs(entries);
      assert c2.written == c.written + [BlobString(key), BlobString(value)];
    }
  }

  /** The blobs of the first entry, then those of the rest. */
  lemma KeyValueBlobs(entries: seq<(string, string)>)
    requires entries != []
    ensures Blobs(KeyValueArguments(entries)) ==
      [BlobString(Encodings.Encode(entries[0].0)), BlobString(Encodings.Encode(entries[0].1))]
      + Blobs(KeyValueArguments(entries[1..]))
  {
    var first := [Encodings.Encode(entries[0].0), Encodings.Encode(entries[0].1)];
    BlobsAppend(first, KeyValueArguments(entries[1..]));
    assert Blobs(first) == [BlobString(first[0]), BlobString(first[1])];
  }

  lemma {:induction false} BlobsAppend(a: Frame, b: Frame)
    ensures Blobs(a + b) == Blobs(a) + Blobs(b)
    decreases |a|
  {
    if a != [] {
      assert (a + b)[1..] == a[1..] + b;
      BlobsAppend(a[1..], b);
    } else {
      assert a + b == b;
    }
  }

  /** The writes of `multiSet`: the announced length 1 + 2·n, MSET, then
      the keys and values; together exactly one serialized MSET frame. */
  function WriteMultiSetCommand(c: Conn, values: seq<(string, string)>): (c': Conn)
    ensures c'.written == c.written + SerializeAll([MultiSetFrame(values)])
    ensures c'.script == c.script
  {
    var c1 := WriteBlobString(WriteArray(c, 1 + |values| * 2), MSET);
    MultiSetWrites(c, c1, values);
    WriteKeyValues(c1, values)
  }

  lemma MultiSetWrites(c: Conn, c1: Conn, values: seq<(string, string)>)
    requires c1.written == c.written + [ArrayHeader(1 + |values| * 2), BlobString(MSET)]
    ensures WriteKeyValues(c1, values).written == c.written + SerializeAll([MultiSetFrame(values)])
  {
    var args := KeyValueArguments(values);
    WriteKeyValuesWritesArguments(c1, values);
    assert MultiSetFrame(values) == [MSET] + args;
    SerializeCommand(MSET, args);
    Assoc(c.written, [ArrayHeader(1 + |values| * 2), BlobString(MSET)], Blobs(args));
  }

  /** MSET's reply is read and ignored: any simple string or a null. */
  function AnySimpleString(reply: Reply): Option<()> {
    if reply.SimpleString? || reply == BulkString(None) then Some(()) else None
  }

  /** `multiSet(values)`: refused for an empty map; otherwise one MSET frame
      of 1 + 2·n elements, the keys and values alternating in map order. */
  function MultiSet(redis: RedisClient, values: seq<(string, string)>): (o: Outcome<()>)
    ensures |values| == 0 ==> Rejected(redis, o, VALUES_MUST_NOT_BE_EMPTY)
    ensures |values| > 0 ==> ReturnedOnce(redis, o) && ReadOne(redis, o)
    ensures |values| > 0 ==> Wrote(redis, o, [MultiSetFrame(values)]) && AnswersWith(redis, o, AnySimpleString)
  {
    if |values| == 0 then Outcome(redis, Fail(CallerError(VALUES_MUST_NOT_BE_EMPTY)))
    else
      var checkout := BorrowItem(redis.pool);
      var conn := WriteMultiSetCommand(checkout.item.resource, values);
      var reply := ReadSimpleString(conn);
      Finish(redis, checkout, Step(reply.conn, match reply.result case Ok(_) => Ok(()) case Fail(f) => Fail(f)))
  }

  // ------------------------------------------------ SET PX pipeline, PTTL

  /** The frames of the SET-with-PX pipeline, one per entry, in map order. */
  function SetWithExpirationFrames(entries: seq<(string, Bytes)>, millis: int): (fs: seq<Frame>)
    ensures |fs| == |entries|
    ensures forall i :: 0 <= i < |entries| ==> fs[i] == SetWithExpirationFrame(entries[i].0, entries[i].1, millis)
  {
    if entries == [] then []
    else [SetWithExpirationFrame(entries[0].0, entries[0].1, millis)] + SetWithExpirationFrames(entries[1..], millis)
  }

  /** The writes of the pipeline: five elements per entry, no flush between. */
  function WriteSetWithExpirationAll(c: Conn, entries: seq<(string, Bytes)>, millis: int): (c': Conn)
    ensures c'.written == c.written + SerializeAll(SetWithExpirationFrames(entries, millis))
    ensures c'.script == c.script
    decreases |entries|
  {
    if entries == [] then
      assert c.written + [] == c.written;
      c
    else
      var f := SetWithExpirationFrame(entries[0].0, entries[0].1, millis);
      WriteFrameSerializes(c, 5, f);
      var next := WriteArguments(WriteArray(c, 5), f);
      var rest := SetWithExpirationFrames(entries[1..], millis);
      assert SetWithExpirationFrames(entries, millis) == [f] + rest;
      SerializeAllCons(c.written, f, rest);
      WriteSetWithExpirationAll(next, entries[1..], millis)
  }

  /** True when the next `n` reads all find a reply. */
  predicate RepliesArrive(redis: RedisClient, n: nat) {
    var script := redis.pool.resource.script;
    n <= |script| && forall j :: 0 <= j < n ==> script[j].Arrives?
  }

  /** `multiSet(values, expiration)`: refused for an empty map, then for an
      expiration under one millisecond; otherwise one SET ... PX frame per
      entry, written back to back, and exactly n replies read in the same
      order. Any I/O failure fails the whole batch and breaks the item. */
  function MultiSetWithExpiration(redis: RedisClient, values: seq<(string, Bytes)>, expiration: Duration)
    : (o: Outcome<()>)
    ensures |values| == 0 ==> Rejected(redis, o, VALUES_MUST_NOT_BE_EMPTY)
    ensures |values| > 0 && expiration.nanos < NANOS_PER_MILLI ==> Rejected(redis, o, EXPIRATION_TOO_SHORT)
    ensures |values| > 0 && expiration.nanos >= NANOS_PER_MILLI ==>
      && ReturnedOnce(redis, o)
      && Wrote(redis, o, SetWithExpirationFrames(values, ToMillis(expiration)))
      && (IsIOFailure(o.result) <==> !RepliesArrive(redis, |values|))
      && (RepliesArrive(redis, |values|) ==>
            o.redis.pool.resource.script == redis.pool.resource.script[|values|..])
      && (o.result.Ok? <==>
            (RepliesArrive(redis, |values|)
             && forall j :: 0 <= j < |values| ==> !redis.pool.resource.script[j].reply.ErrorReply?))
  {
    if |values| == 0 then Outcome(redis, Fail(CallerError(VALUES_MUST_NOT_BE_EMPTY)))
    else
      var expirationValue := ExpirationArgument(expiration);
      if expirationValue.Fail? then Outcome(redis, Fail(expirationValue.failure))
      else
        var checkout := BorrowItem(redis.pool);
        var conn := WriteSetWithExpirationAll(checkout.item.resource, values, ToMillis(expiration));
        var replies := ReadAll(conn, |values|);
        ReadAllOutcome(conn, |values|);
        Finish(redis, checkout, Step(replies.conn, match replies.result case Ok(_) => Ok(()) case Fail(f) => Fail(f)))
  }

  /** ReadAll fails with an I/O failure exactly when a reply is missing, and
      succeeds exactly when none of the n replies is an error reply. */
  lemma ReadAllOutcome(c: Conn, n: nat)
    ensures IsIOFailure(ReadAll(c, n).result) <==> !(n <= |c.script| && forall j :: 0 <= j < n ==> c.script[j].Arrives?)
    ensures (n <= |c.script| && forall j :: 0 <= j < n ==> c.script[j].Arrives?) ==> ReadAll(c, n).conn.script == c.script[n..]
    ensures ReadAll(c, n).result.Ok? <==>
      (n <= |c.script| && forall j :: 0 <= j < n ==> c.script[j].Arrives? && !c.script[j].reply.ErrorReply?)
    ensures ReadAll(c, n).result.Ok? ==> forall j :: 0 <= j < n ==> ReadAll(c, n).result.value[j] == c.script[j].reply
  {
    var rs := ReadReplies(c, n);
    if rs.result.Ok? {
      var i := FirstError(rs.result.value);
      if i < |rs.result.value| {
        assert c.script[i].reply.ErrorReply?;
      }
    }
  }

  function PttlFrames(keys: seq<string>): (fs: seq<Frame>)
    ensures |fs| == |keys| && forall i :: 0 <= i < |keys| ==> fs[i] == PttlFrame(keys[i])
  {
    if keys == [] then [] else [PttlFrame(keys[0])] + PttlFrames(keys[1..])
  }

  /** The writes of the PTTL batch: two elements per key. */
  function WritePttlAll(c: Conn, keys: seq<string>): (c': Conn)
    ensures c'.written == c.written + SerializeAll(PttlFrames(keys)) && c'.script == c.script
    decreases |keys|
  {
    if keys == [] then
      assert c.written + [] == c.written;
      c
    else
      var f := PttlFrame(keys[0]);
      WriteFrameSerializes(c, 2, f);
      var next := WriteArguments(WriteArray(c, 2), f);
      var rest := PttlFrames(keys[1..]);
      assert PttlFrames(keys) == [f] + rest;
      SerializeAllCons(c.written, f, rest);
      WritePttlAll(next, keys[1..])
  }

  /** The cast of each PTTL reply to a Long. */
  function Longs(replies: seq<Reply>): (r: Option<seq<int>>)
    ensures r.Some? <==> forall j :: 0 <= j < |replies| ==> replies[j].Integer?
    ensures r.Some? ==> |r.value| == |replies| && forall j :: 0 <= j < |replies| ==> r.value[j] == replies[j].value
  {
    if replies == [] then Some([])
    else if !replies[0].Integer? then None
    else match Longs(replies[1..])
      case None => None
      case Some(rest) => Some([replies[0].value] + rest)
  }

  /** `expirationTime(keys...)`: refused for no keys; otherwise one PTTL per
      key, written back to back, and the i-th reply is the i-th key's
      remaining time to live. */
  function ExpirationTime(redis: RedisClient, keys: seq<string>): (o: Outcome<seq<int>>)
    ensures |keys| == 0 ==> Rejected(redis, o, KEYS_MUST_NOT_BE_EMPTY)
    ensures |keys| > 0 ==> ReturnedOnce(redis, o) && Wrote(redis, o, PttlFrames(keys))
    ensures |keys| > 0 ==> (IsIOFailure(o.result) <==> !RepliesArrive(redis, |keys|))
    ensures o.result.Ok? ==>
      (RepliesArrive(redis, |keys|) && |o.result.value| == |keys|
       && forall i :: 0 <= i < |keys| ==> redis.pool.resource.script[i] == Arrives(Integer(o.result.value[i])))
    ensures (|keys| > 0 && RepliesArrive(redis, |keys|)
             && forall i :: 0 <= i < |keys| ==> redis.pool.resource.script[i].reply.Integer?) ==> o.result.Ok?
  {
    if |keys| == 0 then Outcome(redis, Fail(CallerError(KEYS_MUST_NOT_BE_EMPTY)))
    else
      var checkout := BorrowItem(redis.pool);
      var conn := WritePttlAll(checkout.item.resource, keys);
      var replies := ReadAll(conn, |keys|);
      ReadAllOutcome(conn, |keys|);
      var times := match replies.result
        case Fail(f) => Fail(f)
        case Ok(results) => match Longs(results) case None => Fail(UnexpectedReply) case Some(ts) => Ok(ts);
      Finish(redis, checkout, Step(replies.conn, times))
  }
}
