/** One connection to the server, seen from the client: everything it has
    written, as Redis Serialization Protocol tokens (array headers and bulk
    strings), and the replies the server will send, in order. Socket I/O is
    not modelled; an I/O failure is a `Fault` entry of the reply queue, or a
    read from an empty queue (a read timeout). */
module Connection {
  import opened Common
  import Encodings

  /** One element a command writer puts on the wire: `*<count>` or
      `$<length> <bytes>`. */
  datatype Token = ArrayHeader(count: int) | BlobString(bytes: Bytes)

  /** A command: the command name followed by its arguments. */
  type Frame = seq<Bytes>

  /** A decoded reply: `+`, `:`, `$` (null when `bulk` is None), `*` (null
      when `elements` is None) and `-`. */
  datatype Reply =
    | SimpleString(text: string)
    | Integer(value: int)
    | BulkString(bulk: Option<Bytes>)
    | Array(elements: Option<seq<Reply>>)
    | ErrorReply(message: string)

  /** What the next read finds: a reply, or an I/O failure. */
  datatype Incoming = Arrives(reply: Reply) | Fault

  datatype Conn = Conn(written: seq<Token>, script: seq<Incoming>)

  /** The result of one read or write step on a connection. */
  datatype Step<+T> = Step(conn: Conn, result: Result<T>)

  // ---------------------------------------------------------------- framing

  function Blobs(f: Frame): (ts: seq<Token>)
    ensures |ts| == |f|
    ensures forall i :: 0 <= i < |f| ==> ts[i] == BlobString(f[i])
  {
    if f == [] then [] else [BlobString(f[0])] + Blobs(f[1..])
  }

  lemma BlobsCons(b: Bytes, f: Frame)
    ensures Blobs([b] + f) == [BlobString(b)] + Blobs(f)
  {
    assert ([b] + f)[1..] == f;
  }

  /** The tokens of one well-formed command frame. */
  function Serialize(f: Frame): seq<Token> {
    [ArrayHeader(|f|)] + Blobs(f)
  }

  function SerializeAll(fs: seq<Frame>): seq<Token> {
    if fs == [] then [] else Serialize(fs[0]) + SerializeAll(fs[1..])
  }

  /** One command frame on the wire: its length, its name, its arguments. */
  lemma SerializeCommand(name: Bytes, args: Frame)
    ensures SerializeAll([[name] + args]) == [ArrayHeader(1 + |args|), BlobString(name)] + Blobs(args)
  {
    SerializeSingle([name] + args);
    BlobsCons(name, args);
    PrependTwo(ArrayHeader(1 + |args|), BlobString(name), Blobs(args));
  }

  lemma SerializeSingle(f: Frame)
    ensures SerializeAll([f]) == [ArrayHeader(|f|)] + Blobs(f)
  {
    assert [f][1..] == [];
    assert SerializeAll([f]) == Serialize(f) + [];
  }

  lemma PrependTwo(a: Token, b: Token, ts: seq<Token>)
    ensures [a] + ([b] + ts) == [a, b] + ts
  {
    Assoc([a], [b], ts);
    assert [a] + [b] == [a, b];
  }

  predicate AllBlobs(ts: seq<Token>) {
    ts == [] || (ts[0].BlobString? && AllBlobs(ts[1..]))
  }

  function Payloads(ts: seq<Token>): (f: Frame)
    requires AllBlobs(ts)
    ensures |f| == |ts|
  {
    if ts == [] then [] else [ts[0].bytes] + Payloads(ts[1..])
  }

  /** How the server splits the token stream into commands: every array
      header must be followed by exactly as many bulk strings as it
      announces. None when a header's count disagrees with what follows. */
  function ParseFrames(ts: seq<Token>): (r: Option<seq<Frame>>)
    decreases |ts|
  {
    if ts == [] then Some([])
    else if !ts[0].ArrayHeader? then None
    else
      var n := ts[0].count;
      if n < 0 || n > |ts| - 1 || !AllBlobs(ts[1..n + 1]) then None
      else match ParseFrames(ts[n + 1..])
        case None => None
        case Some(rest) => Some([Payloads(ts[1..n + 1])] + rest)
  }

  lemma {:induction false} PayloadsOfBlobs(f: Frame)
    ensures AllBlobs(Blobs(f)) && Payloads(Blobs(f)) == f
    decreases |f|
  {
    if f != [] {
      PayloadsOfBlobs(f[1..]);
      assert Blobs(f)[1..] == Blobs(f[1..]);
      assert f == [f[0]] + f[1..];
    }
  }

  /** Parsing one serialized frame in front of any token stream yields the
      frame followed by whatever the stream parses to. */
  lemma ParseSerialize(f: Frame, rest: seq<Token>)
    ensures ParseFrames(Serialize(f) + rest) ==
      match ParseFrames(rest) case None => None case Some(fs) => Some([f] + fs)
  {
    var ts := Serialize(f) + rest;
    assert ts[1..|f| + 1] == Blobs(f);
    assert ts[|f| + 1..] == rest;
    PayloadsOfBlobs(f);
  }

  /** Serialized frames parse back to exactly those frames: a server
      splitting the stream by the announced counts recovers every command. */
  lemma {:induction false} ParseSerializeAll(fs: seq<Frame>)
    ensures ParseFrames(SerializeAll(fs)) == Some(fs)
    decreases |fs|
  {
    if fs != [] {
      ParseSerializeAll(fs[1..]);
      ParseSerialize(fs[0], SerializeAll(fs[1..]));
      assert fs == [fs[0]] + fs[1..];
    }
  }

  lemma SerializeAllAppend(fs: seq<Frame>, gs: seq<Frame>)
    ensures SerializeAll(fs + gs) == SerializeAll(fs) + SerializeAll(gs)
  {
    if fs != [] {
      assert (fs + gs)[0] == fs[0];
      assert (fs + gs)[1..] == fs[1..] + gs;
      SerializeAllAppend(fs[1..], gs);
      calc {
        SerializeAll(fs + gs);
        Serialize(fs[0]) + SerializeAll(fs[1..] + gs);
        Serialize(fs[0]) + (SerializeAll(fs[1..]) + SerializeAll(gs));
        (Serialize(fs[0]) + SerializeAll(fs[1..])) + SerializeAll(gs);
      }
    } else {
      assert fs + gs == gs;
    }
  }

  // ---------------------------------------------------------------- writes

  function WriteArray(c: Conn, length: int): (c': Conn)
    ensures c'.written == c.written + [ArrayHeader(length)] && c'.script == c.script
  {
    c.(written := c.written + [ArrayHeader(length)])
  }

  function WriteBlobString(c: Conn, value: Bytes): (c': Conn)
    ensures c'.written == c.written + [BlobString(value)] && c'.script == c.script
  {
    c.(written := c.written + [BlobString(value)])
  }

  /** Writes each element as a bulk string, in order. */
  function WriteArguments(c: Conn, args: Frame): (c': Conn)
    ensures c'.script == c.script
    decreases |args|
  {
    if args == [] then c else WriteArguments(WriteBlobString(c, args[0]), args[1..])
  }

  lemma {:induction false} WriteArgumentsWrites(c: Conn, args: Frame)
    ensures WriteArguments(c, args).written == c.written + Blobs(args)
    decreases |args|
  {
    if args == [] {
      assert c.written + [] == c.written;
    } else {
      var c1 := WriteBlobString(c, args[0]);
      WriteArgumentsWrites(c1, args[1..]);
      Assoc(c.written, [BlobString(args[0])], Blobs(args[1..]));
    }
  }

  /** An array header announcing `length` followed by the elements is one
      serialized frame exactly when the announced length is the element
      count. */
  lemma WriteFrameSerializes(c: Conn, length: int, args: Frame)
    requires length == |args|
    ensures WriteArguments(WriteArray(c, length), args).written == c.written + SerializeAll([args])
  {
    var c0 := WriteArray(c, length);
    WriteArgumentsWrites(c0, args);
    Assoc(c.written, [ArrayHeader(length)], Blobs(args));
    assert [args][1..] == [];
    assert SerializeAll([args]) == Serialize(args) + [];
  }

  /** Writing one frame and then more frames writes them all. */
  lemma SerializeAllCons(base: seq<Token>, f: Frame, rest: seq<Frame>)
    ensures (base + SerializeAll([f])) + SerializeAll(rest) == base + SerializeAll([f] + rest)
  {
    assert ([f] + rest)[0] == f && ([f] + rest)[1..] == rest;
    assert [f][1..] == [];
    assert SerializeAll([f]) == Serialize(f) + [];
    Assoc(base, Serialize(f), SerializeAll(rest));
  }

  /** Writes a whole frame: its header and then its elements. */
  function WriteCommand(c: Conn, f: Frame): (c': Conn)
    ensures c'.written == c.written + Serialize(f) && c'.script == c.script
  {
    c.(written := c.written + Serialize(f))
  }

  /** `<command> <key>`. */
  function WriteKeyCommand(c: Conn, command: Bytes, key: string): Conn {
    WriteCommand(c, [command, Encodings.Encode(key)])
  }

  /** `<command> <key> <argument>`. */
  function WriteKeyArgumentCommand(c: Conn, command: Bytes, key: string, argument: Bytes): Conn {
    WriteCommand(c, [command, Encodings.Encode(key), argument])
  }

  function EncodeAll(keys: seq<string>): (r: seq<Bytes>)
    ensures |r| == |keys|
    ensures forall i :: 0 <= i < |keys| ==> r[i] == Encodings.Encode(keys[i])
  {
    if keys == [] then [] else [Encodings.Encode(keys[0])] + EncodeAll(keys[1..])
  }

  /** How a server reads string arguments back. */
  function DecodeAll(args: seq<Bytes>): (keys: seq<string>)
    ensures |keys| == |args|
  {
    if args == [] then [] else [Encodings.Decode(args[0])] + DecodeAll(args[1..])
  }

  /** Every key reaches the server intact and in its place. */
  lemma {:induction false} DecodeEncodeAll(keys: seq<string>)
    ensures DecodeAll(EncodeAll(keys)) == keys
    decreases |keys|
  {
    if keys != [] {
      Encodings.DecodeEncode(keys[0]);
      DecodeEncodeAll(keys[1..]);
      assert EncodeAll(keys)[1..] == EncodeAll(keys[1..]);
    }
  }

  /** `<command> <key1> ... <keyN>`. */
  function WriteKeysCommand(c: Conn, command: Bytes, keys: seq<string>): Conn {
    WriteCommand(c, [command] + EncodeAll(keys))
  }

  // ---------------------------------------------------------------- reads

  /** Takes the next reply off the queue. An empty queue is a read that
      times out; both it and a `Fault` are I/O failures. */
  function ReadReply(c: Conn): (s: Step<Reply>)
    ensures s.conn.written == c.written
    ensures s.result.Ok? <==> c.script != [] && c.script[0].Arrives?
    ensures s.result.Ok? ==> s.result.value == c.script[0].reply
    ensures s.result.Fail? ==> s.result.failure == IOFailure
    ensures s.conn.script == if c.script == [] then [] else c.script[1..]
  {
    if c.script == [] then Step(c, Fail(IOFailure))
    else
      var c' := c.(script := c.script[1..]);
      match c.script[0]
      case Fault => Step(c', Fail(IOFailure))
      case Arrives(reply) => Step(c', Ok(reply))
  }

  /** Lifts a read reply into a typed read: an error reply is a server
      error, any other reply goes through `cast`. */
  function Typed<T>(s: Step<Reply>, cast: Reply -> Option<T>): Step<T> {
    match s.result
    case Fail(f) => Step(s.conn, Fail(f))
    case Ok(reply) =>
      if reply.ErrorReply? then Step(s.conn, Fail(ServerError(reply.message)))
      else match cast(reply)
        case None => Step(s.conn, Fail(UnexpectedReply))
        case Some(v) => Step(s.conn, Ok(v))
  }

  /** A simple string, or null for a null bulk string. */
  function AsSimpleString(r: Reply): Option<Option<string>> {
    match r
    case SimpleString(text) => Some(Some(text))
    case BulkString(None) => Some(None)
    case _ => None
  }

  function AsLong(r: Reply): Option<int> {
    if r.Integer? then Some(r.value) else None
  }

  function AsBlobString(r: Reply): Option<Option<Bytes>> {
    if r.BulkString? then Some(r.bulk) else None
  }

  function AsArray(r: Reply): Option<Option<seq<Reply>>> {
    if r.Array? then Some(r.elements) else None
  }

  /** The failure a typed read reports for a reply its cast rejects: an
      error reply is a server error, anything else an unexpected reply. */
  function CastFailure(r: Reply): Failure {
    if r.ErrorReply? then ServerError(r.message) else UnexpectedReply
  }

  /** The elements of an array reply are Java objects, and both a null
      bulk string and a null array read as `null`. */
  predicate IsNullElement(r: Reply) {
    (r.BulkString? && r.bulk.None?) || (r.Array? && r.elements.None?)
  }

  /** Whether the cast `(byte[]) x` of an array element succeeds: on bytes
      and on null. */
  predicate CastsToBytes(r: Reply) {
    r.BulkString? || IsNullElement(r)
  }

  /** The bytes an element holds; None for null (and for what the cast
      rejects). */
  function BytesOf(r: Reply): (b: Option<Bytes>)
    ensures b.Some? <==> r.BulkString? && r.bulk.Some?
    ensures CastsToBytes(r) && b.None? ==> IsNullElement(r)
  {
    if r.BulkString? then r.bulk else None
  }

  function ReadSimpleString(c: Conn): Step<Option<string>> {
    Typed(ReadReply(c), AsSimpleString)
  }

  function ReadLong(c: Conn): Step<int> {
    Typed(ReadReply(c), AsLong)
  }

  function ReadBlobString(c: Conn): Step<Option<Bytes>> {
    Typed(ReadReply(c), AsBlobString)
  }

  function ReadArray(c: Conn): Step<Option<seq<Reply>>> {
    Typed(ReadReply(c), AsArray)
  }

  /** The index of the first error reply, or |rs| when there is none. */
  function FirstError(rs: seq<Reply>): (i: nat)
    ensures i <= |rs|
    ensures forall j :: 0 <= j < i ==> !rs[j].ErrorReply?
    ensures i < |rs| ==> rs[i].ErrorReply?
  {
    if rs == [] then 0 else if rs[0].ErrorReply? then 0 else 1 + FirstError(rs[1..])
  }

  /** Reads the replies of `n` pipelined commands. All `n` are taken off the
      stream even when some are error replies, so that the stream stays in
      step; the first error reply is then reported. */
  function ReadAll(c: Conn, n: nat): (s: Step<seq<Reply>>)
    ensures s.conn.written == c.written
    ensures s.result.Ok? ==> |s.result.value| == n
    decreases n
  {
    match ReadReplies(c, n).result
    case Fail(f) => ReadReplies(c, n)
    case Ok(rs) =>
      var i := FirstError(rs);
      if i < |rs| then Step(ReadReplies(c, n).conn, Fail(ServerError(rs[i].message)))
      else ReadReplies(c, n)
  }

  /** Reads `n` raw replies in order; stops at the first I/O failure. */
  function ReadReplies(c: Conn, n: nat): (s: Step<seq<Reply>>)
    ensures s.conn.written == c.written
    ensures s.result.Ok? <==> n <= |c.script| && forall j :: 0 <= j < n ==> c.script[j].Arrives?
    ensures s.result.Ok? ==> |s.result.value| == n && s.conn.script == c.script[n..]
    ensures s.result.Ok? ==> forall j :: 0 <= j < n ==> s.result.value[j] == c.script[j].reply
    ensures s.result.Fail? ==> s.result.failure == IOFailure
    decreases n
  {
    if n == 0 then Step(c, Ok([]))
    else
      var first := ReadReply(c);
      match first.result
      case Fail(f) => Step(first.conn, Fail(f))
      case Ok(reply) =>
        var rest := ReadReplies(first.conn, n - 1);
        match rest.result
        case Fail(f) => Step(rest.conn, Fail(f))
        case Ok(rs) => Step(rest.conn, Ok([reply] + rs))
  }
}
