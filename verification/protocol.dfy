/** Command names, keywords and the exact frames the client sends. The
    names are the ASCII bytes of the Redis command and keyword tokens. */
module Protocol {
  import opened Common
  import opened Connection
  import Encodings
  import Text

  const DEL: Bytes := [0x44, 0x45, 0x4C]                            // "DEL"
  const GET: Bytes := [0x47, 0x45, 0x54]                            // "GET"
  const INCRBY: Bytes := [0x49, 0x4E, 0x43, 0x52, 0x42, 0x59]        // "INCRBY"
  const MGET: Bytes := [0x4D, 0x47, 0x45, 0x54]                     // "MGET"
  const MSET: Bytes := [0x4D, 0x53, 0x45, 0x54]                     // "MSET"
  const PEXPIRE: Bytes := [0x50, 0x45, 0x58, 0x50, 0x49, 0x52, 0x45] // "PEXPIRE"
  const PTTL: Bytes := [0x50, 0x54, 0x54, 0x4C]                     // "PTTL"
  const PUBLISH: Bytes := [0x50, 0x55, 0x42, 0x4C, 0x49, 0x53, 0x48] // "PUBLISH"
  const SCAN: Bytes := [0x53, 0x43, 0x41, 0x4E]                     // "SCAN"
  const SET: Bytes := [0x53, 0x45, 0x54]                            // "SET"

  const COUNT: Bytes := [0x43, 0x4F, 0x55, 0x4E, 0x54]               // "COUNT"
  const MATCH: Bytes := [0x4D, 0x41, 0x54, 0x43, 0x48]               // "MATCH"
  const NX: Bytes := [0x4E, 0x58]                                   // "NX"
  const PX: Bytes := [0x50, 0x58]                                   // "PX"

  /** The COUNT hint of every SCAN: encode("500"). */
  const SCAN_BATCH_SIZE: string := "500"

  /** The arguments of one SET command. */
  datatype SetRequest = SetRequest(key: string, value: Bytes, onlyIfAbsent: bool, expirationMillis: Option<int>)

  /** `SET key value [NX] [PX millis]`. */
  function SetFrame(req: SetRequest): (f: Frame)
    ensures |f| == 3 + (if req.onlyIfAbsent then 1 else 0) + (if req.expirationMillis.Some? then 2 else 0)
    ensures f[0] == SET && f[1] == Encodings.Encode(req.key) && f[2] == req.value
    ensures req.onlyIfAbsent ==> f[3] == NX
    ensures req.expirationMillis.Some? ==>
      f[|f| - 2] == PX && f[|f| - 1] == Encodings.EncodeLong(req.expirationMillis.value)
  {
    [SET, Encodings.Encode(req.key), req.value]
      + (if req.onlyIfAbsent then [NX] else [])
      + (if req.expirationMillis.Some? then [PX, Encodings.EncodeLong(req.expirationMillis.value)] else [])
  }

  /** The argument `PX` carries, read back as a number. */
  function ParseMillis(b: Bytes): Option<int> {
    Text.ParseDecimal(Encodings.Decode(b))
  }

  /** How a server reads a SET frame back into its arguments. */
  function ParseSetFrame(f: Frame): Option<SetRequest> {
    if |f| < 3 || f[0] != SET then None
    else
      var key := Encodings.Decode(f[1]);
      var options := f[3..];
      if options == [] then
        Some(SetRequest(key, f[2], false, None))
      else if options == [NX] then
        Some(SetRequest(key, f[2], true, None))
      else if |options| == 2 && options[0] == PX && ParseMillis(options[1]).Some? then
        Some(SetRequest(key, f[2], false, ParseMillis(options[1])))
      else if |options| == 3 && options[0] == NX && options[1] == PX && ParseMillis(options[2]).Some? then
        Some(SetRequest(key, f[2], true, ParseMillis(options[2])))
      else
        None
  }

  /** The SET frame loses nothing: its arguments can be read back from it,
      so distinct requests are distinct frames. */
  lemma ParseSetFrameRoundTrip(req: SetRequest)
    ensures ParseSetFrame(SetFrame(req)) == Some(req)
  {
    var f := SetFrame(req);
    Encodings.DecodeEncode(req.key);
    if req.expirationMillis.Some? {
      Encodings.DecodeEncodeLong(req.expirationMillis.value);
    }
    assert NX != PX by { assert NX[0] != PX[0]; }
    if req.onlyIfAbsent && req.expirationMillis.Some? {
      assert f[3..] == [NX, PX, Encodings.EncodeLong(req.expirationMillis.value)];
    } else if req.onlyIfAbsent {
      assert f[3..] == [NX];
    } else if req.expirationMillis.Some? {
      assert f[3..] == [PX, Encodings.EncodeLong(req.expirationMillis.value)];
    } else {
      assert f[3..] == [];
    }
  }

  /** `SET key value PX millis`, one per entry of a pipelined multiSet. */
  function SetWithExpirationFrame(key: string, value: Bytes, expirationMillis: int): (f: Frame)
    ensures f == SetFrame(SetRequest(key, value, false, Some(expirationMillis)))
  {
    [SET, Encodings.Encode(key), value, PX, Encodings.EncodeLong(expirationMillis)]
  }

  /** `PTTL key`. */
  function PttlFrame(key: string): Frame {
    [PTTL, Encodings.Encode(key)]
  }

  /** `SCAN cursor MATCH pattern COUNT 500`. */
  function ScanFrame(cursor: string, pattern: string): (f: Frame)
    ensures |f| == 6 && f[0] == SCAN && f[2] == MATCH && f[4] == COUNT
    ensures Encodings.Decode(f[1]) == cursor && Encodings.Decode(f[3]) == pattern
    ensures Encodings.Decode(f[5]) == SCAN_BATCH_SIZE
  {
    Encodings.DecodeEncode(cursor);
    Encodings.DecodeEncode(pattern);
    Encodings.DecodeEncode(SCAN_BATCH_SIZE);
    [SCAN, Encodings.Encode(cursor), MATCH, Encodings.Encode(pattern), COUNT, Encodings.Encode(SCAN_BATCH_SIZE)]
  }

  /** The key/value arguments of MSET, alternating. */
  function KeyValueArguments(entries: seq<(string, string)>): (args: seq<Bytes>)
    ensures |args| == 2 * |entries|
  {
    if entries == [] then []
    else [Encodings.Encode(entries[0].0), Encodings.Encode(entries[0].1)] + KeyValueArguments(entries[1..])
  }

  /** The arguments alternate: entry i's key at 2·i, its value at 2·i + 1. */
  lemma {:induction false} KeyValueArgumentsAlternate(entries: seq<(string, string)>, i: int)
    requires 0 <= i < |entries|
    ensures KeyValueArguments(entries)[2 * i] == Encodings.Encode(entries[i].0)
    ensures KeyValueArguments(entries)[2 * i + 1] == Encodings.Encode(entries[i].1)
    decreases |entries|
  {
    if i > 0 {
      KeyValueArgumentsAlternate(entries[1..], i - 1);
      var rest := KeyValueArguments(entries[1..]);
      assert KeyValueArguments(entries)[2 * i] == rest[2 * (i - 1)];
      assert KeyValueArguments(entries)[2 * i + 1] == rest[2 * (i - 1) + 1];
    }
  }

  /** How a server pairs the MSET arguments back up into entries. */
  function KeyValuePairs(args: seq<Bytes>): seq<(string, string)>
    decreases |args|
  {
    if |args| < 2 then []
    else [(Encodings.Decode(args[0]), Encodings.Decode(args[1]))] + KeyValuePairs(args[2..])
  }

  /** No entry is lost, split or reordered on its way to the server. */
  lemma {:induction false} KeyValuePairsRoundTrip(entries: seq<(string, string)>)
    ensures KeyValuePairs(KeyValueArguments(entries)) == entries
    decreases |entries|
  {
    if entries != [] {
      Encodings.DecodeEncode(entries[0].0);
      Encodings.DecodeEncode(entries[0].1);
      KeyValuePairsRoundTrip(entries[1..]);
      assert KeyValueArguments(entries)[2..] == KeyValueArguments(entries[1..]);
    }
  }

  /** `MSET key1 value1 ... keyN valueN`. */
  function MultiSetFrame(entries: seq<(string, string)>): (f: Frame)
    ensures |f| == 1 + 2 * |entries| && f[0] == MSET
  {
    [MSET] + KeyValueArguments(entries)
  }
}
