/** `forEach(pattern, consumer)`: walks the keyspace with SCAN on one
    borrowed connection, handing every returned key to the consumer, until
    the server answers with cursor "0". The consumer is modelled by the
    sequence of keys it is handed. */
module RedisScan {
  import opened Common
  import opened Connection
  import opened Protocol
  import opened Pool
  import opened Redis
  import Encodings

  /** One SCAN reply: the next cursor (None when the server sent a null)
      and the raw key elements. */
  datatype ScanPage = ScanPage(cursor: Option<string>, keys: seq<Reply>)

  /** `decode((byte[]) x)` of an element the cast accepts: the decoded
      string, or None for null. */
  function Decoded(r: Reply): Option<string> {
    match BytesOf(r)
    case None => None
    case Some(b) => Some(Encodings.Decode(b))
  }

  /** Every key element survives the cast `(byte[]) key`. */
  predicate AllKeys(ks: seq<Reply>) {
    forall i :: 0 <= i < |ks| ==> CastsToBytes(ks[i])
  }

  /** Reads a SCAN reply: an array whose first element is the cursor and
      whose second is the array of keys. A cursor or key array the casts
      reject, a short array or a null one fails. */
  function AsPage(elements: Option<seq<Reply>>): (p: Option<ScanPage>)
    ensures p.Some? <==>
      (elements.Some? && |elements.value| >= 2 && CastsToBytes(elements.value[0])
       && elements.value[1].Array? && elements.value[1].elements.Some?)
    ensures p.Some? ==> p.value.keys == elements.value[1].elements.value
    ensures p.Some? ==> (p.value.cursor.None? <==> IsNullElement(elements.value[0]))
    ensures p.Some? && p.value.cursor.Some? ==>
      p.value.cursor.value == Encodings.Decode(elements.value[0].bulk.value)
  {
    if elements.None? || |elements.value| < 2 then None
    else
      var es := elements.value;
      if !CastsToBytes(es[0]) || !es[1].Array? || es[1].elements.None? then None
      else Some(ScanPage(Decoded(es[0]), es[1].elements.value))
  }

  /** The keys the consumer is handed from one page: each element decoded
      in order (None for a null key), up to the first element the cast
      rejects. */
  function PageKeys(ks: seq<Reply>): (r: seq<Option<string>>)
    ensures |r| <= |ks|
    ensures |r| == |ks| <==> AllKeys(ks)
    ensures forall i :: 0 <= i < |r| ==> CastsToBytes(ks[i]) && (r[i].None? <==> IsNullElement(ks[i]))
    ensures forall i :: 0 <= i < |r| && r[i].Some? ==>
      ks[i].BulkString? && ks[i].bulk.Some? && r[i].value == Encodings.Decode(ks[i].bulk.value)
    ensures |r| < |ks| ==> !CastsToBytes(ks[|r|])
  {
    if ks == [] || !CastsToBytes(ks[0]) then [] else [Decoded(ks[0])] + PageKeys(ks[1..])
  }

  /** Every key handed over, page after page. */
  function Visited(pages: seq<ScanPage>): seq<Option<string>> {
    if pages == [] then [] else Visited(pages[..|pages| - 1]) + PageKeys(pages[|pages| - 1].keys)
  }

  /** The `returnedKeys` count: the length of every page's key array. */
  function KeyCount(pages: seq<ScanPage>): (n: nat) {
    if pages == [] then 0 else KeyCount(pages[..|pages| - 1]) + |pages[|pages| - 1].keys|
  }

  /** The cursor the (i+1)-th SCAN is to send: "0" first, then the cursor
      of the page before. */
  function CursorBefore(pages: seq<ScanPage>, i: nat): Option<string>
    requires i <= |pages|
  {
    if i == 0 then Some("0") else pages[i - 1].cursor
  }

  /** The cursors that went on the wire, in order; a null cursor never
      does. */
  predicate SentInOrder(sent: seq<string>, pages: seq<ScanPage>) {
    && |pages| <= |sent| <= |pages| + 1
    && forall i :: 0 <= i < |sent| ==> CursorBefore(pages, i) == Some(sent[i])
  }

  /** `!"0".equals(cursor)`: a null cursor does not end the loop either. */
  predicate Continues(page: ScanPage) {
    page.cursor != Some("0")
  }

  /** The i-th page is what the i-th reply of the stream reads as. */
  predicate ParsedFrom(script: seq<Incoming>, pages: seq<ScanPage>) {
    && |pages| <= |script|
    && forall i :: 0 <= i < |pages| ==>
         script[i].Arrives? && script[i].reply.Array? && AsPage(script[i].reply.elements) == Some(pages[i])
  }

  /** The reply at position n arrived but does not read as a page. */
  predicate NotAPage(script: seq<Incoming>, n: nat) {
    n < |script| && script[n].Arrives?
    && (!script[n].reply.Array? || AsPage(script[n].reply.elements).None?)
  }

  /** A reply that reads as a page whose keys all survive their cast. */
  predicate FullPage(x: Incoming) {
    x.Arrives? && x.reply.Array? && AsPage(x.reply.elements).Some? && AllKeys(AsPage(x.reply.elements).value.keys)
  }

  /** A full page with a (non-null) cursor. */
  predicate GoodPage(x: Incoming) {
    FullPage(x) && AsPage(x.reply.elements).value.cursor.Some?
  }

  /** The server answers the first k SCANs with good pages whose cursor is
      not "0". */
  predicate GoodPrefix(script: seq<Incoming>, k: nat) {
    && k < |script|
    && forall i :: 0 <= i < k ==> GoodPage(script[i]) && Continues(AsPage(script[i].reply.elements).value)
  }

  /** ... and the (k+1)-th with a good page whose cursor is "0". */
  predicate GoodScan(script: seq<Incoming>, k: nat) {
    GoodPrefix(script, k) && GoodPage(script[k]) && AsPage(script[k].reply.elements).value.cursor == Some("0")
  }

  /** ... and the (k+1)-th with a full page whose cursor is null. */
  predicate NullCursorScan(script: seq<Incoming>, k: nat) {
    GoodPrefix(script, k) && FullPage(script[k]) && AsPage(script[k].reply.elements).value.cursor.None?
  }

  /** Sending the cursor of the latest page keeps the cursors in step,
      whether or not the reply to it reads as a page. */
  lemma SendNextCursor(sent: seq<string>, pages: seq<ScanPage>, page: ScanPage)
    requires |sent| == |pages| && SentInOrder(sent, pages) && CursorBefore(pages, |pages|).Some?
    ensures SentInOrder(sent + [CursorBefore(pages, |pages|).value], pages)
    ensures SentInOrder(sent + [CursorBefore(pages, |pages|).value], pages + [page])
  {
    var next := sent + [CursorBefore(pages, |pages|).value];
    forall i | 0 <= i < |next|
      ensures CursorBefore(pages + [page], i) == Some(next[i])
    {
      if 0 < i {
        assert (pages + [page])[i - 1] == pages[i - 1];
      }
    }
  }

  function ScanFrames(pattern: string, cursors: seq<string>): (fs: seq<Frame>)
    ensures |fs| == |cursors|
    ensures forall i :: 0 <= i < |cursors| ==> fs[i] == ScanFrame(cursors[i], pattern)
  {
    if cursors == [] then [] else [ScanFrame(cursors[0], pattern)] + ScanFrames(pattern, cursors[1..])
  }

  lemma ScanFramesAppend(pattern: string, cursors: seq<string>, cursor: string)
    ensures SerializeAll(ScanFrames(pattern, cursors + [cursor]))
      == SerializeAll(ScanFrames(pattern, cursors)) + SerializeAll([ScanFrame(cursor, pattern)])
  {
    assert ScanFrames(pattern, cursors + [cursor]) == ScanFrames(pattern, cursors) + [ScanFrame(cursor, pattern)];
    SerializeAllAppend(ScanFrames(pattern, cursors), [ScanFrame(cursor, pattern)]);
  }

  /** The writes of one SCAN: six elements, the cursor and pattern encoded,
      and the batch size of 500. */
  function WriteScanCommand(c: Conn, cursor: string, pattern: string): (c': Conn)
    ensures c'.written == c.written + SerializeAll([ScanFrame(cursor, pattern)])
    ensures c'.script == c.script
  {
    var f := ScanFrame(cursor, pattern);
    WriteFrameSerializes(c, 6, f);
    WriteArguments(WriteArray(c, 6), f)
  }

  /** What a SCAN whose cursor is null leaves on the wire: `writeArray(6)`
      and the command name, written before `encode(cursor)` throws. */
  const SCAN_HEAD: seq<Token> := [ArrayHeader(6), BlobString(SCAN)]

  /** What one SCAN round trip yields: the connection after it, the page
      read (None when the reply did not read as a page) and the failure that
      ends the scan, if any. */
  datatype ScanStep = ScanStep(conn: Conn, page: Option<ScanPage>, failure: Option<Failure>)

  /** One pass of the do-while body: write the SCAN, read the array, take
      the cursor and the keys. */
  function ScanOnce(c: Conn, cursor: Option<string>, pattern: string): (s: ScanStep)
    ensures cursor.None? ==>
      && s.conn.written == c.written + SCAN_HEAD && s.conn.script == c.script
      && s.page.None? && s.failure == Some(UnexpectedReply)
    ensures cursor.Some? ==> s.conn.written == c.written + SerializeAll([ScanFrame(cursor.value, pattern)])
    ensures s.page.Some? <==>
      (cursor.Some? && c.script != [] && c.script[0].Arrives? && c.script[0].reply.Array?
       && AsPage(c.script[0].reply.elements).Some?)
    ensures s.page.Some? ==> AsPage(c.script[0].reply.elements) == s.page && s.conn.script == c.script[1..]
    ensures s.failure.None? <==> s.page.Some? && AllKeys(s.page.value.keys)
    ensures s.failure == Some(IOFailure) <==> cursor.Some? && (c.script == [] || c.script[0].Fault?)
    ensures s.page.Some? && s.failure.Some? ==> s.failure == Some(UnexpectedReply)
    ensures cursor.Some? && s.page.None? && c.script != [] && c.script[0].Arrives? ==>
      s.failure == Some(CastFailure(c.script[0].reply))
    ensures cursor.Some? ==> |s.conn.script| < |c.script| || c.script == []
  {
    if cursor.None? then
      // encode(null) throws once the header and the command name are out
      var c' := WriteBlobString(WriteArray(c, 6), SCAN);
      assert c'.written == c.written + SCAN_HEAD;
      ScanStep(c', None, Some(UnexpectedReply))
    else
      var written := WriteScanCommand(c, cursor.value, pattern);
      var read := ReadArray(written);
      match read.result
      case Fail(f) => ScanStep(read.conn, None, Some(f))
      case Ok(elements) =>
        // a null array, a short array or a cast of the wrong element fails
        match AsPage(elements)
        case None => ScanStep(read.conn, None, Some(UnexpectedReply))
        case Some(page) =>
          // a key the cast rejects fails it mid-page
          if |PageKeys(page.keys)| < |page.keys| then ScanStep(read.conn, Some(page), Some(UnexpectedReply))
          else ScanStep(read.conn, Some(page), None)
  }

  /** Where a scan stands: the connection, the cursor to send next, the
      pages read, the cursors sent, the keys handed over and the count. */
  datatype ScanState = ScanState(conn: Conn, cursor: Option<string>, pages: seq<ScanPage>, sent: seq<string>,
                                 visited: seq<Option<string>>, returnedKeys: nat)

  /** What holds at the top of each pass: every SCAN so far was answered by
      a page of keys with a cursor other than "0", and the next SCAN sends
      the latest cursor. */
  predicate Running(script: seq<Incoming>, written: seq<Token>, pattern: string, st: ScanState) {
    && |st.sent| == |st.pages| && SentInOrder(st.sent, st.pages) && ParsedFrom(script, st.pages)
    && st.conn.written == written + SerializeAll(ScanFrames(pattern, st.sent))
    && st.conn.script == script[|st.pages|..] && st.cursor == CursorBefore(st.pages, |st.pages|)
    && st.visited == Visited(st.pages) && st.returnedKeys == KeyCount(st.pages)
    && forall i :: 0 <= i < |st.pages| ==> Continues(st.pages[i]) && AllKeys(st.pages[i].keys)
  }

  /** The scan stopped after handing over every key of its last page,
      because that page's cursor was null and the next SCAN could not be
      written. */
  predicate NullCursorStop(pages: seq<ScanPage>, sent: seq<string>, failed: bool) {
    failed && |sent| == |pages| && 0 < |pages| && AllKeys(pages[|pages| - 1].keys)
  }

  /** The tokens a scan leaves on the wire: its whole SCAN frames, and the
      head of one more after a null cursor. */
  function ScanWrites(pattern: string, pages: seq<ScanPage>, sent: seq<string>, failed: bool): seq<Token> {
    SerializeAll(ScanFrames(pattern, sent)) + (if NullCursorStop(pages, sent, failed) then SCAN_HEAD else [])
  }

  /** What holds when the scan ends, with `failure` None on success. */
  predicate Ended(script: seq<Incoming>, written: seq<Token>, pattern: string, st: ScanState,
                  failure: Option<Failure>) {
    && 1 <= |st.sent| && SentInOrder(st.sent, st.pages) && ParsedFrom(script, st.pages)
    && st.conn.written == written + ScanWrites(pattern, st.pages, st.sent, failure.Some?)
    && st.visited == Visited(st.pages) && st.returnedKeys == KeyCount(st.pages)
    && (forall i :: 0 <= i < |st.sent| - 1 ==> Continues(st.pages[i]) && AllKeys(st.pages[i].keys))
    && (failure.None? ==>
          |st.sent| == |st.pages| && st.pages[|st.pages| - 1].cursor == Some("0")
          && AllKeys(st.pages[|st.pages| - 1].keys))
    && (failure.Some? && |st.sent| == |st.pages| ==>
          && failure.value == UnexpectedReply
          && (AllKeys(st.pages[|st.pages| - 1].keys) ==> st.pages[|st.pages| - 1].cursor.None?))
    && (failure == Some(IOFailure) <==>
          (|st.sent| == |st.pages| + 1 && (|st.pages| == |script| || script[|st.pages|].Fault?)))
    && (|st.sent| == |st.pages| + 1 && failure != Some(IOFailure) ==> NotAPage(script, |st.pages|))
    && (|st.sent| == |st.pages| + 1 && |st.pages| < |script| && script[|st.pages|].Arrives? ==>
          failure == Some(CastFailure(script[|st.pages|].reply)))
  }

  /** The converse of the exit condition: when the server answers with good
      pages up to the first cursor "0", the scan succeeds after exactly
      those pages. */
  lemma {:induction false} EndedOnGoodScan(script: seq<Incoming>, written: seq<Token>, pattern: string,
                                           st: ScanState, failure: Option<Failure>, k: nat)
    requires Ended(script, written, pattern, st, failure) && GoodScan(script, k)
    ensures failure.None? && |st.pages| == k + 1
  {
    var n := |st.pages|;
    if n > k + 1 {
      assert false;
    }
    if failure.Some? {
      if |st.sent| == n {
        assert false;
      } else if n <= k {
        assert false;
      } else {
        assert false;
      }
    }
    if n < k + 1 {
      assert false;
    }
  }

  /** No SCAN goes out after a page whose cursor is null. */
  lemma NothingSentAfterNull(sent: seq<string>, pages: seq<ScanPage>, j: nat)
    requires SentInOrder(sent, pages) && j < |pages| && pages[j].cursor.None?
    ensures |sent| <= j + 1
  {
    assert CursorBefore(pages, j + 1).None?;
  }

  /** A null cursor: the keys of its page are all handed over, and then the
      scan fails with the next SCAN half written. */
  lemma {:induction false} EndedOnNullCursor(script: seq<Incoming>, written: seq<Token>, pattern: string,
                                             st: ScanState, failure: Option<Failure>, k: nat)
    requires Ended(script, written, pattern, st, failure) && NullCursorScan(script, k)
    ensures failure == Some(UnexpectedReply) && |st.pages| == |st.sent| == k + 1
    ensures st.visited == Visited(st.pages) && st.pages[k].keys == AsPage(script[k].reply.elements).value.keys
    ensures st.conn.written == written + SerializeAll(ScanFrames(pattern, st.sent)) + SCAN_HEAD
  {
    var n := |st.pages|;
    if k < n {
      NothingSentAfterNull(st.sent, st.pages, k);
    }
    if n > k + 1 {
      assert false;
    }
    if failure.None? {
      assert false;
    }
    if |st.sent| == n + 1 {
      assert false;
    }
    if n < k + 1 {
      assert false;
    }
    Assoc(written, SerializeAll(ScanFrames(pattern, st.sent)), SCAN_HEAD);
  }

  /** Short of a null-cursor stop, a scan leaves only whole SCAN frames on
      the wire. */
  lemma WholeFrames(pattern: string, pages: seq<ScanPage>, sent: seq<string>, failed: bool)
    requires !NullCursorStop(pages, sent, failed)
    ensures ScanWrites(pattern, pages, sent, failed) == SerializeAll(ScanFrames(pattern, sent))
  {
    assert SerializeAll(ScanFrames(pattern, sent)) + [] == SerializeAll(ScanFrames(pattern, sent));
  }

  /** The state after one pass: the cursor is sent, and a page that was
      read is recorded, counted and handed to the consumer. */
  function Advance(st: ScanState, step: ScanStep): ScanState {
    var sent := if st.cursor.Some? then st.sent + [st.cursor.value] else st.sent;
    match step.page
    case None => st.(conn := step.conn, sent := sent)
    case Some(page) =>
      ScanState(step.conn, page.cursor, st.pages + [page], sent,
                st.visited + PageKeys(page.keys), st.returnedKeys + |page.keys|)
  }

  /** The scan stops after a pass exactly when the pass failed or read the
      cursor "0"; either way the pass keeps the bookkeeping in step. */
  predicate Stops(step: ScanStep) {
    step.failure.Some? || step.page.None? || !Continues(step.page.value)
  }

  lemma AdvanceKeepsStep(script: seq<Incoming>, written: seq<Token>, pattern: string, st: ScanState)
    requires Running(script, written, pattern, st)
    ensures var step := ScanOnce(st.conn, st.cursor, pattern);
      Stops(step) ==> Ended(script, written, pattern, Advance(st, step), step.failure)
    ensures var step := ScanOnce(st.conn, st.cursor, pattern);
      !Stops(step) ==> Running(script, written, pattern, Advance(st, step))
  {
    var step := ScanOnce(st.conn, st.cursor, pattern);
    if st.cursor.None? {
      NullCursorEnds(script, written, pattern, st);
    } else if step.page.None? {
      NoPageEnds(script, written, pattern, st);
    } else if Stops(step) {
      PageEnds(script, written, pattern, st);
    } else {
      PageContinues(script, written, pattern, st);
    }
  }

  /** A null cursor ends the scan at the next SCAN, with nothing read. */
  lemma NullCursorEnds(script: seq<Incoming>, written: seq<Token>, pattern: string, st: ScanState)
    requires Running(script, written, pattern, st) && st.cursor.None?
    ensures var step := ScanOnce(st.conn, st.cursor, pattern);
      Ended(script, written, pattern, Advance(st, step), step.failure)
  {
    var n := |st.pages|;
    assert n > 0 && st.pages[n - 1].cursor.None?;
    Assoc(written, SerializeAll(ScanFrames(pattern, st.sent)), SCAN_HEAD);
  }

  /** A reply that does not read as a page ends the scan with the SCAN
      that asked for it sent and no page recorded. */
  lemma NoPageEnds(script: seq<Incoming>, written: seq<Token>, pattern: string, st: ScanState)
    requires Running(script, written, pattern, st) && st.cursor.Some?
    requires ScanOnce(st.conn, st.cursor, pattern).page.None?
    ensures var step := ScanOnce(st.conn, st.cursor, pattern);
      Ended(script, written, pattern, Advance(st, step), step.failure)
  {
    var step := ScanOnce(st.conn, st.cursor, pattern);
    var next := Advance(st, step);
    WrittenAppend(written, pattern, st.conn, st.sent, st.cursor.value, step.conn);
    SendNextCursor(st.sent, st.pages, ScanPage(Some("0"), []));
    WholeFrames(pattern, next.pages, next.sent, step.failure.Some?);
    assert st.conn.script == script[|st.pages|..];
  }

  lemma PageEnds(script: seq<Incoming>, written: seq<Token>, pattern: string, st: ScanState)
    requires Running(script, written, pattern, st)
    requires ScanOnce(st.conn, st.cursor, pattern).page.Some? && Stops(ScanOnce(st.conn, st.cursor, pattern))
    ensures var step := ScanOnce(st.conn, st.cursor, pattern);
      Ended(script, written, pattern, Advance(st, step), step.failure)
  {
    var step := ScanOnce(st.conn, st.cursor, pattern);
    PageBookkeeping(script, written, pattern, st);
    WholeFrames(pattern, Advance(st, step).pages, Advance(st, step).sent, step.failure.Some?);
  }

  lemma PageContinues(script: seq<Incoming>, written: seq<Token>, pattern: string, st: ScanState)
    requires Running(script, written, pattern, st)
    requires ScanOnce(st.conn, st.cursor, pattern).page.Some? && !Stops(ScanOnce(st.conn, st.cursor, pattern))
    ensures Running(script, written, pattern, Advance(st, ScanOnce(st.conn, st.cursor, pattern)))
  {
    var step := ScanOnce(st.conn, st.cursor, pattern);
    var next := Advance(st, step);
    PageBookkeeping(script, written, pattern, st);
    forall i | 0 <= i < |next.pages|
      ensures Continues(next.pages[i]) && AllKeys(next.pages[i].keys)
    {
      if i == |st.pages| {
        assert next.pages[i] == step.page.value;
      }
    }
  }

  /** A pass that reads a page records it in step with the stream and the
      wire, whatever comes next. */
  lemma PageBookkeeping(script: seq<Incoming>, written: seq<Token>, pattern: string, st: ScanState)
    requires Running(script, written, pattern, st)
    requires ScanOnce(st.conn, st.cursor, pattern).page.Some?
    ensures var step := ScanOnce(st.conn, st.cursor, pattern);
      var next := Advance(st, step);
      && |next.sent| == |next.pages| == |st.pages| + 1 && next.pages[|st.pages|] == step.page.value
      && SentInOrder(next.sent, next.pages) && ParsedFrom(script, next.pages)
      && next.conn.written == written + SerializeAll(ScanFrames(pattern, next.sent))
      && next.conn.script == script[|next.pages|..] && next.cursor == CursorBefore(next.pages, |next.pages|)
      && next.visited == Visited(next.pages) && next.returnedKeys == KeyCount(next.pages)
      && forall i :: 0 <= i < |st.pages| ==> next.pages[i] == st.pages[i]
  {
    var step := ScanOnce(st.conn, st.cursor, pattern);
    var page := step.page.value;
    var n := |st.pages|;
    WrittenAppend(written, pattern, st.conn, st.sent, st.cursor.value, step.conn);
    SendNextCursor(st.sent, st.pages, page);
    PagesAppend(st.pages, page);
    assert script[n] == st.conn.script[0];
    ParsedFromAppend(script, st.pages, page);
    assert script[n..][1..] == script[n + 1..];
  }

  /** One more SCAN on the wire is one more cursor in the sent list. */
  lemma WrittenAppend(written: seq<Token>, pattern: string, c: Conn, sent: seq<string>, cursor: string, c': Conn)
    requires c.written == written + SerializeAll(ScanFrames(pattern, sent))
    requires c'.written == c.written + SerializeAll([ScanFrame(cursor, pattern)])
    ensures c'.written == written + SerializeAll(ScanFrames(pattern, sent + [cursor]))
  {
    var before := SerializeAll(ScanFrames(pattern, sent));
    var one := SerializeAll([ScanFrame(cursor, pattern)]);
    ScanFramesAppend(pattern, sent, cursor);
    Assoc(written, before, one);
  }

  lemma PagesAppend(pages: seq<ScanPage>, page: ScanPage)
    ensures Visited(pages + [page]) == Visited(pages) + PageKeys(page.keys)
    ensures KeyCount(pages + [page]) == KeyCount(pages) + |page.keys|
  {
    assert (pages + [page])[..|pages|] == pages;
  }

  lemma ParsedFromAppend(script: seq<Incoming>, pages: seq<ScanPage>, page: ScanPage)
    requires ParsedFrom(script, pages) && |pages| < |script|
    requires script[|pages|].Arrives? && script[|pages|].reply.Array?
    requires AsPage(script[|pages|].reply.elements) == Some(page)
    ensures ParsedFrom(script, pages + [page])
  {
    forall i | 0 <= i < |pages| + 1
      ensures script[i].Arrives? && script[i].reply.Array? && AsPage(script[i].reply.elements) == Some((pages + [page])[i])
    {
      if i < |pages| {
        assert (pages + [page])[i] == pages[i];
      }
    }
  }

  /** The do-while loop of `forEach` on a borrowed connection. */
  method ScanLoop(c: Conn, pattern: string) returns (st: ScanState, failure: Option<Failure>)
    ensures Ended(c.script, c.written, pattern, st, failure)
  {
    st := ScanState(c, Some("0"), [], [], [], 0);
    assert ScanFrames(pattern, []) == [];
    while true
      invariant Running(c.script, c.written, pattern, st)
      decreases |st.conn.script|
    {
      var step := ScanOnce(st.conn, st.cursor, pattern);
      AdvanceKeepsStep(c.script, c.written, pattern, st);
      if Stops(step) {
        return Advance(st, step), step.failure;
      }
      st := Advance(st, step);
    }
  }

  /** `forEach(pattern, consumer)`. Alongside the outcome it yields the
      pages read, the cursors sent, the keys handed to the consumer (None
      for a null key) and the `returnedKeys` count. The scan starts at
      cursor "0", sends each cursor the server returns, and stops exactly at
      the first page whose cursor is "0"; a page's keys go to the consumer
      before the next SCAN. */
  method ForEach(redis: RedisClient, pattern: string)
    returns (o: Outcome<()>, pages: seq<ScanPage>, sent: seq<string>, visited: seq<Option<string>>,
             returnedKeys: nat)
    ensures ReturnedOnce(redis, o)
    ensures 1 <= |sent| && SentInOrder(sent, pages)
    ensures o.redis.pool.resource.written ==
      redis.pool.resource.written + ScanWrites(pattern, pages, sent, o.result.Fail?)
    ensures ParsedFrom(redis.pool.resource.script, pages)
    ensures visited == Visited(pages) && returnedKeys == KeyCount(pages)
    ensures forall i :: 0 <= i < |sent| - 1 ==> Continues(pages[i]) && AllKeys(pages[i].keys)
    ensures o.result.Ok? ==>
      |sent| == |pages| && pages[|pages| - 1].cursor == Some("0") && AllKeys(pages[|pages| - 1].keys)
    ensures o.result.Fail? && |sent| == |pages| ==>
      && o.result.failure == UnexpectedReply
      && (AllKeys(pages[|pages| - 1].keys) ==> pages[|pages| - 1].cursor.None?)
    ensures IsIOFailure(o.result) <==>
      (|sent| == |pages| + 1
       && (|pages| == |redis.pool.resource.script| || redis.pool.resource.script[|pages|].Fault?))
    ensures o.result.Fail? && !IsIOFailure(o.result) && |sent| == |pages| + 1 ==>
      NotAPage(redis.pool.resource.script, |pages|)
    ensures |sent| == |pages| + 1 && |pages| < |redis.pool.resource.script|
            && redis.pool.resource.script[|pages|].Arrives? ==>
      o.result == Fail(CastFailure(redis.pool.resource.script[|pages|].reply))
    ensures forall k: nat :: GoodScan(redis.pool.resource.script, k) ==> o.result.Ok? && |pages| == k + 1
    ensures forall k: nat :: NullCursorScan(redis.pool.resource.script, k) ==>
      o.result == Fail(UnexpectedReply) && |pages| == |sent| == k + 1
  {
    var checkout := BorrowItem(redis.pool);
    var st, failure := ScanLoop(checkout.item.resource, pattern);
    var result := if failure.Some? then Fail(failure.value) else Ok(());
    assert result.Ok? <==> failure.None?;
    assert IsIOFailure(result) <==> failure == Some(IOFailure);
    o := Finish(redis, checkout, Step(st.conn, result));
    assert o.result == result && o.redis.pool.resource.written == st.conn.written;
    pages, sent, visited, returnedKeys := st.pages, st.sent, st.visited, st.returnedKeys;
    forall k: nat | GoodScan(redis.pool.resource.script, k)
      ensures o.result.Ok? && |pages| == k + 1
    {
      EndedOnGoodScan(redis.pool.resource.script, redis.pool.resource.written, pattern, st, failure, k);
    }
    forall k: nat | NullCursorScan(redis.pool.resource.script, k)
      ensures o.result == Fail(UnexpectedReply) && |pages| == |sent| == k + 1
    {
      EndedOnNullCursor(redis.pool.resource.script, redis.pool.resource.written, pattern, st, failure, k);
    }
  }
}
