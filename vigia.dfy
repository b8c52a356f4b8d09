/**
 * The client side of the link to the Vigia desktop gateway: a PIN
 * handshake, fire-and-forget commands and a receive loop that turns the
 * incoming text into messages delivered one by one to the application.
 *
 * Sockets are not modelled. What the network did is passed in: how the
 * handshake went, whether a write went through, and the sequence of
 * results of the successive reads. Scheduling a call on the UI thread is
 * an append to `scheduled`.
 */
module Vigia {
  import opened Wrappers
  import opened Strings
  import opened StreamCodec
  import Json

  /** No socket yet, a connected one, or one that can no longer be used
      (closed after a refused handshake, or never connected). */
  datatype SocketState = NoSocket | Open | Unusable

  /** A call scheduled on the UI thread. */
  datatype Callback = Dispatch(msg: Json.Value) | ConnectionLost

  /** The result of one read: some text (the empty text is the peer closing
      the connection) or an exception, which includes a chunk whose bytes
      are not valid UTF-8. */
  datatype RecvEvent = Chunk(text: string) | RecvFailed

  /** How the handshake went, from the client's side. */
  datatype Handshake =
    | ConnectFailed          // creating, connecting or sending on the socket raised
    | ReplyFailed            // the read of the reply raised
    | ClosedBeforeReply      // the reply read returned no bytes
    | Replied(reply: Option<Json.Value>)   // None: the reply is not JSON

  /** `{"auth_pin": pin}` */
  function AuthRequest(pin: string): Json.Value
  {
    Json.JObj(map["auth_pin" := Json.JStr(pin)])
  }

  /** The reply is an object whose `status` is exactly "auth_ok". */
  predicate Accepted(h: Handshake)
  {
    h.Replied? && h.reply.Some? && h.reply.value.JObj?
    && Json.Get(h.reply.value.fields, "status") == Json.JStr("auth_ok")
  }

  /** The two paths that close the socket and return without touching the
      connection flag: no reply, or a well-formed refusal. */
  predicate Refused(h: Handshake)
  {
    h.ClosedBeforeReply? || (h.Replied? && h.reply.Some? && h.reply.value.JObj? && !Accepted(h))
  }

  /** The deliveries scheduled for `values`, in order. */
  function Dispatches(values: seq<Json.Value>): (r: seq<Callback>)
    ensures |r| == |values|
  {
    if values == [] then [] else [Dispatch(values[0])] + Dispatches(values[1..])
  }

  lemma ScheduleOne(before: seq<Callback>, values: seq<Json.Value>, v: Json.Value)
    ensures before + Dispatches(values + [v]) == (before + Dispatches(values)) + [Dispatch(v)]
  {
    DispatchesAppend(values, [v]);
    assert Dispatches([v]) == [Dispatch(v)];
  }

  lemma {:induction false} DispatchesAppend(a: seq<Json.Value>, b: seq<Json.Value>)
    ensures Dispatches(a + b) == Dispatches(a) + Dispatches(b)
    decreases |a|
  {
    if a == [] {
      assert a + b == b;
    } else {
      assert (a + b)[1..] == a[1..] + b;
      DispatchesAppend(a[1..], b);
    }
  }

  /** What one run of the receive loop amounts to: the values delivered, in
      order, the text still buffered, and whether the loop ended. */
  datatype Session = Session(delivered: seq<Json.Value>, rest: string, ended: bool)

  /** The receive loop over the reads `events`, starting from `buf`, as
      main.py writes it: each read is appended and the buffer is peeled with
      `strip()`. An empty chunk or a failed read ends it; running out of
      reads leaves it waiting. */
  function Listen(buf: string, events: seq<RecvEvent>, decode: Decoder): Session
    requires ValidDecoder(decode)
    decreases |events|
  {
    if events == [] then Session([], buf, false)
    else if events[0].RecvFailed? || events[0].text == [] then Session([], buf, true)
    else
      var d := DrainAsWritten(buf + events[0].text, decode);
      var s := Listen(d.rest, events[1..], decode);
      Session(d.values + s.delivered, s.rest, s.ended)
  }

  /** The same loop with the corrected peeling, which skips only the
      whitespace in front of the next value (`lstrip()`). */
  function ListenCorrected(buf: string, events: seq<RecvEvent>, decode: Decoder): Session
    requires ValidDecoder(decode)
    decreases |events|
  {
    if events == [] then Session([], buf, false)
    else if events[0].RecvFailed? || events[0].text == [] then Session([], buf, true)
    else
      var d := Drain(buf + events[0].text, decode);
      var s := ListenCorrected(d.rest, events[1..], decode);
      Session(d.values + s.delivered, s.rest, s.ended)
  }

  /**
   * With the corrected peeling, reads that do not end the connection
   * deliver exactly what the whole text received would, however it was cut
   * into reads.
   */
  lemma {:induction false} ListenIsChunkingInvariant(chunks: seq<string>, decode: Decoder)
    requires ValidDecoder(decode) && PrefixStable(decode)
    requires chunks != [] && forall i :: 0 <= i < |chunks| ==> chunks[i] != []
    ensures var s := ListenCorrected([], ChunkEvents(chunks), decode);
            !s.ended && s.delivered == Drain(Concat(chunks), decode).values
            && s.rest == Drain(Concat(chunks), decode).rest
  {
    ListenChunks([], chunks, decode);
    ChunkingInvariance([], chunks, decode);
    assert [] + Concat(chunks) == Concat(chunks);
  }

  function ChunkEvents(chunks: seq<string>): (r: seq<RecvEvent>)
    ensures |r| == |chunks|
    ensures forall i :: 0 <= i < |chunks| ==> r[i] == Chunk(chunks[i])
  {
    if chunks == [] then [] else [Chunk(chunks[0])] + ChunkEvents(chunks[1..])
  }

  lemma {:induction false} ListenChunks(buf: string, chunks: seq<string>, decode: Decoder)
    requires ValidDecoder(decode)
    requires forall i :: 0 <= i < |chunks| ==> chunks[i] != []
    ensures var s := ListenCorrected(buf, ChunkEvents(chunks), decode);
            !s.ended && s.delivered == DrainChunks(buf, chunks, decode).values
            && s.rest == DrainChunks(buf, chunks, decode).rest
    decreases |chunks|
  {
    if chunks != [] {
      var events := ChunkEvents(chunks);
      assert events[1..] == ChunkEvents(chunks[1..]);
      var d := Drain(buf + chunks[0], decode);
      ListenChunks(d.rest, chunks[1..], decode);
    }
  }

  /** As written, a session of non-empty reads peels each read's text with
      `strip()` after appending it to what the previous read left. */
  lemma {:induction false} ListenChunksAsWritten(buf: string, chunks: seq<string>, decode: Decoder)
    requires ValidDecoder(decode)
    requires forall i :: 0 <= i < |chunks| ==> chunks[i] != []
    ensures var s := Listen(buf, ChunkEvents(chunks), decode);
            !s.ended && s.delivered == DrainChunksAsWritten(buf, chunks, decode).values
            && s.rest == DrainChunksAsWritten(buf, chunks, decode).rest
    decreases |chunks|
  {
    if chunks != [] {
      var events := ChunkEvents(chunks);
      assert events[1..] == ChunkEvents(chunks[1..]);
      var d := DrainAsWritten(buf + chunks[0], decode);
      ListenChunksAsWritten(d.rest, chunks[1..], decode);
    }
  }

  /** As written, the reads `"a ` and `b"` deliver the string `ab`; with the
      corrected peeling the same reads deliver `a b`. */
  lemma ListenLosesBlank(left: string, right: string)
    requires '"' !in left && '"' !in right
    requires left == [] || !IsSpace(left[|left| - 1])
    ensures ValidDecoder(StringLiteral)
    ensures Listen([], ChunkEvents(["\"" + left + " ", right + "\""]), StringLiteral).delivered
         == [Json.JStr(left + right)]
    ensures ListenCorrected([], ChunkEvents(["\"" + left + " ", right + "\""]), StringLiteral).delivered
         == [Json.JStr(left + " " + right)]
  {
    StringLiteralIsDecoder();
    var chunks := ["\"" + left + " ", right + "\""];
    assert chunks[0] != [] && chunks[1] != [];
    ListenChunksAsWritten([], chunks, StringLiteral);
    AsWrittenLosesBlank(left, right);
    ListenChunks([], chunks, StringLiteral);
    KeepsBlank(left, right);
  }

  /** A read that fails or returns nothing ends the session at once and
      delivers nothing more. */
  lemma ListenStopsAtClose(buf: string, events: seq<RecvEvent>, decode: Decoder)
    requires ValidDecoder(decode)
    requires events != [] && (events[0].RecvFailed? || events[0].text == [])
    ensures Listen(buf, events, decode) == Session([], buf, true)
  {
  }

  class Client {
    var sock: SocketState
    var connected: bool
    var ip: Option<string>
    /** Messages written to the socket, oldest first. */
    var outbox: seq<Json.Value>
    /** Calls handed to the UI thread, oldest first. */
    var scheduled: seq<Callback>
    /** Receive loops started. */
    var listeners: nat

    constructor ()
      ensures sock == NoSocket && !connected && ip == None
      ensures outbox == [] && scheduled == [] && listeners == 0
    {
      sock := NoSocket;
      connected := false;
      ip := None;
      outbox := [];
      scheduled := [];
      listeners := 0;
    }

    /**
     * The handshake: send the PIN, read one reply, succeed only on
     * `status == "auth_ok"`. A refusal closes the socket but leaves the
     * connection flag as it was; any exception on the way clears it.
     */
    method Connect(ip: string, pin: string, handshake: Handshake) returns (ok: bool)
      modifies this
      ensures ok <==> Accepted(handshake)
      ensures this.ip == Some(ip)
      ensures outbox == old(outbox) + (if handshake.ConnectFailed? then [] else [AuthRequest(pin)])
      ensures ok ==> connected && sock == Open && listeners == old(listeners) + 1
      ensures Refused(handshake) ==> connected == old(connected) && sock == Unusable
      ensures !ok && !Refused(handshake) ==> !connected
      ensures !ok && !Refused(handshake) ==> sock == if handshake.ConnectFailed? then Unusable else Open
      ensures !ok ==> listeners == old(listeners)
      ensures scheduled == old(scheduled)
    {
      this.ip := Some(ip);
      if handshake.ConnectFailed? {
        sock := Unusable;
        connected := false;
        return false;
      }
      sock := Open;
      outbox := outbox + [AuthRequest(pin)];
      match handshake {
        case ReplyFailed =>
          connected := false;
          ok := false;
        case ClosedBeforeReply =>
          sock := Unusable;
          ok := false;
        case Replied(reply) =>
          if reply.None? || !reply.value.JObj? {
            connected := false;
            ok := false;
          } else if Json.Get(reply.value.fields, "status") != Json.JStr("auth_ok") {
            sock := Unusable;
            ok := false;
          } else {
            connected := true;
            listeners := listeners + 1;
            ok := true;
          }
      }
    }

    /**
     * Write one message. Nothing happens without a connection or a socket;
     * a failed write (including one on an unusable socket) clears the
     * connection flag and schedules the connection-lost hook.
     */
    method SendCommand(data: Json.Value, delivered: bool)
      modifies this
      ensures var attempted := old(connected) && old(sock) != NoSocket;
              var sent := attempted && old(sock) == Open && delivered;
              && outbox == old(outbox) + (if sent then [data] else [])
              && connected == (old(connected) && (!attempted || sent))
              && scheduled == old(scheduled) + (if attempted && !sent then [ConnectionLost] else [])
      ensures sock == old(sock) && ip == old(ip) && listeners == old(listeners)
    {
      if !connected || sock == NoSocket {
        return;
      }
      if sock == Open && delivered {
        outbox := outbox + [data];
      } else {
        connected := false;
        scheduled := scheduled + [ConnectionLost];
      }
    }

    /**
     * The receive loop. While connected it reads; an empty read or a failed
     * one clears the flag and ends it; otherwise the text is appended to the
     * loop's buffer and every complete value at its front is scheduled for
     * delivery. When it ends, the connection-lost hook is scheduled once.
     * `pending` is what the buffer holds when the reads run out or the loop
     * ends. The buffer is peeled as main.py writes it, with `strip()`.
     */
    method ListenLoop(events: seq<RecvEvent>, decode: Decoder) returns (pending: string)
      modifies this
      requires ValidDecoder(decode)
      ensures var s := Listen([], events, decode);
              old(connected) ==>
                && connected == !s.ended
                && pending == s.rest
                && scheduled == old(scheduled) + Dispatches(s.delivered)
                                 + (if s.ended then [ConnectionLost] else [])
      ensures !old(connected) ==> !connected && pending == [] && scheduled == old(scheduled) + [ConnectionLost]
      ensures sock == old(sock) && ip == old(ip) && outbox == old(outbox) && listeners == old(listeners)
    {
      if !connected {
        scheduled := scheduled + [ConnectionLost];
        return [];
      }
      var delivered, ended;
      delivered, pending, ended := Receive(events, decode);
      scheduled := scheduled + Dispatches(delivered);
      if ended {
        connected := false;
        scheduled := scheduled + [ConnectionLost];
      }
    }
  }

  /**
   * The reads of one receive loop, on a buffer that starts empty: each
   * non-empty chunk is appended and the complete values at the front are
   * taken off; an empty chunk or a failed read ends the loop.
   */
  method Receive(events: seq<RecvEvent>, decode: Decoder)
    returns (delivered: seq<Json.Value>, pending: string, ended: bool)
    requires ValidDecoder(decode)
    ensures Session(delivered, pending, ended) == Listen([], events, decode)
  {
    var buffer := [];
    delivered, ended := [], false;
    ghost var whole := Listen([], events, decode);
    var i := 0;
    while !ended && i < |events|
      invariant 0 <= i <= |events|
      invariant !ended ==> whole == Prefixed(delivered, Listen(buffer, events[i..], decode))
      invariant ended ==> whole == Session(delivered, buffer, true)
      decreases |events| - i, if ended then 0 else 1
    {
      var event := events[i];
      if event.RecvFailed? || event.text == [] {
        ListenClosed(whole, delivered, buffer, events, i, decode);
        ended := true;
      } else {
        ListenAdvance(whole, delivered, buffer, events, i, decode);
        var here;
        here, buffer := PeelValues(buffer + event.text, decode);
        delivered := delivered + here;
        i := i + 1;
      }
    }
    if !ended {
      ListenWaiting(whole, delivered, buffer, events[i..], decode);
    }
    pending := buffer;
  }

  /**
   * The inner loop of the receive loop: strip whitespace from both ends and
   * take complete values off the front of `buffer` until it is empty or what
   * is left does not decode. Each value taken is scheduled for delivery by the
   * caller, in the order returned.
   */
  method PeelValues(buffer: string, decode: Decoder) returns (values: seq<Json.Value>, rest: string)
    requires ValidDecoder(decode)
    ensures DrainAsWritten(buffer, decode) == Drained(values, rest)
  {
    values, rest := [], buffer;
    while rest != []
      invariant DrainAsWritten(buffer, decode) == Drained(values + DrainAsWritten(rest, decode).values, DrainAsWritten(rest, decode).rest)
      decreases |rest|
    {
      DrainStripped(rest, decode);
      rest := Strip(rest);
      if rest == [] {
        break;
      }
      var r := decode(rest);
      if r.None? {
        break;
      }
      PeelStep(DrainAsWritten(buffer, decode), values, rest, decode);
      values := values + [r.value.value];
      rest := rest[r.value.consumed..];
    }
    DrainStopped(rest, decode);
    assert values + [] == values;
  }

  lemma DrainStripped(s: string, decode: Decoder)
    requires ValidDecoder(decode)
    ensures DrainAsWritten(Strip(s), decode) == DrainAsWritten(s, decode)
  {
    StripIdempotent(s);
  }

  lemma PeelStep(whole: Drained, values: seq<Json.Value>, s: string, decode: Decoder)
    requires ValidDecoder(decode)
    requires s != [] && Strip(s) == s && decode(s).Some?
    requires whole == Drained(values + DrainAsWritten(s, decode).values, DrainAsWritten(s, decode).rest)
    ensures var r := decode(s).value;
            var tail := DrainAsWritten(s[r.consumed..], decode);
            whole == Drained((values + [r.value]) + tail.values, tail.rest)
  {
    DrainTakesValue(s, decode);
    var r := decode(s).value;
    SeqAssoc(values, [r.value], DrainAsWritten(s[r.consumed..], decode).values);
  }

  lemma DrainTakesValue(s: string, decode: Decoder)
    requires ValidDecoder(decode)
    requires s != [] && Strip(s) == s && decode(s).Some?
    ensures var r := decode(s).value;
            var tail := DrainAsWritten(s[r.consumed..], decode);
            DrainAsWritten(s, decode) == Drained([r.value] + tail.values, tail.rest)
  {
  }

  lemma SeqAssoc<T>(a: seq<T>, b: seq<T>, c: seq<T>)
    ensures a + (b + c) == (a + b) + c
  {
  }

  lemma DrainStopped(s: string, decode: Decoder)
    requires ValidDecoder(decode)
    requires s == [] || (Strip(s) == s && decode(s).None?)
    ensures DrainAsWritten(s, decode) == Drained([], s)
  {
  }

  lemma ListenWaiting(whole: Session, got: seq<Json.Value>, buffer: string, events: seq<RecvEvent>,
                      decode: Decoder)
    requires ValidDecoder(decode) && events == []
    requires whole == Prefixed(got, Listen(buffer, events, decode))
    ensures whole == Session(got, buffer, false)
  {
    assert got + [] == got;
  }

  lemma ListenClosed(whole: Session, got: seq<Json.Value>, buffer: string, events: seq<RecvEvent>,
                     i: nat, decode: Decoder)
    requires ValidDecoder(decode) && i < |events|
    requires events[i].RecvFailed? || events[i].text == []
    requires whole == Prefixed(got, Listen(buffer, events[i..], decode))
    ensures whole == Session(got, buffer, true)
  {
    ListenStep(buffer, events[i..], decode);
    assert got + [] == got;
  }

  lemma ListenAdvance(whole: Session, got: seq<Json.Value>, buffer: string, events: seq<RecvEvent>,
                      i: nat, decode: Decoder)
    requires ValidDecoder(decode) && i < |events|
    requires events[i].Chunk? && events[i].text != []
    requires whole == Prefixed(got, Listen(buffer, events[i..], decode))
    ensures var d := DrainAsWritten(buffer + events[i].text, decode);
            whole == Prefixed(got + d.values, Listen(d.rest, events[i + 1..], decode))
  {
    ListenStep(buffer, events[i..], decode);
    assert events[i..][1..] == events[i + 1..];
    var d := DrainAsWritten(buffer + events[i].text, decode);
    PrefixedAppend(got, d.values, Listen(d.rest, events[i + 1..], decode));
  }

  lemma ScheduleMany(before: seq<Callback>, got: seq<Json.Value>, here: seq<Json.Value>)
    ensures before + Dispatches(got) + Dispatches(here) == before + Dispatches(got + here)
  {
    DispatchesAppend(got, here);
  }

  lemma ListenStep(buf: string, events: seq<RecvEvent>, decode: Decoder)
    requires ValidDecoder(decode) && events != []
    ensures events[0].RecvFailed? || events[0].text == [] ==> Listen(buf, events, decode) == Session([], buf, true)
    ensures events[0].Chunk? && events[0].text != [] ==>
              Listen(buf, events, decode)
              == Prefixed(DrainAsWritten(buf + events[0].text, decode).values,
                          Listen(DrainAsWritten(buf + events[0].text, decode).rest, events[1..], decode))
  {
  }

  lemma PrefixedAppend(a: seq<Json.Value>, b: seq<Json.Value>, s: Session)
    ensures Prefixed(a, Prefixed(b, s)) == Prefixed(a + b, s)
  {
    assert a + (b + s.delivered) == (a + b) + s.delivered;
  }

  function Prefixed(values: seq<Json.Value>, s: Session): Session
  {
    Session(values + s.delivered, s.rest, s.ended)
  }

  // ---------------------------------------------------------------------
  // Dispatch of one received message.

  /** What `process_message` does with a message: hand the `files` value to
      the application, ask the gateway for a fresh listing, ignore it, or
      fail because the message is not an object (`msg.get` raises). */
  datatype Reaction = ReplaceRemoteFiles(files: Json.Value) | RequestListing | Ignore | NotAnObject

  /** `{"command": "list_desktop"}` */
  function ListingRequest(): Json.Value
  {
    Json.JObj(map["command" := Json.JStr("list_desktop")])
  }

  /** `msg.get("type") or msg.get("command")` */
  function CommandOf(fields: map<string, Json.Value>): (r: Json.Value)
    ensures Json.Truthy(Json.Get(fields, "type")) ==> r == Json.Get(fields, "type")
    ensures !Json.Truthy(Json.Get(fields, "type")) ==> r == Json.Get(fields, "command")
  {
    var t := Json.Get(fields, "type");
    if Json.Truthy(t) then t else Json.Get(fields, "command")
  }

  predicate IsChangeNotice(cmd: Json.Value)
  {
    cmd == Json.JStr("batch_update") || cmd == Json.JStr("fs_event")
  }

  function ProcessMessage(msg: Json.Value): (r: Reaction)
    ensures r.NotAnObject? <==> !msg.JObj?
    ensures r.ReplaceRemoteFiles? <==> msg.JObj? && "files" in msg.fields
    ensures r.ReplaceRemoteFiles? ==> r.files == msg.fields["files"]
    ensures r.RequestListing? <==> msg.JObj? && "files" !in msg.fields && IsChangeNotice(CommandOf(msg.fields))
  {
    if !msg.JObj? then NotAnObject
    else if "files" in msg.fields then ReplaceRemoteFiles(msg.fields["files"])
    else if IsChangeNotice(CommandOf(msg.fields)) then RequestListing
    else Ignore
  }

  /** A `files` entry wins over any `type` or `command` the message carries. */
  lemma FilesWin(fields: map<string, Json.Value>, cmd: Json.Value)
    requires "files" in fields
    ensures ProcessMessage(Json.JObj(fields["type" := cmd])) == ReplaceRemoteFiles(fields["files"])
    ensures ProcessMessage(Json.JObj(fields["command" := cmd])) == ReplaceRemoteFiles(fields["files"])
  {
  }

  /** A non-empty `type` is the command; `command` is then not looked at. */
  lemma TypeShadowsCommand(fields: map<string, Json.Value>, kind: string, other: Json.Value)
    requires "files" !in fields && kind != []
    ensures var msg := Json.JObj(fields["type" := Json.JStr(kind)]["command" := other]);
            ProcessMessage(msg).RequestListing? <==> kind == "batch_update" || kind == "fs_event"
  {
    var f := fields["type" := Json.JStr(kind)]["command" := other];
    assert Json.Get(f, "type") == Json.JStr(kind);
  }

  /** An absent, null or empty `type` falls back to `command`. */
  lemma CommandFallback(fields: map<string, Json.Value>, cmd: Json.Value)
    requires "files" !in fields && !Json.Truthy(Json.Get(fields, "type"))
    ensures ProcessMessage(Json.JObj(fields["command" := cmd])).RequestListing? <==> IsChangeNotice(cmd)
  {
    var f := fields["command" := cmd];
    assert Json.Get(f, "type") == Json.Get(fields, "type");
  }

  /** The gateway's two announcement schemas both trigger a new listing. */
  lemma BothSchemas()
    ensures ProcessMessage(Json.JObj(map["type" := Json.JStr("fs_event")])) == RequestListing
    ensures ProcessMessage(Json.JObj(map["command" := Json.JStr("batch_update")])) == RequestListing
    ensures ProcessMessage(Json.JObj(map["type" := Json.JStr("ping"), "command" := Json.JStr("fs_event")])) == Ignore
  {
    var m1 := map["type" := Json.JStr("fs_event")];
    assert Json.Get(m1, "type") == Json.JStr("fs_event");
    var m2 := map["command" := Json.JStr("batch_update")];
    assert "type" !in m2;
    var m3 := map["type" := Json.JStr("ping"), "command" := Json.JStr("fs_event")];
    assert Json.Get(m3, "type") == Json.JStr("ping");
  }
}
