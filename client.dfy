/** The client (client.go): the id the server assigned (empty while disconnected), the
    connection, and the rule table. */
module Client {
  import opened Base
  import opened Messages
  import opened Codec
  import opened Ids
  import opened Transport
  import opened Rules
  import Reader

  /** The author the client's reader puts on every message it receives. */
  const ServerAuthor: seq<byte> := Str("server")

  /** Which rules a message matches on the client: id and name filters, no author filter. */
  function ClientHits(rules: seq<Rule>, m: Msg): (hits: seq<bool>)
    ensures |hits| == |rules|
  {
    seq(|rules|, i requires 0 <= i < |rules| => IdNameMatch(rules[i], m))
  }

  /** Which rules each of the messages matches. */
  function ClientRows(rules: seq<Rule>, msgs: seq<Msg>): (rows: seq<seq<bool>>)
    ensures |rows| == |msgs| && forall j :: 0 <= j < |rows| ==> |rows[j]| == |rules|
  {
    seq(|msgs|, j requires 0 <= j < |msgs| => ClientHits(rules, msgs[j]))
  }

  /** Matching reads only the filters, never `called`. */
  lemma ClientHitsIgnoreCalled(a: seq<Rule>, b: seq<Rule>, m: Msg)
    requires SameFilters(a, b)
    ensures ClientHits(a, m) == ClientHits(b, m)
  {
    forall i | 0 <= i < |a|
      ensures IdNameMatch(a[i], m) == IdNameMatch(b[i], m)
    {
      assert a[i].(called := false) == b[i].(called := false);
    }
  }

  /** The position of the first message with the name, or the number of messages. */
  function FirstNamed(ms: seq<Msg>, name: seq<byte>): nat {
    FirstIndex(ms, (m: Msg) => m.name == name)
  }

  /** The id a successful handshake leaves: the body of the first "handshake" message the
      server sends, or the id from before if none arrives. */
  function HandshakeId(bytes: seq<byte>, before: seq<byte>): seq<byte> {
    var ms := Decode(bytes, ServerAuthor).msgs;
    var k := FirstNamed(ms, HandshakeName);
    if k < |ms| then ms[k].body.Contents() else before
  }

  /** The handshake's reader callback skips everything but a "handshake" message and stops
      at the first one: that is the last message it is given. If none comes, it is given
      everything and then the disconnect message, whose name differs. */
  lemma HandshakeReading(bytes: seq<byte>, keep: Msg -> bool)
    requires forall m :: keep(m) == (m.name != HandshakeName)
    ensures var h := Reader.ReadStreamSpec(ServerAuthor, bytes, keep);
      var ms := Decode(bytes, ServerAuthor).msgs;
      var k := FirstNamed(ms, HandshakeName);
      && ((|h| > 0 && h[|h| - 1].name == HandshakeName) <==> k < |ms|)
      && (k < |ms| ==> h[|h| - 1] == ms[k])
  {
    var ms := Decode(bytes, ServerAuthor).msgs;
    ReservedNamesDiffer();
    if Reader.Deliver(ms, keep).stopped {
      HandshakeFound(ms, keep);
    } else {
      HandshakeMissing(ms, keep);
    }
  }

  lemma HandshakeFound(ms: seq<Msg>, keep: Msg -> bool)
    requires forall m :: keep(m) == (m.name != HandshakeName)
    requires Reader.Deliver(ms, keep).stopped
    ensures var h := Reader.Deliver(ms, keep).handled;
      && 0 < |h| <= |ms| && h[|h| - 1].name == HandshakeName
      && FirstNamed(ms, HandshakeName) == |h| - 1 && h[|h| - 1] == ms[|h| - 1]
  {
    var h := Reader.Deliver(ms, keep).handled;
    Reader.DeliverStopsAtFirstRefusal(ms, keep);
    Reader.DeliverPrefix(ms, keep);
    var n := |h| - 1;
    assert h[n] == ms[n];
    forall j | 0 <= j < n
      ensures ms[j].name != HandshakeName
    {
      assert h[j] == ms[j];
      assert keep(h[j]);
    }
  }

  lemma HandshakeMissing(ms: seq<Msg>, keep: Msg -> bool)
    requires forall m :: keep(m) == (m.name != HandshakeName)
    requires !Reader.Deliver(ms, keep).stopped
    ensures Reader.Deliver(ms, keep).handled == ms && FirstNamed(ms, HandshakeName) == |ms|
  {
    Reader.DeliverStopsAtFirstRefusal(ms, keep);
    Reader.DeliverPrefix(ms, keep);
  }

  /** The server's handshake answer gives the client the id the server assigned it: a
      reply that carries a non-empty id in its body, as the first "handshake" message on
      the connection, becomes the client's id. */
  lemma HandshakeAssignsId(before: seq<byte>, msgId: Id12, answerId: seq<byte>, tail: seq<byte>)
    requires 0 < |answerId| < Uint64Limit
    ensures var answer := Outgoing(msgId, false, HandshakeName, Bytes(answerId));
      HandshakeId(Encode(answer) + tail, before) == answerId
  {
    var answer := Outgoing(msgId, false, HandshakeName, Bytes(answerId));
    OutgoingRoundTrips(msgId, false, HandshakeName, Bytes(answerId));
    ParseEncoded(answer, tail, ServerAuthor);
    var b := Encode(answer) + tail;
    assert b[|Encode(answer)|..] == tail;
    assert Decode(b, ServerAuthor).msgs[0] == Received(answer, ServerAuthor);
  }

  class Client {
    var id: seq<byte>
    var conn: Conn
    var rules: seq<Rule>

    /** A client whose connection has been dialled and that has no id yet. */
    constructor(conn: Conn)
      ensures id == [] && this.conn == conn && rules == []
    {
      id := [];
      this.conn := conn;
      rules := [];
    }

    /** Send (client.go): fails with `ErrDisconnected`, writing nothing, while the id is
        empty; otherwise writes the message, with HAS_BODY exactly when the body is not nil
        and never the request flag. */
    method Send(name: seq<byte>, body: Slice, msgId: Id12) returns (err: Option<Error>)
      requires |name| <= MaxNameLen && |body.Contents()| < Uint64Limit
      modifies this
      ensures id == old(id) && rules == old(rules)
      ensures old(id) == [] ==> err == Some(Disconnected) && conn == old(conn)
      ensures old(id) != [] ==>
        && (err.None? <==> Writable(old(conn)))
        && conn == Put(old(conn), Encode(Outgoing(msgId, false, name, body)))
    {
      if id == [] {
        return Some(Disconnected);
      }
      var meta: byte := 0;
      if body.Bytes? || |body.Contents()| > 0 {
        meta := MsgWithBody;
      }
      var after;
      after, err := WriteMsg(conn, msgId, meta, name, body);
      conn := after;
    }

    /** Req (client.go): fails with `ErrDisconnected`, changing nothing, while the id is
        empty; otherwise first appends a one-shot rule for the answer, filtered on the
        request's id and name, then writes the request. The rule stays when the write
        fails. */
    method Req(name: seq<byte>, body: Slice, msgId: Id12) returns (err: Option<Error>)
      requires |name| <= MaxNameLen && |body.Contents()| < Uint64Limit
      modifies this
      ensures id == old(id)
      ensures old(id) == [] ==> err == Some(Disconnected) && conn == old(conn) && rules == old(rules)
      ensures old(id) != [] ==>
        && rules == old(rules) + [Rule(Forward, true, false, Bytes(msgId), name, [])]
        && (err.None? <==> Writable(old(conn)))
        && conn == Put(old(conn), Encode(Outgoing(msgId, true, name, body)))
    {
      if id == [] {
        return Some(Disconnected);
      }
      var meta := MsgReq;
      if body.Bytes? {
        meta := meta + MsgWithBody;
      }
      rules := rules + [Rule(Forward, true, false, Bytes(msgId), name, [])];
      var after;
      after, err := WriteMsg(conn, msgId, meta, name, body);
      conn := after;
    }

    /** On (client.go): appends a persistent rule filtered on the name only. */
    method On(msgName: seq<byte>, handler: Handler)
      modifies this
      ensures rules == old(rules) + [Rule(handler, false, false, Nil, msgName, [])]
      ensures id == old(id) && conn == old(conn)
    {
      rules := rules + [Rule(handler, false, false, Nil, msgName, [])];
    }

    /** Disconnect (client.go): the id becomes empty, so that `Send` and `Req` fail from
        now on, and the connection is closed. */
    method Disconnect() returns (err: Option<Error>)
      modifies this
      ensures id == [] && rules == old(rules)
      ensures (conn, err) == Close(old(conn))
    {
      id := [];
      var closed := Close(conn);
      conn := closed.0;
      err := closed.1;
    }

    /** The rule scan of handleResponses (client.go) for one message: returns the indices
        of the launched rules and marks the matching one-shot rules called. */
    method Dispatch(msg: Msg) returns (launched: seq<nat>)
      modifies this
      ensures id == old(id) && conn == old(conn)
      ensures var hits := ClientHits(old(rules), msg);
        launched == Launches(old(rules), hits) && rules == Mark(old(rules), hits)
    {
      var start := rules;
      var rs := rules;
      ghost var hits := ClientHits(start, msg);
      launched := [];
      var i := 0;
      while i < |rs|
        invariant |rs| == |start| && i <= |rs| && id == old(id) && conn == old(conn)
        invariant forall j :: 0 <= j < |rs| ==>
          rs[j] == if j < i && hits[j] && start[j].once then start[j].(called := true) else start[j]
        invariant launched == Launches(start[..i], hits[..i])
      {
        var r := rs[i];
        var matched := Matches(r, msg);
        if matched {
          if r.once {
            if !r.called {
              launched := launched + [i];
              rs := rs[i := r.(called := true)];
            }
          } else {
            launched := launched + [i];
          }
        }
        assert start[..i + 1][..i] == start[..i] && hits[..i + 1][..i] == hits[..i];
        i := i + 1;
      }
      assert start[..i] == start && hits[..i] == hits;
      rules := rs;
    }

    /** The id and name filters of one rule against one message, as the scan tests them. */
    method Matches(r: Rule, msg: Msg) returns (matched: bool)
      ensures matched == IdNameMatch(r, msg)
    {
      matched := true;
      if r.msgID.Bytes? {
        var eq := BinEq(r.msgID, msg.id);
        matched := matched && eq;
      }
      if r.msgName != [] {
        matched := matched && r.msgName == msg.name;
      }
    }

    /** handleResponses (client.go): every message read from the server, the closing
        disconnect message included, is scanned against the rules in turn. */
    method HandleResponses(chunks: seq<seq<byte>>) returns (launches: seq<seq<nat>>)
      modifies this
      ensures id == old(id) && conn == old(conn)
      ensures var msgs := Decode(Reader.Flatten(chunks), ServerAuthor).msgs + [DisconnectMsg(ServerAuthor)];
        var d := DispatchAll(old(rules), ClientRows(old(rules), msgs));
        launches == d.launches && rules == d.rules
    {
      var keep: Msg -> bool := _ => true;
      var msgs := Reader.ReadStream(ServerAuthor, chunks, keep);
      Reader.KeepAllDeliversAll(ServerAuthor, Reader.Flatten(chunks), keep);
      ghost var start := rules;
      ghost var rows := ClientRows(start, msgs);
      launches := [];
      for j := 0 to |msgs|
        invariant id == old(id) && conn == old(conn)
        invariant DispatchAll(start, rows[..j]) == Dispatched(launches, rules)
      {
        ClientHitsIgnoreCalled(rules, start, msgs[j]);
        DispatchAllNext(start, rows, j);
        var launched := Dispatch(msgs[j]);
        launches := launches + [launched];
      }
      assert rows[..|msgs|] == rows;
    }

    /** handshake (client.go): writes a "handshake" request with the client's name as body;
        if that write fails, stops there. Otherwise reads from the server, skipping other
        messages, and takes the body of the first "handshake" message as its id. */
    method Handshake(name: seq<byte>, msgId: Id12, chunks: seq<seq<byte>>) returns (err: Option<Error>)
      requires |name| < Uint64Limit
      modifies this
      ensures rules == old(rules)
      ensures (err.None? <==> Writable(old(conn)))
      ensures conn == Put(old(conn), Encode(Outgoing(msgId, true, HandshakeName, Bytes(name))))
      ensures id == if err.Some? then old(id) else HandshakeId(Reader.Flatten(chunks), old(id))
    {
      var after;
      after, err := WriteMsg(conn, msgId, MsgWithBody + MsgReq, HandshakeName, Bytes(name));
      conn := after;
      if err.Some? {
        return;
      }
      var keep := (m: Msg) => m.name != HandshakeName;
      var handled := Reader.ReadStream(ServerAuthor, chunks, keep);
      HandshakeReading(Reader.Flatten(chunks), keep);
      if |handled| > 0 && handled[|handled| - 1].name == HandshakeName {
        id := handled[|handled| - 1].body.Contents();
      }
    }
  }

  /** A request's answer reaches the rule `Req` appended for it: a reply carrying the
      request's id and name matches that rule, which launches it once. */
  lemma ReplyMatchesReq(msgId: Id12, name: seq<byte>, reply: Msg)
    requires reply.id == Bytes(msgId) && reply.name == name
    ensures var r := Rule(Forward, true, false, Bytes(msgId), name, []);
      IdNameMatch(r, reply) && Fires(r, true) && !Fires(r.(called := true), true)
  {
  }
}
