/** The server (server.go): the registry of connected clients, the rule table, and the
    operations that read and change them. */
module Server {
  import opened Base
  import opened Messages
  import opened Codec
  import opened Ids
  import opened Transport
  import opened Rules
  import Reader

  /** A registry entry: the id assigned on accept, the name the handshake declared (empty
      until then), and the connection. */
  datatype ConnectedClient = ConnectedClient(id: seq<byte>, name: seq<byte>, conn: Conn)

  datatype ConnType = Unix | Tcp

  predicate HasPrefix(s: seq<byte>, p: seq<byte>) {
    |p| <= |s| && s[..|p|] == p
  }

  predicate HasSuffix(s: seq<byte>, p: seq<byte>) {
    |p| <= |s| && s[|s| - |p|..] == p
  }

  /** The address classification `Listen` starts with: a path ending in `.sock` is a unix
      socket, everything else a TCP address. */
  function ConnTypeOf(address: seq<byte>): ConnType {
    if HasPrefix(address, Str("/")) && HasSuffix(address, Str(".sock")) then Unix else Tcp
  }

  /** A unix socket address is at least `/` and `.sock` apart: the two never overlap. */
  lemma UnixAddresses(address: seq<byte>)
    ensures ConnTypeOf(address) == Unix <==>
      |address| >= 6 && address[0] == '/' as byte && address[|address| - 5..] == Str(".sock")
  {
    var slash, dot := Str("/"), Str(".sock");
    assert |slash| == 1 && slash[0] == '/' as byte;
    assert |dot| == 5 && dot[0] == '.' as byte;
    if HasPrefix(address, slash) && HasSuffix(address, dot) {
      assert address[0] == address[..1][0];
      assert address[|address| - 5] == address[|address| - 5..][0];
    }
    if |address| >= 1 && address[0] == '/' as byte {
      assert address[..1] == slash;
    }
  }

  /** The address of the example server, a TCP address, and two near misses. */
  lemma ConnTypeExamples()
    ensures ConnTypeOf(Str("/tmp/con-examples.sock")) == Unix
    ensures ConnTypeOf(Str("127.0.0.1:1234")) == Tcp
    ensures ConnTypeOf(Str("/tmp/con.socket")) == Tcp
    ensures ConnTypeOf(Str("tmp/con.sock")) == Tcp
  {
    assert Str("/tmp/con-examples.sock")[..1] == Str("/");
    assert Str("/tmp/con-examples.sock")[17..] == Str(".sock");
    assert Str("127.0.0.1:1234")[..1][0] != Str("/")[0];
    assert Str("/tmp/con.socket")[10..][4] != Str(".sock")[4];
    assert Str("tmp/con.sock")[..1][0] != Str("/")[0];
  }

  /** The position of the first client with id `id`, or the registry size if there is none. */
  function IndexOfId(clients: seq<ConnectedClient>, id: seq<byte>): nat {
    FirstIndex(clients, (c: ConnectedClient) => c.id == id)
  }

  /** The position of the first client with id or name `client`, or the registry size. */
  function IndexOfIdOrName(clients: seq<ConnectedClient>, client: seq<byte>): nat {
    FirstIndex(clients, (c: ConnectedClient) => c.id == client || c.name == client)
  }

  /** The name the author filter compares: that of the first client whose id is the
      message's author, if any. */
  function AuthorName(clients: seq<ConnectedClient>, author: seq<byte>): Option<seq<byte>> {
    var k := IndexOfId(clients, author);
    if k < |clients| then Some(clients[k].name) else None
  }

  /** The server's match: id, name and author filters. */
  predicate ServerMatch(r: Rule, m: Msg, clients: seq<ConnectedClient>) {
    IdNameMatch(r, m) && AuthorPasses(r, AuthorName(clients, m.author))
  }

  /** Which rules of the table a message matches. */
  function ServerHits(rules: seq<Rule>, m: Msg, clients: seq<ConnectedClient>): (hits: seq<bool>)
    ensures |hits| == |rules|
  {
    seq(|rules|, i requires 0 <= i < |rules| => ServerMatch(rules[i], m, clients))
  }

  /** Which rules each of the messages matches. */
  function ServerRows(rules: seq<Rule>, msgs: seq<Msg>, clients: seq<ConnectedClient>): (rows: seq<seq<bool>>)
    ensures |rows| == |msgs| && forall j :: 0 <= j < |rows| ==> |rows[j]| == |rules|
  {
    seq(|msgs|, j requires 0 <= j < |msgs| => ServerHits(rules, msgs[j], clients))
  }

  /** Matching reads only the filters, never `called`. */
  lemma ServerHitsIgnoreCalled(a: seq<Rule>, b: seq<Rule>, m: Msg, clients: seq<ConnectedClient>)
    requires SameFilters(a, b)
    ensures ServerHits(a, m, clients) == ServerHits(b, m, clients)
  {
    forall i | 0 <= i < |a|
      ensures ServerMatch(a[i], m, clients) == ServerMatch(b[i], m, clients)
    {
      assert a[i].(called := false) == b[i].(called := false);
    }
  }

  /** Scanning message `j` continues the scans of the messages before it, matched against
      the table as those scans left it. */
  lemma ServerDispatchNext(start: seq<Rule>, msgs: seq<Msg>, clients: seq<ConnectedClient>, j: nat,
                           launches: seq<seq<nat>>, rules: seq<Rule>)
    requires j < |msgs|
    requires DispatchAll(start, ServerRows(start, msgs, clients)[..j]) == Dispatched(launches, rules)
    ensures var hits := ServerHits(rules, msgs[j], clients);
      DispatchAll(start, ServerRows(start, msgs, clients)[..j + 1])
        == Dispatched(launches + [Launches(rules, hits)], Mark(rules, hits))
  {
    ServerHitsIgnoreCalled(rules, start, msgs[j], clients);
    DispatchAllNext(start, ServerRows(start, msgs, clients), j);
  }

  /** The author filter rejects only a message from a registered client with another name:
      an unregistered author passes every author filter. */
  lemma UnknownAuthorPasses(r: Rule, m: Msg, clients: seq<ConnectedClient>)
    requires forall j :: 0 <= j < |clients| ==> clients[j].id != m.author
    ensures ServerMatch(r, m, clients) <==> IdNameMatch(r, m)
  {
    assert IndexOfId(clients, m.author) == |clients|;
  }

  /** Whether `Send` (a name) or `Broadcast` (None) writes to a client. */
  predicate Addressed(c: ConnectedClient, target: Option<seq<byte>>) {
    target.None? || c.name == target.value
  }

  /** The first addressed client whose connection fails a write, or the registry size. */
  function FirstFailure(clients: seq<ConnectedClient>, target: Option<seq<byte>>): (k: nat)
    ensures k <= |clients|
    ensures k < |clients| ==> Addressed(clients[k], target) && !Writable(clients[k].conn)
    ensures forall j :: 0 <= j < k && Addressed(clients[j], target) ==> Writable(clients[j].conn)
  {
    if clients == [] then 0
    else if Addressed(clients[0], target) && !Writable(clients[0].conn) then 0
    else 1 + FirstFailure(clients[1..], target)
  }

  /** The frame written to client `i`: a fresh id per write, HAS_BODY exactly when the body
      is not nil, never the request flag. */
  function Notice(ids: seq<Id12>, i: nat, msgName: seq<byte>, body: Slice): seq<byte>
    requires i < |ids| && |msgName| <= MaxNameLen && |body.Contents()| < Uint64Limit
  {
    Encode(Outgoing(ids[i], false, msgName, body))
  }

  /** The registry once every addressed client before position `k` has been written to. */
  function Fanout(clients: seq<ConnectedClient>, target: Option<seq<byte>>, ids: seq<Id12>,
                  msgName: seq<byte>, body: Slice, k: nat): (after: seq<ConnectedClient>)
    requires |ids| >= |clients| && |msgName| <= MaxNameLen && |body.Contents()| < Uint64Limit
    ensures |after| == |clients|
  {
    seq(|clients|, i requires 0 <= i < |clients| =>
      if i < k && Addressed(clients[i], target)
      then clients[i].(conn := clients[i].conn.(sent := clients[i].conn.sent + Notice(ids, i, msgName, body)))
      else clients[i])
  }

  /** One more client: the fan-out to the first `i + 1` clients is the fan-out to the first
      `i` with client `i` written to if it is addressed. */
  lemma FanoutStep(clients: seq<ConnectedClient>, target: Option<seq<byte>>, ids: seq<Id12>,
                   msgName: seq<byte>, body: Slice, i: nat)
    requires |ids| >= |clients| && |msgName| <= MaxNameLen && |body.Contents()| < Uint64Limit
    requires i < |clients|
    ensures var before, c := Fanout(clients, target, ids, msgName, body, i), clients[i];
      && before[i] == c
      && Fanout(clients, target, ids, msgName, body, i + 1)
         == if Addressed(c, target)
            then before[i := c.(conn := c.conn.(sent := c.conn.sent + Notice(ids, i, msgName, body)))]
            else before
  {
  }

  /** What a fan-out leaves in place: ids, names and the connections' states; only bytes
      are added, and only to addressed clients before the first failure. */
  lemma FanoutOnlyAppends(clients: seq<ConnectedClient>, target: Option<seq<byte>>, ids: seq<Id12>,
                          msgName: seq<byte>, body: Slice)
    requires |ids| >= |clients| && |msgName| <= MaxNameLen && |body.Contents()| < Uint64Limit
    ensures var k := FirstFailure(clients, target);
      var after := Fanout(clients, target, ids, msgName, body, k);
      forall i :: 0 <= i < |clients| ==>
        && after[i].id == clients[i].id && after[i].name == clients[i].name
        && after[i].conn.closed == clients[i].conn.closed
        && (after[i] != clients[i] <==> i < k && Addressed(clients[i], target))
        && (after[i] != clients[i] ==> Writable(clients[i].conn))
  {
  }

  /** The server's answer to a request, if it sends one: only a message with the request
      flag gets one, with the same id (copied into 12 bytes), the same name, and HAS_BODY
      exactly when the handler's answer is not nil. */
  function Reply(msg: Msg, ans: Slice): (f: Option<Frame>)
    requires |msg.name| <= MaxNameLen && |ans.Contents()| < Uint64Limit
    ensures f.Some? <==> IsRequest(msg.meta)
    ensures f.Some? ==> f.value == Outgoing(PadId(msg.id), false, msg.name, ans)
  {
    if IsRequest(msg.meta) then Some(Outgoing(PadId(msg.id), false, msg.name, ans)) else None
  }

  /** `var id [12]byte; copy(id[:], msg.ID)`: the first 12 bytes, zero-filled. */
  function PadId(id: Slice): (r: Id12)
    ensures |id.Contents()| == IdLen ==> r == id.Contents()
  {
    var c := id.Contents();
    if |c| >= IdLen then c[..IdLen] else c + seq(IdLen - |c|, _ => 0)
  }

  /** handleMessage (server.go): runs after a rule launched for `msg`; `ans` is what its
      handler returned. A request is answered on the sender's connection; a failed write
      is ignored. */
  method HandleMessage(msg: Msg, ans: Slice, conn: Conn) returns (after: Conn)
    requires |msg.name| <= MaxNameLen && |ans.Contents()| < Uint64Limit
    ensures after == if IsRequest(msg.meta) then Put(conn, Encode(Reply(msg, ans).value)) else conn
  {
    after := conn;
    if IsRequest(msg.meta) {
      var meta: byte := 0;
      if ans.Bytes? {
        meta := MsgWithBody;
      }
      var id := PadId(msg.id);
      var err;
      after, err := WriteMsg(conn, id, meta, msg.name, ans);
    }
  }

  /** A request that arrived through the reader is answered under its own id and name,
      and, unless the answer is an empty non-nil slice, the sender's reader gets the answer
      back as it was returned. */
  lemma ReplyDelivered(msg: Msg, ans: Slice, author: seq<byte>)
    requires msg.id.Bytes? && |msg.id.data| == IdLen && IsRequest(msg.meta)
    requires |msg.name| <= MaxNameLen && |ans.Contents()| < Uint64Limit && ans != Bytes([])
    requires ans.Bytes? ==> 0 < |msg.name|
    ensures var f := Reply(msg, ans).value;
      && Decode(Encode(f), author).msgs == [Msg(msg.id, author, f.meta, msg.name, ans)]
      && !IsRequest(f.meta) && HasBody(f.meta) == ans.Bytes?
  {
    var f := Reply(msg, ans).value;
    OutgoingRoundTrips(PadId(msg.id), false, msg.name, ans);
    DecodeEncoded(f, author);
  }

  /** The registry after cleanup: the entry with the id goes; when there is none, the last
      entry goes instead (the scan's index is left at the last position). */
  function Removed(clients: seq<ConnectedClient>, id: seq<byte>): (r: seq<ConnectedClient>)
    requires |clients| > 0
    ensures |r| == |clients| - 1
  {
    var k := IndexOfId(clients, id);
    var j := if k < |clients| then k else |clients| - 1;
    clients[..j] + clients[j + 1..]
  }

  /** Cleanup undoes accept: a client accepted under an id no other client had is removed,
      and the rest of the registry is as it was, in order. */
  lemma AcceptThenRemove(clients: seq<ConnectedClient>, c: ConnectedClient)
    requires forall j :: 0 <= j < |clients| ==> clients[j].id != c.id
    ensures Removed(clients + [c], c.id) == clients
  {
    var all := clients + [c];
    var k := IndexOfId(all, c.id);
    assert all[|clients|] == c;
    assert k == |clients|;
    assert all[..k] == clients;
  }

  /** Cleanup removes the first entry with the id and keeps every other one in order; for
      an id no entry has, it drops the last entry. */
  lemma RemovedEntries(clients: seq<ConnectedClient>, id: seq<byte>)
    requires |clients| > 0
    ensures var r, k := Removed(clients, id), IndexOfId(clients, id);
      var gone := if k < |clients| then k else |clients| - 1;
      && (k < |clients| ==> clients[gone].id == id)
      && (forall j :: 0 <= j < |r| ==> r[j] == clients[if j < gone then j else j + 1])
  {
  }

  class Server {
    var clients: seq<ConnectedClient>
    var rules: seq<Rule>

    /** `Server{}`: no clients, no rules. */
    constructor()
      ensures clients == [] && rules == []
    {
      clients := [];
      rules := [];
    }

    /** Listen (server.go) up to the accept loop: the address picks the socket type; when
        the listener can be set up (`listenerOk`, standing for `setupListener`), the
        handshake rule is appended. */
    method Listen(address: seq<byte>, listenerOk: bool) returns (connType: ConnType, err: Option<Error>)
      modifies this
      ensures connType == ConnTypeOf(address) && clients == old(clients)
      ensures err.None? <==> listenerOk
      ensures listenerOk ==> rules == old(rules) + [Rule(Handshake, false, false, Nil, HandshakeName, [])]
      ensures !listenerOk ==> rules == old(rules)
    {
      if HasPrefix(address, Str("/")) && HasSuffix(address, Str(".sock")) {
        connType := Unix;
      } else {
        connType := Tcp;
      }
      if !listenerOk {
        return connType, Some(ListenFailed);
      }
      rules := rules + [Rule(Handshake, false, false, Nil, HandshakeName, [])];
      err := None;
    }

    /** On (server.go): appends a persistent rule with author and name filters. */
    method On(clientName: seq<byte>, msgName: seq<byte>, handler: Handler)
      modifies this
      ensures rules == old(rules) + [Rule(handler, false, false, Nil, msgName, clientName)]
      ensures clients == old(clients)
    {
      rules := rules + [Rule(handler, false, false, Nil, msgName, clientName)];
    }

    /** Once (server.go): appends a one-shot rule with author and name filters. */
    method Once(clientName: seq<byte>, msgName: seq<byte>, handler: Handler)
      modifies this
      ensures rules == old(rules) + [Rule(handler, true, false, Nil, msgName, clientName)]
      ensures clients == old(clients)
    {
      rules := rules + [Rule(handler, true, false, Nil, msgName, clientName)];
    }

    /** Broadcast (server.go): writes to every client in registry order, stopping at the
        first failed write. `ids[i]` is the fresh id of the write to client `i`. */
    method Broadcast(msgName: seq<byte>, body: Slice, ids: seq<Id12>) returns (err: Option<Error>)
      requires |ids| >= |clients| && |msgName| <= MaxNameLen && |body.Contents()| < Uint64Limit
      modifies this
      ensures rules == old(rules)
      ensures var k := FirstFailure(old(clients), None);
        && (err.None? <==> k == |old(clients)|)
        && clients == Fanout(old(clients), None, ids, msgName, body, k)
    {
      err := WriteAll(None, msgName, body, ids);
    }

    /** Send (server.go): writes to every client with the name, stopping at the first failed
        write. */
    method Send(clientName: seq<byte>, msgName: seq<byte>, body: Slice, ids: seq<Id12>)
      returns (err: Option<Error>)
      requires |ids| >= |clients| && |msgName| <= MaxNameLen && |body.Contents()| < Uint64Limit
      modifies this
      ensures rules == old(rules)
      ensures var k := FirstFailure(old(clients), Some(clientName));
        && (err.None? <==> k == |old(clients)|)
        && clients == Fanout(old(clients), Some(clientName), ids, msgName, body, k)
    {
      err := WriteAll(Some(clientName), msgName, body, ids);
    }

    /** The loop `Broadcast` and `Send` share. */
    method WriteAll(target: Option<seq<byte>>, msgName: seq<byte>, body: Slice, ids: seq<Id12>)
      returns (err: Option<Error>)
      requires |ids| >= |clients| && |msgName| <= MaxNameLen && |body.Contents()| < Uint64Limit
      modifies this
      ensures rules == old(rules)
      ensures var k := FirstFailure(old(clients), target);
        && (err.None? <==> k == |old(clients)|)
        && clients == Fanout(old(clients), target, ids, msgName, body, k)
    {
      var start := clients;
      var cs := clients;
      var i := 0;
      while i < |cs|
        invariant |cs| == |start| && i <= |cs| && clients == start && rules == old(rules)
        invariant i <= FirstFailure(start, target)
        invariant cs == Fanout(start, target, ids, msgName, body, i)
      {
        var c := cs[i];
        if Addressed(c, target) {
          var meta := Flags(false, body.Bytes?);
          var after, e := WriteMsg(c.conn, ids[i], meta, msgName, body);
          if e.Some? {
            clients := cs;
            return e;
          }
          cs := cs[i := c.(conn := after)];
        }
        FanoutStep(start, target, ids, msgName, body, i);
        i := i + 1;
      }
      clients := cs;
      err := None;
    }

    /** Disconnect (server.go): closes the connection of the first client whose id or name
        is `client`; the entry stays in the registry until the reader's cleanup. */
    method Disconnect(client: seq<byte>) returns (err: Option<Error>)
      modifies this
      ensures rules == old(rules)
      ensures var k := IndexOfIdOrName(old(clients), client);
        if k == |old(clients)| then clients == old(clients) && err.None?
        else
          var closed := Close(old(clients)[k].conn);
          clients == old(clients)[k := old(clients)[k].(conn := closed.0)] && err == closed.1
    {
      var i := 0;
      while i < |clients|
        invariant i <= |clients| && forall j :: 0 <= j < i ==> clients[j].id != client && clients[j].name != client
      {
        if clients[i].id == client || clients[i].name == client {
          var closed := Close(clients[i].conn);
          clients := clients[i := clients[i].(conn := closed.0)];
          return closed.1;
        }
        i := i + 1;
      }
      err := None;
    }

    /** handshakeHandler (server.go): the handshake body becomes the name of the client
        whose id is the message's author, and that id is the answer. With no such client,
        nothing is renamed and the last client's id is answered; an empty registry makes
        the source index out of range, which the precondition excludes. */
    method HandshakeHandler(msg: Msg) returns (ans: Slice)
      requires |clients| > 0
      modifies this
      ensures rules == old(rules)
      ensures var k := IndexOfId(old(clients), msg.author);
        if k < |old(clients)|
        then clients == old(clients)[k := old(clients)[k].(name := msg.body.Contents())]
             && ans == Bytes(msg.author)
        else clients == old(clients) && ans == Bytes(old(clients)[|old(clients)| - 1].id)
    {
      var i := 0;
      while i < |clients| - 1 && clients[i].id != msg.author
        invariant i < |clients| && forall j :: 0 <= j < i ==> clients[j].id != msg.author
      {
        i := i + 1;
      }
      if clients[i].id == msg.author {
        clients := clients[i := clients[i].(name := msg.body.Contents())];
      }
      ans := Bytes(clients[i].id);
    }

    /** The registry append of handleClients (server.go): an accepted connection is stored
        under a fresh UID, with no name yet, after the existing entries. */
    method Accept(conn: Conn, ns: uint64, rd: uint64) returns (clientID: seq<byte>)
      modifies this
      ensures clientID == Uid(ns, rd)
      ensures clients == old(clients) + [ConnectedClient(clientID, [], conn)]
      ensures rules == old(rules)
    {
      clientID := UID(ns, rd);
      clients := clients + [ConnectedClient(clientID, [], conn)];
    }

    /** The rule scan of handleMessages (server.go) for one message: returns the indices of
        the launched rules and marks the matching one-shot rules called. */
    method Dispatch(msg: Msg) returns (launched: seq<nat>)
      modifies this
      ensures clients == old(clients)
      ensures var hits := ServerHits(old(rules), msg, clients);
        launched == Launches(old(rules), hits) && rules == Mark(old(rules), hits)
    {
      var start := rules;
      var rs := rules;
      ghost var hits := ServerHits(start, msg, clients);
      launched := [];
      var i := 0;
      while i < |rs|
        invariant |rs| == |start| && i <= |rs| && clients == old(clients)
        invariant forall j :: 0 <= j < |rs| ==>
          rs[j] == if j < i && hits[j] && start[j].once then start[j].(called := true) else start[j]
        invariant launched == Launches(start[..i], hits[..i])
      {
        var r := rs[i];
        var matched := Matches(r, msg);
        if matched {
          if r.once {
            if !r.called {
              launched := launched + [i];
              rs := rs[i := r.(called := true)];
            }
          } else {
            launched := launched + [i];
          }
        }
        assert start[..i + 1][..i] == start[..i] && hits[..i + 1][..i] == hits[..i];
        i := i + 1;
      }
      assert start[..i] == start && hits[..i] == hits;
      rules := rs;
    }

    /** The filters of one rule against one message, as the scan tests them. */
    method Matches(r: Rule, msg: Msg) returns (matched: bool)
      ensures matched == ServerMatch(r, msg, clients)
    {
      matched := true;
      if r.msgID.Bytes? {
        var eq := BinEq(r.msgID, msg.id);
        matched := matched && eq;
      }
      if r.msgName != [] {
        matched := matched && r.msgName == msg.name;
      }
      if r.msgAuthor != [] {
        var i := 0;
        while i < |clients|
          invariant i <= |clients| && forall j :: 0 <= j < i ==> clients[j].id != msg.author
        {
          if clients[i].id == msg.author {
            matched := matched && r.msgAuthor == clients[i].name;
            break;
          }
          i := i + 1;
        }
      }
    }

    /** Cleanup at the end of handleMessages (server.go). An empty registry makes the
        source index out of range, which the precondition excludes. */
    method RemoveClient(clientID: seq<byte>)
      requires |clients| > 0
      modifies this
      ensures clients == Removed(old(clients), clientID) && rules == old(rules)
    {
      var i := 0;
      while i < |clients| - 1 && clients[i].id != clientID
        invariant i < |clients| && forall j :: 0 <= j < i ==> clients[j].id != clientID
      {
        i := i + 1;
      }
      clients := clients[..i] + clients[i + 1..];
    }

    /** handleMessages (server.go): every message read from the client's connection, the
        closing disconnect message included, is scanned against the rules in turn; then
        the client is removed from the registry. */
    method HandleMessages(clientID: seq<byte>, chunks: seq<seq<byte>>) returns (launches: seq<seq<nat>>)
      requires |clients| > 0
      modifies this
      ensures var msgs := Decode(Reader.Flatten(chunks), clientID).msgs + [DisconnectMsg(clientID)];
        var d := DispatchAll(old(rules), ServerRows(old(rules), msgs, old(clients)));
        && launches == d.launches && rules == d.rules
        && clients == Removed(old(clients), clientID)
    {
      var keep: Msg -> bool := _ => true;
      var msgs := Reader.ReadStream(clientID, chunks, keep);
      Reader.KeepAllDeliversAll(clientID, Reader.Flatten(chunks), keep);
      ghost var start := rules;
      ghost var rows := ServerRows(start, msgs, clients);
      launches := [];
      for j := 0 to |msgs|
        invariant clients == old(clients) && |clients| > 0
        invariant DispatchAll(start, rows[..j]) == Dispatched(launches, rules)
      {
        ServerDispatchNext(start, msgs, clients, j, launches, rules);
        var launched := Dispatch(msgs[j]);
        launches := launches + [launched];
      }
      assert rows[..|msgs|] == rows;
      RemoveClient(clientID);
    }
  }
}
