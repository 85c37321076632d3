/** Connections as the library sees them, and `writeMsg` (utils.go), which lays a frame out
    in a buffer field by field and hands it to the connection in one write. */
module Transport {
  import opened Base
  import opened Messages
  import opened Codec
  import opened Ids

  /** A connection: the bytes written to it so far, whether the peer side has failed, and
      whether it has been closed. The socket behind it is not part of this model. */
  datatype Conn = Conn(sent: seq<byte>, broken: bool, closed: bool)

  /** A write succeeds on a connection that is neither broken nor closed. */
  predicate Writable(c: Conn) {
    !c.broken && !c.closed
  }

  /** A write of `bytes`: appended on a writable connection, nothing otherwise. */
  function Put(c: Conn, bytes: seq<byte>): (r: Conn)
    ensures r.broken == c.broken && r.closed == c.closed
    ensures Writable(c) ==> r.sent == c.sent + bytes
    ensures !Writable(c) ==> r.sent == c.sent
  {
    if Writable(c) then c.(sent := c.sent + bytes) else c
  }

  /** The errors the core returns: a listener that cannot be set up, a failed write, a
      failed close, and `ErrDisconnected`. */
  datatype Error = ListenFailed | WriteFailed | CloseFailed | Disconnected

  /** The frame a sender writes for a message it originates: the request flag as asked,
      HAS_BODY exactly when the body is not nil. */
  function Outgoing(id: Id12, request: bool, name: seq<byte>, body: Slice): (f: Frame)
    requires |name| <= MaxNameLen && |body.Contents()| < Uint64Limit
    ensures Encodable(f) && f.body == body.Contents()
    ensures IsRequest(f.meta) == request && HasBody(f.meta) == body.Bytes?
  {
    Frame(id, Flags(request, body.Bytes?), name, body.Contents())
  }

  /** Which outgoing messages the receiving reader gets back unchanged: all but an empty
      non-nil body (flagged but written without a length field) and a body under an empty
      name (the reader never reads its length). */
  lemma OutgoingRoundTrips(id: Id12, request: bool, name: seq<byte>, body: Slice)
    requires |name| <= MaxNameLen && |body.Contents()| < Uint64Limit
    ensures RoundTrips(Outgoing(id, request, name, body)) <==>
              body != Bytes([]) && (body.Bytes? ==> name != [])
  {
  }

  /** writeMsg (utils.go). A name over 255 bytes stops the process, which the precondition
      stands for. On a failed write nothing reaches the connection. */
  method WriteMsg(conn: Conn, id: Id12, meta: byte, name: seq<byte>, body: Slice)
    returns (after: Conn, err: Option<Error>)
    requires |name| <= MaxNameLen && |body.Contents()| < Uint64Limit
    ensures err.None? <==> Writable(conn)
    ensures after == Put(conn, Encode(Frame(id, meta, name, body.Contents())))
  {
    var data := body.Contents();
    var msgBuff: seq<byte> := [];
    msgBuff := msgBuff + id;
    msgBuff := msgBuff + [meta];
    msgBuff := msgBuff + [|name| as byte];
    msgBuff := msgBuff + name;
    if |data| > 0 {
      msgBuff := msgBuff + BigEndian(|data|, LenWidth);
      msgBuff := msgBuff + data;
    }
    assert msgBuff == Encode(Frame(id, meta, name, data));
    if !Writable(conn) {
      return conn, Some(WriteFailed);
    }
    return conn.(sent := conn.sent + msgBuff), None;
  }

  /** What a successful write of an outgoing message puts on the wire reaches the reader on
      the other side as the same message, whatever was written before it. */
  lemma {:induction false} DeliveredAfter(sent: seq<byte>, id: Id12, request: bool, name: seq<byte>,
                                          body: Slice, author: seq<byte>)
    requires |name| <= MaxNameLen && |body.Contents()| < Uint64Limit
    requires body != Bytes([]) && (body.Bytes? ==> name != [])
    requires Decode(sent, author).rest == []
    ensures var f := Outgoing(id, request, name, body);
      Decode(sent + Encode(f), author).msgs
        == Decode(sent, author).msgs + [Msg(Bytes(id), author, f.meta, name, body)]
  {
    var f := Outgoing(id, request, name, body);
    OutgoingRoundTrips(id, request, name, body);
    DecodeResume(sent, Encode(f), author);
    DecodeEncoded(f, author);
    assert Decode(sent, author).rest + Encode(f) == Encode(f);
  }

  /** `Close` on a connection: closing twice is an error. */
  function Close(c: Conn): (r: (Conn, Option<Error>))
    ensures r.0.closed && r.0.sent == c.sent && r.0.broken == c.broken
    ensures r.1.Some? <==> c.closed
  {
    if c.closed then (c, Some(CloseFailed)) else (c.(closed := true), None)
  }
}
