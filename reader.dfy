/** The stream reader (utils.go `readStream`): a resumable parser fed one read at a time. It
    keeps the bytes not yet consumed and a cursor per frame field in local variables, hands
    every completed message to a handler, stops when the handler answers false, and after a
    read error hands over one synthetic "disconnect" message. */
module Reader {
  import opened Base
  import opened Messages
  import opened Codec

  /** The messages a handler has been given and whether it asked to stop. */
  datatype Delivery = Delivery(handled: seq<Msg>, stopped: bool)

  /** Messages are handed over in order until the handler answers false; that message is
      the last one handed over. */
  function Deliver(ms: seq<Msg>, keep: Msg -> bool): Delivery
  {
    if ms == [] then Delivery([], false)
    else if !keep(ms[0]) then Delivery([ms[0]], true)
    else
      var d := Deliver(ms[1..], keep);
      Delivery([ms[0]] + d.handled, d.stopped)
  }

  /** The handler sees a prefix of the messages, and all of them unless it refuses one. */
  lemma {:induction false} DeliverPrefix(ms: seq<Msg>, keep: Msg -> bool)
    ensures var d := Deliver(ms, keep);
      |d.handled| <= |ms| && d.handled == ms[..|d.handled|] && (!d.stopped ==> d.handled == ms)
  {
    if ms != [] && keep(ms[0]) {
      var t := ms[1..];
      DeliverPrefix(t, keep);
      var d := Deliver(t, keep);
      assert [ms[0]] + t[..|d.handled|] == ms[..|d.handled| + 1];
    }
  }

  /** The handler is stopped exactly when it refuses one of the messages; the last message
      it sees is then the first it refuses, and it accepted every one before. */
  lemma {:induction false} DeliverStopsAtFirstRefusal(ms: seq<Msg>, keep: Msg -> bool)
    ensures var d := Deliver(ms, keep);
      && (d.stopped <==> exists k :: 0 <= k < |ms| && !keep(ms[k]))
      && (d.stopped ==> |d.handled| > 0 && !keep(d.handled[|d.handled| - 1]))
      && forall k :: 0 <= k < |d.handled| - 1 ==> keep(d.handled[k])
  {
    if ms != [] && keep(ms[0]) {
      var t := ms[1..];
      DeliverStopsAtFirstRefusal(t, keep);
      var d := Deliver(t, keep);
      if d.stopped {
        var k :| 0 <= k < |t| && !keep(t[k]);
        assert ms[k + 1] == t[k];
      } else {
        forall k | 0 <= k < |ms|
          ensures keep(ms[k])
        {
          if k > 0 {
            assert ms[k] == t[k - 1];
          }
        }
      }
      var h := [ms[0]] + d.handled;
      forall k | 0 <= k < |h| - 1
        ensures keep(h[k])
      {
        if k > 0 {
          assert h[k] == d.handled[k - 1];
        }
      }
    }
  }

  /** Handing over `xs` and then `ys` is handing over `xs + ys`. */
  lemma {:induction false} DeliverAppend(xs: seq<Msg>, ys: seq<Msg>, keep: Msg -> bool)
    ensures var dx, dy := Deliver(xs, keep), Deliver(ys, keep);
      Deliver(xs + ys, keep) == if dx.stopped then dx else Delivery(dx.handled + dy.handled, dy.stopped)
  {
    if xs != [] {
      assert (xs + ys)[0] == xs[0];
      assert (xs + ys)[1..] == xs[1..] + ys;
      DeliverAppend(xs[1..], ys, keep);
      if keep(xs[0]) {
        var dx1, dy := Deliver(xs[1..], keep), Deliver(ys, keep);
        assert [xs[0]] + (dx1.handled + dy.handled) == ([xs[0]] + dx1.handled) + dy.handled;
      }
    } else {
      assert xs + ys == ys;
      assert Deliver(xs, keep).handled + Deliver(ys, keep).handled == Deliver(ys, keep).handled;
    }
  }

  /** All the bytes of a sequence of reads, in order. */
  function Flatten(chunks: seq<seq<byte>>): (bytes: seq<byte>)
    ensures chunks == [] ==> bytes == []
  {
    if chunks == [] then [] else Flatten(chunks[..|chunks| - 1]) + chunks[|chunks| - 1]
  }

  /** Handing over the messages of a buffer that starts with a complete frame is handing
      over that frame's message and then the messages of the bytes behind it. */
  lemma DeliverNext(b: seq<byte>, author: seq<byte>, keep: Msg -> bool)
    requires ParseFrame(b, author).Some?
    ensures var p := ParseFrame(b, author).value;
      var dr := Deliver(Decode(b[p.size..], author).msgs, keep);
      && Deliver(Decode(b, author).msgs, keep)
         == (if keep(p.msg) then Delivery([p.msg] + dr.handled, dr.stopped) else Delivery([p.msg], true))
      && Decode(b, author).rest == Decode(b[p.size..], author).rest
  {
    var p := ParseFrame(b, author).value;
    var ms := Decode(b[p.size..], author).msgs;
    assert Decode(b, author).msgs == [p.msg] + ms;
    assert ([p.msg] + ms)[0] == p.msg && ([p.msg] + ms)[1..] == ms;
  }

  /** Of the messages in `total`, those already handed over are `handled`, and the rest are
      those the unconsumed bytes `b` decode to. */
  ghost predicate Progress(total: Decoded, handled: seq<Msg>, b: seq<byte>, author: seq<byte>, keep: Msg -> bool) {
    var d := Deliver(Decode(b, author).msgs, keep);
    Deliver(total.msgs, keep) == Delivery(handled + d.handled, d.stopped) && Decode(b, author).rest == total.rest
  }

  /** Handing over the frame at the head of `b` moves it from the unconsumed bytes to the
      handled messages, or ends the delivery when the handler refuses it. */
  lemma ProgressNext(total: Decoded, handled: seq<Msg>, b: seq<byte>, author: seq<byte>, keep: Msg -> bool)
    requires Progress(total, handled, b, author, keep) && ParseFrame(b, author).Some?
    ensures var p := ParseFrame(b, author).value;
      if keep(p.msg) then Progress(total, handled + [p.msg], b[p.size..], author, keep)
      else Deliver(total.msgs, keep) == Delivery(handled + [p.msg], true)
  {
    var p := ParseFrame(b, author).value;
    DeliverNext(b, author, keep);
    var dr := Deliver(Decode(b[p.size..], author).msgs, keep);
    if keep(p.msg) {
      Regroup(handled, p.msg, dr.handled);
    }
  }

  /** `ProgressNext` for the frame the cursors have found complete. */
  lemma FrameDelivered(total: Decoded, handled: seq<Msg>, b: seq<byte>, c: Cursors, author: seq<byte>,
                       keep: Msg -> bool)
    requires Tracks(c, b, |b|) && c.msgEnd > 0 && |b| >= c.msgEnd
    requires Progress(total, handled, b, author, keep)
    ensures var msg := Msg(c.id, author, c.meta, c.name, c.body);
      if keep(msg) then Progress(total, handled + [msg], b[c.msgEnd..], author, keep)
      else Deliver(total.msgs, keep) == Delivery(handled + [msg], true)
  {
    CursorsComplete(c, b, author);
    ProgressNext(total, handled, b, author, keep);
  }

  /** `ProgressDone` for cursors that have found no complete frame in the buffer. */
  lemma Exhausted(total: Decoded, handled: seq<Msg>, b: seq<byte>, c: Cursors, author: seq<byte>,
                  keep: Msg -> bool)
    requires Tracks(c, b, |b|) && !(c.msgEnd > 0 && |b| >= c.msgEnd)
    requires Progress(total, handled, b, author, keep)
    ensures Waiting(author, b, c) && Deliver(total.msgs, keep) == Delivery(handled, false) && b == total.rest
  {
    CursorsComplete(c, b, author);
    ProgressDone(total, handled, b, author, keep);
  }

  lemma Regroup(xs: seq<Msg>, m: Msg, ys: seq<Msg>)
    ensures xs + ([m] + ys) == (xs + [m]) + ys
  {
  }

  /** When no frame is complete in the unconsumed bytes, everything has been handed over and
      those bytes are the decoder's leftover. */
  lemma ProgressDone(total: Decoded, handled: seq<Msg>, b: seq<byte>, author: seq<byte>, keep: Msg -> bool)
    requires Progress(total, handled, b, author, keep) && ParseFrame(b, author).None?
    ensures Deliver(total.msgs, keep) == Delivery(handled, false) && b == total.rest
  {
    assert handled + [] == handled;
  }

  /** What `readStream` hands its handler when the connection delivers `bytes` and then fails:
      the decoded messages up to and including the first the handler refuses, or, if it
      refuses none, all of them followed by the disconnect message. */
  function ReadStreamSpec(author: seq<byte>, bytes: seq<byte>, keep: Msg -> bool): (handled: seq<Msg>)
  {
    var d := Deliver(Decode(bytes, author).msgs, keep);
    if d.stopped then d.handled else d.handled + [DisconnectMsg(author)]
  }

  /** The reader's per-field local variables, kept together as one value. */
  datatype Cursors = Cursors(id: Slice, meta: byte, withBody: bool, nameLen: nat, name: seq<byte>,
                             nameEnd: nat, bodyStart: nat, bodyEnd: nat, bodyLen: nat, body: Slice,
                             msgEnd: nat)

  /** What the field steps hold once they have seen the first `n` bytes of the current
      frame `b`: each field is read as soon as enough bytes are there; `withBody` is left
      over from the previous frame until the meta byte arrives, and `msgEnd` stays 0 while
      the end of the frame is unknown (it never becomes known for HAS_BODY with an empty
      name). */
  predicate Tracks(c: Cursors, b: seq<byte>, n: nat)
    requires n <= |b|
  {
    HeaderRead(c, b, n) && PayloadRead(c, b, n)
  }

  /** Name, body length, body and end of frame. */
  predicate PayloadRead(c: Cursors, b: seq<byte>, n: nat)
    requires n <= |b|
  {
    NameRead(c, b, n) && LengthRead(c, b, n) && BodyRead(c, b, n) && EndKnown(c, b, n)
  }

  /** Id, meta (with its HAS_BODY flag) and name length. */
  predicate HeaderRead(c: Cursors, b: seq<byte>, n: nat)
    requires n <= |b|
  {
    && c.id == (if n >= 12 then Bytes(b[..12]) else Nil)
    && c.meta == (if n >= 13 then b[12] else 0)
    && (n >= 13 ==> c.withBody == HasBody(b[12]))
    && c.nameLen == (if n >= 14 then b[13] as nat else 0)
    && (n >= 14 ==> c.nameEnd == HeaderLen + c.nameLen)
  }

  predicate NameRead(c: Cursors, b: seq<byte>, n: nat)
    requires n <= |b|
  {
    c.name == (if 0 < c.nameLen && HeaderLen <= c.nameEnd <= n then b[HeaderLen..c.nameEnd] else [])
  }

  /** The body-length field is read once the name is non-empty and the field has arrived. */
  predicate LengthKnown(c: Cursors, n: nat) {
    c.withBody && 0 < c.nameLen && c.nameEnd + LenWidth <= n
  }

  predicate LengthRead(c: Cursors, b: seq<byte>, n: nat)
    requires n <= |b|
  {
    && c.bodyLen == (if LengthKnown(c, n) then FromBigEndian(b[c.nameEnd..c.nameEnd + LenWidth]) else 0)
    && (LengthKnown(c, n) ==> c.bodyStart == c.nameEnd + LenWidth && c.bodyEnd == c.bodyStart + c.bodyLen)
  }

  predicate BodyRead(c: Cursors, b: seq<byte>, n: nat)
    requires n <= |b|
  {
    c.body == (if c.withBody && 0 < c.bodyLen && c.bodyStart <= c.bodyEnd <= n then Bytes(b[c.bodyStart..c.bodyEnd]) else Nil)
  }

  predicate EndKnown(c: Cursors, b: seq<byte>, n: nat)
    requires n <= |b|
  {
    c.msgEnd == (if n >= 14 && !c.withBody then c.nameEnd else if LengthKnown(c, n) then c.bodyEnd else 0)
  }

  /** The reader's completeness test `msgEnd > 0 && readLen >= msgEnd` holds exactly when a
      frame is complete at the head of the buffer, and the cursors then hold that frame. */
  lemma {:induction false} CursorsComplete(c: Cursors, b: seq<byte>, author: seq<byte>)
    requires Tracks(c, b, |b|)
    ensures (c.msgEnd > 0 && |b| >= c.msgEnd) <==> ParseFrame(b, author).Some?
    ensures ParseFrame(b, author).Some? ==>
              ParseFrame(b, author).value == Parsed(Msg(c.id, author, c.meta, c.name, c.body), c.msgEnd)
  {
    if |b| >= HeaderLen && !HasBody(b[12]) && c.nameLen == 0 {
      assert b[HeaderLen..c.nameEnd] == [];
    }
  }

  /** Bytes arriving behind the current frame do not change what its first bytes showed. */
  lemma TracksExtend(c: Cursors, a: seq<byte>, x: seq<byte>)
    requires Tracks(c, a, |a|)
    ensures Tracks(c, a + x, |a|)
  {
    var b := a + x;
    assert |a| >= IdLen ==> b[..IdLen] == a[..IdLen];
    if 0 < c.nameLen && HeaderLen <= c.nameEnd <= |a| {
      assert b[HeaderLen..c.nameEnd] == a[HeaderLen..c.nameEnd];
    }
    if LengthKnown(c, |a|) {
      assert b[c.nameEnd..c.nameEnd + LenWidth] == a[c.nameEnd..c.nameEnd + LenWidth];
    }
    if c.withBody && 0 < c.bodyLen && c.bodyStart <= c.bodyEnd <= |a| {
      assert b[c.bodyStart..c.bodyEnd] == a[c.bodyStart..c.bodyEnd];
    }
  }

  /** After the cleanup that follows a delivered message, the cursors hold what no byte of
      the next frame shows. */
  lemma CleanedTracks(c: Cursors, b: seq<byte>)
    requires c.id == Nil && c.meta == 0 && c.nameLen == 0 && c.bodyLen == 0 && c.name == []
    requires c.body == Nil && c.msgEnd == 0
    ensures Tracks(c, b, 0)
  {
  }

  /** The cursors before any byte of a frame has arrived. */
  const Fresh := Cursors(Nil, 0, false, 0, [], 0, 0, 0, 0, Nil, 0)

  /** Between reads: the cursors hold what the leftover bytes show, and no complete frame is
      waiting in them. */
  predicate Waiting(clientID: seq<byte>, msgBuff: seq<byte>, cur: Cursors) {
    Tracks(cur, msgBuff, |msgBuff|) && ParseFrame(msgBuff, clientID).None?
  }

  /** The Id, Meta and Name-length steps of one pass: each of these cursors still unset is
      read once enough bytes (`readLen`, always `len(msgBuff)`) have arrived; the end of a
      frame without HAS_BODY is known as soon as its name length is. `seen` is how many bytes
      the cursors had seen before; `mid` is how many they now account for in the later
      fields. */
  method ReadHeader(msgBuff: seq<byte>, cur0: Cursors, ghost seen: nat) returns (cur: Cursors, ghost mid: nat)
    requires seen <= |msgBuff| && Tracks(cur0, msgBuff, seen)
    ensures mid <= |msgBuff| && (HeaderLen <= mid || |msgBuff| < HeaderLen)
    ensures HeaderRead(cur, msgBuff, |msgBuff|) && PayloadRead(cur, msgBuff, mid)
  {
    mid := if seen < HeaderLen <= |msgBuff| then HeaderLen else seen;
    cur := cur0;
    var readLen := |msgBuff|;
    // Id
    if cur.id == Nil && readLen >= IdLen {
      cur := cur.(id := Bytes(msgBuff[..IdLen]));
    }
    // Meta
    if cur.meta == 0 && readLen >= 13 {
      cur := cur.(meta := msgBuff[12], withBody := HasBody(msgBuff[12]));
    }
    // Name length
    if cur.nameLen == 0 && readLen >= HeaderLen {
      cur := cur.(nameLen := msgBuff[13] as nat, nameEnd := HeaderLen + msgBuff[13] as nat);
      if !cur.withBody {
        cur := cur.(msgEnd := cur.nameEnd);
      }
    }
  }

  /** The Name, Body-length and Body steps of one pass. The body length is read only when
      HAS_BODY is set and the name is non-empty, and then fixes the end of the frame. */
  method ReadPayload(msgBuff: seq<byte>, cur0: Cursors, ghost mid: nat) returns (cur: Cursors)
    requires mid <= |msgBuff| && (HeaderLen <= mid || |msgBuff| < HeaderLen)
    requires HeaderRead(cur0, msgBuff, |msgBuff|) && PayloadRead(cur0, msgBuff, mid)
    ensures Tracks(cur, msgBuff, |msgBuff|)
  {
    cur := cur0;
    var readLen := |msgBuff|;
    // Name
    if cur.nameLen > 0 && readLen >= cur.nameEnd {
      cur := cur.(name := msgBuff[HeaderLen..cur.nameEnd]);
    }
    // Body length
    if cur.withBody && cur.nameLen > 0 && cur.bodyLen == 0 && readLen >= cur.nameEnd + LenWidth {
      var bodyLen := FromBigEndian(msgBuff[cur.nameEnd..cur.nameEnd + LenWidth]);
      var bodyStart := cur.nameEnd + LenWidth;
      cur := cur.(bodyLen := bodyLen, bodyStart := bodyStart, bodyEnd := bodyStart + bodyLen,
                  msgEnd := bodyStart + bodyLen);
    }
    // Body
    if cur.withBody && cur.bodyLen > 0 && readLen >= cur.bodyEnd {
      cur := cur.(body := Bytes(msgBuff[cur.bodyStart..cur.bodyEnd]));
    }
  }

  /** The parser state `readStream` keeps across reads: the bytes received and not yet
      consumed, their count, and the cursors of the frame in progress. */
  class StreamReader {
    /** The client id written into every message as its author. */
    const clientID: seq<byte>
    var msgBuff: seq<byte>
    var readLen: nat
    var cur: Cursors

    /** Between reads: `readLen` is the buffer's length, the cursors hold what the buffer
        shows, and no complete frame is waiting in it. */
    ghost predicate Valid()
      reads this
    {
      readLen == |msgBuff| && Waiting(clientID, msgBuff, cur)
    }

    constructor (clientID: seq<byte>)
      ensures Valid() && this.clientID == clientID && msgBuff == []
    {
      this.clientID := clientID;
      msgBuff, readLen, cur := [], 0, Fresh;
    }

    /** One successful read: append the chunk and hand over every frame it completes, in
        order, until the handler answers false. What is handed over is what the whole-buffer
        decoder finds in the old leftover followed by the chunk; when the handler never
        refuses, the new leftover is the decoder's. */
    method Feed(chunk: seq<byte>, keep: Msg -> bool) returns (handled: seq<Msg>, stopped: bool)
      requires Valid()
      modifies this
      ensures var d := Decode(old(msgBuff) + chunk, clientID);
        Delivery(handled, stopped) == Deliver(d.msgs, keep)
        && (!stopped ==> Valid() && msgBuff == d.rest)
    {
      ghost var seen := |msgBuff|;
      TracksExtend(cur, msgBuff, chunk);
      msgBuff := msgBuff + chunk;
      readLen := readLen + |chunk|;
      handled, stopped, msgBuff, readLen, cur := Drain(clientID, msgBuff, readLen, cur, seen, keep);
    }
  }

  /** The cleanup after a delivered message: reset the cursors and drop the frame's bytes;
      `last` says whether they were all the buffer held. */
  method Cleanup(buff: seq<byte>, len: nat, cur0: Cursors)
    returns (msgBuff: seq<byte>, readLen: nat, cur: Cursors, last: bool)
    requires len == |buff| && 0 < cur0.msgEnd <= len
    ensures msgBuff == buff[cur0.msgEnd..] && readLen == |msgBuff| && Tracks(cur, msgBuff, 0)
    ensures last <==> msgBuff == []
  {
    msgBuff, readLen := buff, len;
    cur := cur0.(id := Nil, meta := 0, nameLen := 0, bodyLen := 0, name := [], body := Nil);
    if readLen == cur.msgEnd {
      msgBuff := msgBuff[..0];
      readLen := 0;
      cur := cur.(msgEnd := 0);
      last := true;
    } else {
      msgBuff := msgBuff[cur.msgEnd..];
      readLen := readLen - cur.msgEnd;
      cur := cur.(msgEnd := 0);
      last := false;
    }
    CleanedTracks(cur, msgBuff);
  }

  /** The inner loop of `readStream`: while bytes are buffered, advance the cursors and, when
      a frame is complete, hand its message over, clean the cursors up and drop the frame's
      bytes. It hands over what the whole-buffer decoder finds, and leaves the decoder's
      leftover when the handler never refuses. */
  method Drain(clientID: seq<byte>, buff: seq<byte>, len: nat, cur0: Cursors, ghost seen0: nat, keep: Msg -> bool)
    returns (handled: seq<Msg>, stopped: bool, msgBuff: seq<byte>, readLen: nat, cur: Cursors)
    requires len == |buff| && seen0 <= |buff| && Tracks(cur0, buff, seen0)
    ensures var d := Decode(buff, clientID);
      Delivery(handled, stopped) == Deliver(d.msgs, keep)
      && (!stopped ==> readLen == |msgBuff| && Waiting(clientID, msgBuff, cur) && msgBuff == d.rest)
  {
    ghost var total := Decode(buff, clientID);
    ghost var seen: nat := seen0;
    msgBuff, readLen, cur := buff, len, cur0;
    handled, stopped := [], false;
    assert Progress(total, handled, msgBuff, clientID, keep);
    while |msgBuff| > 0
      invariant readLen == |msgBuff| && seen <= |msgBuff| && Tracks(cur, msgBuff, seen)
      invariant Progress(total, handled, msgBuff, clientID, keep)
      decreases |msgBuff|
    {
      ghost var mid;
      cur, mid := ReadHeader(msgBuff, cur, seen);
      cur := ReadPayload(msgBuff, cur, mid);
      // Full message
      if cur.msgEnd > 0 && readLen >= cur.msgEnd {
        var msg := Msg(cur.id, clientID, cur.meta, cur.name, cur.body);
        FrameDelivered(total, handled, msgBuff, cur, clientID, keep);
        handled := handled + [msg];
        if !keep(msg) {
          stopped := true;
          return;
        }
        var last;
        msgBuff, readLen, cur, last := Cleanup(msgBuff, readLen, cur);
        seen := 0;
        if last {
          break;
        }
      } else {
        seen := |msgBuff|;
        break;
      }
    }
    Exhausted(total, handled, msgBuff, cur, clientID, keep);
  }

  /** `readStream` over a connection whose reads return `chunks` and then fail: every
      completed frame goes to the handler in order, reading stops for good once the handler
      answers false, and otherwise the read error ends the loop with a disconnect message.
      The result depends on the bytes only, not on how the reads split them. */
  method ReadStream(clientID: seq<byte>, chunks: seq<seq<byte>>, keep: Msg -> bool)
    returns (handled: seq<Msg>)
    ensures handled == ReadStreamSpec(clientID, Flatten(chunks), keep)
  {
    var reader := new StreamReader(clientID);
    handled := [];
    var i := 0;
    while i < |chunks|
      invariant 0 <= i <= |chunks|
      invariant reader.Valid() && reader.clientID == clientID
      invariant ReadSoFar(clientID, chunks[..i], keep, handled, reader.msgBuff)
    {
      ghost var rest := reader.msgBuff;
      var more, stop := reader.Feed(chunks[i], keep);
      ReadNext(clientID, chunks, i, keep, handled, rest, more, stop, reader.msgBuff);
      handled := handled + more;
      if stop {
        return;
      }
      i := i + 1;
    }
    assert chunks[..i] == chunks;
    handled := handled + [DisconnectMsg(clientID)];
  }

  /** After the first reads of a stream, the handler has had `handled`, it has refused none
      of them, and `rest` is left unconsumed. */
  ghost predicate ReadSoFar(author: seq<byte>, chunks: seq<seq<byte>>, keep: Msg -> bool,
                            handled: seq<Msg>, rest: seq<byte>) {
    var d := Decode(Flatten(chunks), author);
    Deliver(d.msgs, keep) == Delivery(handled, false) && rest == d.rest
  }

  /** Feeding read `i` to a reader that holds the leftover of the reads before it either
      extends what has been handed over, or ends the stream's delivery for good. */
  lemma ReadNext(author: seq<byte>, chunks: seq<seq<byte>>, i: nat, keep: Msg -> bool,
                 handled: seq<Msg>, rest: seq<byte>, more: seq<Msg>, stop: bool, rest': seq<byte>)
    requires i < |chunks| && ReadSoFar(author, chunks[..i], keep, handled, rest)
    requires var d := Decode(rest + chunks[i], author);
      Delivery(more, stop) == Deliver(d.msgs, keep) && (!stop ==> rest' == d.rest)
    ensures !stop ==> ReadSoFar(author, chunks[..i + 1], keep, handled + more, rest')
    ensures stop ==> handled + more == ReadStreamSpec(author, Flatten(chunks), keep)
  {
    NextRead(chunks, i, author, keep);
    var now := Decode(Flatten(chunks[..i + 1]), author);
    assert Deliver(now.msgs, keep) == Delivery(handled + more, stop);
    if stop {
      StoppedAt(chunks, i + 1, author, keep);
    }
  }

  /** A handler that refused a message among the first `n` reads has been handed everything
      the whole stream hands it. */
  lemma StoppedAt(chunks: seq<seq<byte>>, n: nat, author: seq<byte>, keep: Msg -> bool)
    requires n <= |chunks| && Deliver(Decode(Flatten(chunks[..n]), author).msgs, keep).stopped
    ensures ReadStreamSpec(author, Flatten(chunks), keep)
            == Deliver(Decode(Flatten(chunks[..n]), author).msgs, keep).handled
  {
    assert chunks[..n] + chunks[n..] == chunks;
    StoppedStaysStopped(chunks[..n], chunks[n..], author, keep);
  }

  /** What the first `i + 1` reads hand over is what the first `i` reads hand over followed
      by what the leftover and read `i` decode to. */
  lemma NextRead(chunks: seq<seq<byte>>, i: nat, author: seq<byte>, keep: Msg -> bool)
    requires i < |chunks|
    ensures var before := Decode(Flatten(chunks[..i]), author);
      var after := Decode(before.rest + chunks[i], author);
      var now := Decode(Flatten(chunks[..i + 1]), author);
      var db, da := Deliver(before.msgs, keep), Deliver(after.msgs, keep);
      && now.rest == after.rest
      && Deliver(now.msgs, keep) == if db.stopped then db else Delivery(db.handled + da.handled, da.stopped)
  {
    assert chunks[..i + 1][..i] == chunks[..i];
    var before := Decode(Flatten(chunks[..i]), author);
    var after := Decode(before.rest + chunks[i], author);
    DecodeResume(Flatten(chunks[..i]), chunks[i], author);
    DeliverAppend(before.msgs, after.msgs, keep);
  }

  lemma {:induction false} FlattenAppend(xs: seq<seq<byte>>, ys: seq<seq<byte>>)
    ensures Flatten(xs + ys) == Flatten(xs) + Flatten(ys)
    decreases |ys|
  {
    if ys != [] {
      var zs, y := ys[..|ys| - 1], ys[|ys| - 1];
      assert (xs + ys)[..|xs + ys| - 1] == xs + zs;
      assert (xs + ys)[|xs + ys| - 1] == y;
      FlattenAppend(xs, zs);
      assert Flatten(ys) == Flatten(zs) + y;
      assert (Flatten(xs) + Flatten(zs)) + y == Flatten(xs) + (Flatten(zs) + y);
    } else {
      assert xs + ys == xs;
    }
  }

  /** Once the handler has refused a message among the first reads, later reads change
      nothing that is handed over. */
  lemma {:induction false} StoppedStaysStopped(xs: seq<seq<byte>>, ys: seq<seq<byte>>, author: seq<byte>,
                                               keep: Msg -> bool)
    requires Deliver(Decode(Flatten(xs), author).msgs, keep).stopped
    ensures ReadStreamSpec(author, Flatten(xs + ys), keep)
            == Deliver(Decode(Flatten(xs), author).msgs, keep).handled
  {
    FlattenAppend(xs, ys);
    var a := Flatten(xs);
    DecodeResume(a, Flatten(ys), author);
    var da := Decode(a, author);
    DeliverAppend(da.msgs, Decode(da.rest + Flatten(ys), author).msgs, keep);
  }

  /** A handler that never refuses sees every frame of the stream, then the disconnect
      message. */
  lemma KeepAllDeliversAll(author: seq<byte>, bytes: seq<byte>, keep: Msg -> bool)
    requires forall m :: keep(m)
    ensures ReadStreamSpec(author, bytes, keep) == Decode(bytes, author).msgs + [DisconnectMsg(author)]
  {
    var ms := Decode(bytes, author).msgs;
    DeliverStopsAtFirstRefusal(ms, keep);
    DeliverPrefix(ms, keep);
  }

  /** A peer that writes well-formed frames and then drops the connection: a handler that
      accepts everything receives each frame, in order, and then the disconnect message. */
  lemma ReadStreamRoundTrip(fs: seq<Frame>, author: seq<byte>)
    requires forall i :: 0 <= i < |fs| ==> Encodable(fs[i]) && RoundTrips(fs[i])
    ensures ReadStreamSpec(author, EncodeAll(fs), _ => true)
            == ReceivedAll(fs, author) + [DisconnectMsg(author)]
  {
    DecodeEncodeAll(fs, author);
    DeliverPrefix(ReceivedAll(fs, author), _ => true);
    DeliverStopsAtFirstRefusal(ReceivedAll(fs, author), _ => true);
  }
}
