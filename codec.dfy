/** The wire frame (utils.go `writeMsg`) and a whole-buffer decoder that states what the
    incremental reader must deliver.

    Frame layout: 12-byte id, meta byte, name length byte, name, then, when the encoder has
    a non-empty body, an 8-byte big-endian body length and the body. */
module Codec {
  import opened Base
  import opened Messages

  const IdLen: nat := 12
  /** id, meta and name length */
  const HeaderLen: nat := 14
  /** width of the body-length field */
  const LenWidth: nat := 8
  /** `writeMsg` stops the process (`log.Fatal`) for longer names */
  const MaxNameLen: nat := 255

  /** The arguments of `writeMsg`: `body` is only ever looked at through `len(body)`, so a
      nil body and an empty one encode alike. */
  datatype Frame = Frame(id: seq<byte>, meta: byte, name: seq<byte>, body: seq<byte>)

  /** What `writeMsg` accepts: the id is a `[12]byte`, the name fits the length byte (longer
      names are fatal), and the body length fits the uint64 field. */
  predicate Encodable(f: Frame) {
    |f.id| == IdLen && |f.name| <= MaxNameLen && |f.body| < Uint64Limit
  }

  /** The frames the reader gives back unchanged: HAS_BODY set exactly when there is a body,
      and a name whenever there is a body (the reader reads a body length only after a
      non-empty name). */
  predicate RoundTrips(f: Frame) {
    && Encodable(f)
    && (HasBody(f.meta) <==> |f.body| > 0)
    && (HasBody(f.meta) ==> |f.name| > 0)
  }

  /** The bytes `writeMsg` hands to the stream. The length field and body are written
      whenever the body is non-empty, whatever the meta byte says. */
  function Encode(f: Frame): (frame: seq<byte>)
    requires Encodable(f)
    ensures |frame| == HeaderLen + |f.name| + (if |f.body| > 0 then LenWidth + |f.body| else 0)
  {
    f.id + [f.meta, |f.name| as byte] + f.name
    + (if |f.body| > 0 then BigEndian(|f.body|, LenWidth) + f.body else [])
  }

  /** The frame layout as a reader sees it: where each field sits and what it holds. */
  lemma {:induction false} EncodeLayout(f: Frame)
    requires Encodable(f)
    ensures var e, n := Encode(f), |f.name|;
      && e[..IdLen] == f.id && e[12] == f.meta && e[13] as int == n
      && e[HeaderLen..HeaderLen + n] == f.name
      && (|f.body| > 0 ==>
            FromBigEndian(e[HeaderLen + n..HeaderLen + n + LenWidth]) == |f.body|
            && e[HeaderLen + n + LenWidth..] == f.body)
      && (|f.body| == 0 ==> |e| == HeaderLen + n)
  {
    var e, n := Encode(f), |f.name|;
    if |f.body| > 0 {
      assert e[HeaderLen + n..HeaderLen + n + LenWidth] == BigEndian(|f.body|, LenWidth);
      assert Pow256(LenWidth) == Uint64Limit;
      BigEndianRoundTrip(|f.body|, LenWidth);
    }
  }

  /** The test frame of utils_test.go: name "Test name", body "Test body", meta 0; 40 bytes
      whose tail after the id is exactly the listed bytes. */
  lemma {:induction false} WriteMsgTestFrame(id: seq<byte>)
    requires |id| == IdLen
    ensures var e := Encode(Frame(id, 0, Str("Test name"), Str("Test body")));
      && |e| == 40
      && e[12..] == [0, 9, 84, 101, 115, 116, 32, 110, 97, 109, 101,
                     0, 0, 0, 0, 0, 0, 0, 9,
                     84, 101, 115, 116, 32, 98, 111, 100, 121]
  {
    var name, body, len := Str("Test name"), Str("Test body"), BigEndian(9, LenWidth);
    TestFrameFields();
    var e := Encode(Frame(id, 0, name, body));
    assert e == id + ([0, 9] + name + (len + body));
    assert e[12..] == [0, 9] + name + (len + body);
    TestFrameTail();
  }

  lemma TestFrameTail()
    ensures var head: seq<byte> := [0, 9];
            head + [84, 101, 115, 116, 32, 110, 97, 109, 101]
            + ([0, 0, 0, 0, 0, 0, 0, 9] + [84, 101, 115, 116, 32, 98, 111, 100, 121])
            == [0, 9, 84, 101, 115, 116, 32, 110, 97, 109, 101,
                0, 0, 0, 0, 0, 0, 0, 9,
                84, 101, 115, 116, 32, 98, 111, 100, 121]
  {
  }

  /** The bytes of the test frame's name, body and body length. */
  lemma TestFrameFields()
    ensures Str("Test name") == [84, 101, 115, 116, 32, 110, 97, 109, 101]
    ensures Str("Test body") == [84, 101, 115, 116, 32, 98, 111, 100, 121]
    ensures BigEndian(9, LenWidth) == [0, 0, 0, 0, 0, 0, 0, 9]
  {
    calc {
      BigEndian(9, LenWidth);
      BigEndian(0, 7) + [9];
      { ZeroBigEndian(7); }
      [0, 0, 0, 0, 0, 0, 0] + [9];
    }
  }

  lemma {:induction false} ZeroBigEndian(width: nat)
    ensures BigEndian(0, width) == seq(width, _ => 0)
  {
    if width > 0 {
      ZeroBigEndian(width - 1);
    }
  }

  /** A complete frame found at the head of a buffer, and how many bytes it takes. */
  datatype Parsed = Parsed(msg: Msg, size: nat)

  /** The frame at the head of `b`, if the reader can complete one from these bytes alone.
      The conditions follow the reader's steps: the header needs 14 bytes; without HAS_BODY
      the frame ends after the name; with HAS_BODY the length field is read only once the
      name is non-empty, and a zero length gives a nil body. */
  function ParseFrame(b: seq<byte>, author: seq<byte>): (r: Option<Parsed>)
    ensures r.Some? ==> HeaderLen <= r.value.size <= |b|
  {
    if |b| < HeaderLen then None
    else
      var meta, nameEnd := b[12], HeaderLen + b[13] as nat;
      if !HasBody(meta) then
        if |b| < nameEnd then None
        else Some(Parsed(Msg(Bytes(b[..IdLen]), author, meta, b[HeaderLen..nameEnd], Nil), nameEnd))
      else if b[13] == 0 || |b| < nameEnd + LenWidth then None
      else
        var bodyLen := FromBigEndian(b[nameEnd..nameEnd + LenWidth]);
        var bodyEnd := nameEnd + LenWidth + bodyLen;
        if |b| < bodyEnd then None
        else
          var body := if bodyLen > 0 then Bytes(b[nameEnd + LenWidth..bodyEnd]) else Nil;
          Some(Parsed(Msg(Bytes(b[..IdLen]), author, meta, b[HeaderLen..nameEnd], body), bodyEnd))
  }

  /** Everything a buffer yields: the complete frames in order and the bytes left over. */
  datatype Decoded = Decoded(msgs: seq<Msg>, rest: seq<byte>)

  /** Whole-buffer decoding: frames are taken from the head while one is complete. */
  function Decode(b: seq<byte>, author: seq<byte>): (d: Decoded)
    ensures |d.rest| <= |b|
    ensures ParseFrame(d.rest, author).None?
    ensures forall i :: 0 <= i < |d.msgs| ==>
              d.msgs[i].author == author && d.msgs[i].id.Bytes? && |d.msgs[i].id.data| == IdLen
    decreases |b|
  {
    match ParseFrame(b, author)
    case None => Decoded([], b)
    case Some(p) =>
      var d := Decode(b[p.size..], author);
      Decoded([p.msg] + d.msgs, d.rest)
  }

  /** The message a reader delivers for a frame that round-trips. */
  function Received(f: Frame, author: seq<byte>): Msg {
    Msg(Bytes(f.id), author, f.meta, f.name, if |f.body| > 0 then Bytes(f.body) else Nil)
  }

  /** A complete frame at the head of a buffer stays the same frame whatever bytes follow. */
  lemma {:induction false} ParseFramePrefix(a: seq<byte>, c: seq<byte>, author: seq<byte>)
    requires ParseFrame(a, author).Some?
    ensures ParseFrame(a + c, author) == ParseFrame(a, author)
  {
    var b := a + c;
    var nameEnd := HeaderLen + a[13] as nat;
    assert b[..IdLen] == a[..IdLen];
    assert b[12] == a[12] && b[13] == a[13];
    assert b[HeaderLen..nameEnd] == a[HeaderLen..nameEnd];
    if HasBody(a[12]) {
      assert b[nameEnd..nameEnd + LenWidth] == a[nameEnd..nameEnd + LenWidth];
      var bodyEnd := nameEnd + LenWidth + FromBigEndian(a[nameEnd..nameEnd + LenWidth]);
      assert b[nameEnd + LenWidth..bodyEnd] == a[nameEnd + LenWidth..bodyEnd];
    }
  }

  /** Round trip: a frame that round-trips, followed by any bytes, is read back as exactly
      the message that was written, with the receiver's author. */
  lemma {:induction false} ParseEncoded(f: Frame, tail: seq<byte>, author: seq<byte>)
    requires RoundTrips(f)
    ensures ParseFrame(Encode(f) + tail, author) == Some(Parsed(Received(f, author), |Encode(f)|))
  {
    var e := Encode(f);
    EncodeLayout(f);
    assert ParseFrame(e, author) == Some(Parsed(Received(f, author), |e|)) by {
      var n := |f.name|;
      if |f.body| > 0 {
        assert e[HeaderLen + n + LenWidth..|e|] == f.body;
      }
    }
    ParseFramePrefix(e, tail, author);
  }

  /** Decoding the bytes of one frame that round-trips gives that message and nothing left. */
  lemma {:induction false} DecodeEncoded(f: Frame, author: seq<byte>)
    requires RoundTrips(f)
    ensures Decode(Encode(f), author) == Decoded([Received(f, author)], [])
  {
    ParseEncoded(f, [], author);
    assert Encode(f) + [] == Encode(f);
    var e := Encode(f);
    assert e[|e|..] == [];
  }

  /** The bytes of several frames written one after the other. */
  function EncodeAll(fs: seq<Frame>): (bytes: seq<byte>)
    requires forall i :: 0 <= i < |fs| ==> Encodable(fs[i])
  {
    if fs == [] then [] else Encode(fs[0]) + EncodeAll(fs[1..])
  }

  function ReceivedAll(fs: seq<Frame>, author: seq<byte>): (ms: seq<Msg>)
    ensures |ms| == |fs|
    ensures forall i :: 0 <= i < |fs| ==> ms[i] == Received(fs[i], author)
  {
    seq(|fs|, i requires 0 <= i < |fs| => Received(fs[i], author))
  }

  /** A run of frames that round-trip decodes to their messages in order, with nothing left. */
  lemma {:induction false} DecodeEncodeAll(fs: seq<Frame>, author: seq<byte>)
    requires forall i :: 0 <= i < |fs| ==> Encodable(fs[i]) && RoundTrips(fs[i])
    ensures Decode(EncodeAll(fs), author) == Decoded(ReceivedAll(fs, author), [])
  {
    if fs != [] {
      var e, more := Encode(fs[0]), EncodeAll(fs[1..]);
      ParseEncoded(fs[0], more, author);
      assert (e + more)[|e|..] == more;
      DecodeEncodeAll(fs[1..], author);
      assert ReceivedAll(fs, author) == [Received(fs[0], author)] + ReceivedAll(fs[1..], author);
    }
  }

  /** Resumption: decoding `a` and then decoding its leftover followed by `c` delivers the
      same messages, in the same order, and leaves the same bytes as decoding `a + c` at once.
      This is what makes the result independent of where the reads split the stream. */
  lemma {:induction false} DecodeResume(a: seq<byte>, c: seq<byte>, author: seq<byte>)
    ensures var da := Decode(a, author); var dc := Decode(da.rest + c, author);
      Decode(a + c, author) == Decoded(da.msgs + dc.msgs, dc.rest)
    decreases |a|
  {
    var r := ParseFrame(a, author);
    if r.Some? {
      var p := r.value;
      var tail := a[p.size..];
      ParseFramePrefix(a, c, author);
      assert (a + c)[p.size..] == tail + c;
      DecodeResume(tail, c, author);
      var x, y := Decode(tail, author).msgs, Decode(Decode(tail, author).rest + c, author).msgs;
      assert [p.msg] + (x + y) == ([p.msg] + x) + y;
      assert Decode(a, author).rest == Decode(tail, author).rest;
      assert Decode(a + c, author) == Decoded([p.msg] + Decode(tail + c, author).msgs, Decode(tail + c, author).rest);
    }
  }

  /** A frame with HAS_BODY set and an empty name never completes, whatever follows: the
      reader waits forever and every later frame on the connection is lost. */
  lemma {:induction false} EmptyNameWithBodyStalls(f: Frame, tail: seq<byte>, author: seq<byte>)
    requires Encodable(f) && HasBody(f.meta) && f.name == []
    ensures Decode(Encode(f) + tail, author) == Decoded([], Encode(f) + tail)
  {
    var b := Encode(f) + tail;
    assert b[12] == f.meta && b[13] == 0;
  }

  /** A frame with HAS_BODY set and an empty body has no length field, yet the reader reads
      the next 8 bytes as one: whatever it completes first swallows the start of what follows. */
  lemma {:induction false} FlagWithoutBodySwallowsNext(f: Frame, tail: seq<byte>, author: seq<byte>)
    requires Encodable(f) && HasBody(f.meta) && f.body == [] && f.name != []
    ensures ParseFrame(Encode(f), author).None?
    ensures ParseFrame(Encode(f) + tail, author).Some? ==>
              ParseFrame(Encode(f) + tail, author).value.size >= |Encode(f)| + LenWidth
  {
    var e := Encode(f);
    var b := e + tail;
    assert b[12] == f.meta && b[13] as int == |f.name|;
  }

  /** A body written without HAS_BODY is not read as a body: the frame ends after the name,
      the message arrives with a nil body, and the length field and body are then read as
      the start of another frame. */
  lemma {:induction false} BodyWithoutFlagIsReframed(f: Frame, author: seq<byte>)
    requires Encodable(f) && !HasBody(f.meta) && |f.body| > 0
    ensures var e, n := Encode(f), HeaderLen + |f.name|;
      && ParseFrame(e, author) == Some(Parsed(Msg(Bytes(f.id), author, f.meta, f.name, Nil), n))
      && Decode(e, author).msgs == [Received(f.(body := []), author)]
                                   + Decode(BigEndian(|f.body|, LenWidth) + f.body, author).msgs
  {
    var e, n := Encode(f), HeaderLen + |f.name|;
    EncodeLayout(f);
    assert e[n..] == BigEndian(|f.body|, LenWidth) + f.body;
  }
}
