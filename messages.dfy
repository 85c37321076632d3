/** The message record and its meta flags (msg.go). */
module Messages {
  import opened Base

  /** Bit 7 of the meta byte: the frame carries a body-length field and a body. */
  const MsgWithBody: byte := 0x80
  /** Bit 6 of the meta byte: the sender expects a reply with the same id. */
  const MsgReq: byte := 0x40

  /** `meta & MsgWithBody == MsgWithBody`. */
  predicate HasBody(meta: byte) {
    (meta as int / 128) % 2 == 1
  }

  /** `meta & MsgReq == MsgReq`, the test the server applies before replying. */
  predicate IsRequest(meta: byte) {
    (meta as int / 64) % 2 == 1
  }

  /** The meta byte with exactly the requested flags set. The two flags are distinct bits,
      so Go's `MsgWithBody | MsgReq` is their sum. */
  function Flags(request: bool, withBody: bool): (meta: byte)
    ensures IsRequest(meta) == request && HasBody(meta) == withBody
    ensures meta as int % 64 == 0
  {
    (if withBody then MsgWithBody else 0) + (if request then MsgReq else 0)
  }

  /** A delivered message. `id` is nil only for the synthetic disconnect message; `author`
      is not on the wire: the receiver fills it with the connection's client id. */
  datatype Msg = Msg(id: Slice, author: seq<byte>, meta: byte, name: seq<byte>, body: Slice)

  const DisconnectName: seq<byte> := Str("disconnect")
  const HandshakeName: seq<byte> := Str("handshake")

  /** The message the reader loop delivers after a read error: only author and name set. */
  function DisconnectMsg(author: seq<byte>): (m: Msg)
    ensures m.id.Nil? && m.body.Nil? && m.author == author && m.name == DisconnectName
    ensures !HasBody(m.meta) && !IsRequest(m.meta)
  {
    Msg(Nil, author, 0, DisconnectName, Nil)
  }

  lemma ReservedNamesDiffer()
    ensures DisconnectName != HandshakeName && |HandshakeName| == 9 && |DisconnectName| == 10
  {
  }
}
