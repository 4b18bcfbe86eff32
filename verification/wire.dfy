/**
 * ConnectionManager: framing a message onto a socket, and reading one frame
 * back off a socket. A socket's incoming side is the sequence of TCP
 * segments still to be read; `recv(n)` hands out at most n bytes of the
 * first one, and an exhausted sequence means the peer has closed, so `recv`
 * returns b"". What is written is returned to the caller as `Sent` records.
 */
module Wire {
  import opened Wrappers
  import opened Bytes
  import opened Message

  /** A connected transport; only its identity matters to the engine. */
  datatype Socket = Socket(fd: nat)

  /** Whatever is passed as `send_message`'s socket argument (Python does not check it). */
  datatype SocketArg = NoSocket | Live(socket: Socket) | NotASocket(value: int)

  /** The argument a stored `socket` entry (a socket or None) makes. */
  function ArgOf(s: Option<Socket>): SocketArg
  {
    match s
    case None => NoSocket
    case Some(x) => Live(x)
  }

  /** One `sendall` of a whole frame onto a socket. */
  datatype Sent = Sent(socket: Socket, frame: seq<byte>)

  /**
   * `send_message`: frames the payload and writes it. A frame that cannot be
   * built, a None socket and a non-socket argument (whose missing `sendall`
   * raises) are all caught and logged, so nothing is written.
   */
  function SendMessage(socket: SocketArg, msgType: int, payload: seq<byte>): (r: seq<Sent>)
    ensures |r| <= 1
    ensures r != [] <==> socket.Live? && CreateMessage(msgType, payload).Ok?
    ensures r != [] ==> r[0].socket == socket.socket
                        && ParseMessage(r[0].frame) == Ok(Parsed(msgType, payload))
  {
    match CreateMessage(msgType, payload)
    case Err(_) => []
    case Ok(frame) => if socket.Live? then [Sent(socket.socket, frame)] else []
  }

  /** A TCP segment: `recv` never hands out an empty one while the peer is connected. */
  type Segment = s: seq<byte> | |s| > 0 witness [0]

  /** All bytes still to be read, in order. */
  function Flatten(inbox: seq<Segment>): seq<byte>
  {
    if inbox == [] then [] else inbox[0] + Flatten(inbox[1..])
  }

  /** Bytes handed out by reads, and the segments left afterwards. */
  datatype Chunk = Chunk(data: seq<byte>, rest: seq<Segment>)

  /** `socket.recv(n)`. */
  function Recv(inbox: seq<Segment>, n: nat): (r: Chunk)
    ensures inbox != [] ==> |r.data| == Min(n, |inbox[0]|)
    ensures r.data == [] <==> inbox == [] || n == 0
    ensures Flatten(inbox) == r.data + Flatten(r.rest)
  {
    if inbox == [] || n == 0 then Chunk([], inbox)
    else if |inbox[0]| <= n then Chunk(inbox[0], inbox[1..])
    else
      var rest: seq<Segment> := [inbox[0][n..]] + inbox[1..];
      assert rest[0] == inbox[0][n..] && rest[1..] == inbox[1..];
      assert inbox[0] == inbox[0][..n] + inbox[0][n..];
      Chunk(inbox[0][..n], rest)
  }

  /** The receive loop's reads for a body of `need` bytes; None when the peer closes first. */
  function ReadBody(inbox: seq<Segment>, need: nat): (r: Option<Chunk>)
    decreases need
    ensures r.Some? <==> need <= |Flatten(inbox)|
    ensures r.Some? ==> |r.value.data| == need && Flatten(inbox) == r.value.data + Flatten(r.value.rest)
  {
    if need == 0 then Some(Chunk([], inbox))
    else
      var c := Recv(inbox, need);
      if c.data == [] then None
      else Prepend(c.data, ReadBody(c.rest, need - |c.data|))
  }

  function Prepend(data: seq<byte>, r: Option<Chunk>): Option<Chunk>
  {
    match r
    case None => None
    case Some(c) => Some(Chunk(data + c.data, c.rest))
  }

  lemma PrependTwice(a: seq<byte>, b: seq<byte>, r: Option<Chunk>)
    ensures Prepend(a, Prepend(b, r)) == Prepend(a + b, r)
  {
    if r.Some? {
      assert a + (b + r.value.data) == (a + b) + r.value.data;
    }
  }

  /**
   * How `receive_message` ends: with a message; with None, when the header
   * read comes back empty because the peer closed; or by raising. Its first
   * handler, `except socket.timeout`, names the socket parameter rather than
   * the module: that attribute is None on a blocking socket, and matching
   * an exception against None raises TypeError out of `receive_message`.
   * So the ValueError, the ConnectionError and the parse error are never
   * caught there.
   */
  datatype Reply = Got(msg: Parsed) | Closed | Raised

  /** What `receive_message` ends with, and the segments it leaves unread. */
  datatype Received = Received(reply: Reply, rest: seq<Segment>)

  /**
   * `receive_message`: a `recv(4)` for the header (an empty read means the
   * peer closed); a length field of 0 raises ValueError; then reads until
   * `length` body bytes are in, an empty read before that raising
   * ConnectionError; then `parse_message(header + data)`.
   */
  function Receive(inbox: seq<Segment>): (r: Received)
    ensures r.reply.Closed? <==> inbox == []
  {
    var header := Recv(inbox, 4);
    if header.data == [] then Received(Closed, header.rest)
    else
      var length := FromBytes(header.data);
      if length <= 0 then Received(Raised, header.rest)
      else
        match ReadBody(header.rest, length)
        case None => Received(Raised, [])
        case Some(body) =>
          match ParseMessage(header.data + body.data)
          case Err(_) => Received(Raised, body.rest)
          case Ok(m) => Received(Got(m), body.rest)
  }

  /** The loop of `receive_message`, proved against `Receive`. */
  method ReceiveMessage(inbox: seq<Segment>) returns (reply: Reply, rest: seq<Segment>)
    ensures Received(reply, rest) == Receive(inbox)
  {
    var header := Recv(inbox, 4);
    if header.data == [] {
      return Closed, header.rest;
    }
    var length := FromBytes(header.data);
    if length <= 0 {
      return Raised, header.rest;
    }
    var data: seq<byte> := [];
    rest := header.rest;
    match ReadBody(rest, length) {
      case None =>
      case Some(c) => assert data + c.data == c.data;
    }
    while |data| < length
      invariant |data| <= length
      invariant ReadBody(header.rest, length) == Prepend(data, ReadBody(rest, length - |data|))
      decreases length - |data|
    {
      var chunk := Recv(rest, length - |data|);
      if chunk.data == [] {
        return Raised, [];
      }
      PrependTwice(data, chunk.data, ReadBody(chunk.rest, length - |data| - |chunk.data|));
      data := data + chunk.data;
      rest := chunk.rest;
    }
    assert ReadBody(header.rest, length) == Some(Chunk(data, rest)) by {
      assert data + [] == data;
    }
    var parsed := ParseMessage(header.data + data);
    if parsed.Err? {
      return Raised, rest;
    }
    return Got(parsed.value), rest;
  }

  /**
   * Whatever `receive_message` returns was sent as one well-formed frame:
   * the bytes it consumed are exactly `create_message` of the result.
   */
  lemma ReceivedIsFrame(inbox: seq<Segment>)
    ensures var r := Receive(inbox);
            r.reply.Got? ==>
              CreateMessage(r.reply.msg.msgType, r.reply.msg.payload).Ok?
              && Flatten(inbox) == CreateMessage(r.reply.msg.msgType, r.reply.msg.payload).value + Flatten(r.rest)
  {
    var r := Receive(inbox);
    if r.reply.Got? {
      var header := Recv(inbox, 4);
      var body := ReadBody(header.rest, FromBytes(header.data)).value;
      CreateParse(header.data + body.data);
    }
  }

  /** A successful receive consumes input, so a receive loop terminates. */
  lemma ReceiveConsumes(inbox: seq<Segment>)
    ensures Receive(inbox).reply.Got? ==> |Flatten(Receive(inbox).rest)| < |Flatten(inbox)|
  {
    ReceivedIsFrame(inbox);
  }

  /**
   * A frame sent by `send_message` is received whole, however TCP splits it,
   * provided the first segment holds the 4-byte header; the bytes after it
   * are left unread.
   */
  lemma ReceiveFrame(inbox: seq<Segment>, msgType: int, payload: seq<byte>)
    requires inbox != [] && |inbox[0]| >= 4
    requires CreateMessage(msgType, payload).Ok?
    requires var f := CreateMessage(msgType, payload).value;
             |f| <= |Flatten(inbox)| && Flatten(inbox)[..|f|] == f
    ensures Receive(inbox).reply == Got(Parsed(msgType, payload))
    ensures var f := CreateMessage(msgType, payload).value;
            Flatten(Receive(inbox).rest) == Flatten(inbox)[|f|..]
  {
    var f := CreateMessage(msgType, payload).value;
    var all := Flatten(inbox);
    var header := Recv(inbox, 4);
    assert header.data == all[..4] == f[..4];
    var length := FromBytes(header.data);
    assert length == |payload| + 1;
    var body := ReadBody(header.rest, length).value;
    assert all == header.data + body.data + Flatten(body.rest);
    assert header.data + body.data == all[..|f|];
    ParseCreate(msgType, payload);
  }

  /**
   * A length field of 0 makes `receive_message` raise (ValueError, turned
   * into TypeError by its first handler), whatever follows the header.
   */
  lemma ZeroLengthRaises(inbox: seq<Segment>)
    requires inbox != [] && |inbox[0]| >= 4 && inbox[0][..4] == [0, 0, 0, 0]
    ensures Receive(inbox).reply == Raised
  {
    var header := Recv(inbox, 4);
    assert header.data == [0, 0, 0, 0];
    assert FromBytes(header.data) == 0 by {
      assert header.data[..3] == [0, 0, 0] && [0, 0, 0][..2] == [0, 0] && [0, 0][..1] == [0];
    }
  }
}
