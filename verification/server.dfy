/**
 * ServerListener: the accepting side of a connection. After the handshake
 * it registers the peer, sends the local bitfield and then handles every
 * message it receives until the connection ends.
 */
module Server {
  import opened Wrappers
  import opened Bytes
  import opened Message
  import opened Wire
  import opened Session
  import R = Registry
  import Peers

  /**
   * `send_choke(target_peer_id, conn)`: CHOKE on whatever arrives as `conn`.
   * Its one caller passes (conn, peer_id), so `conn` is the peer's id, an
   * int without `sendall`, and nothing is written.
   */
  function ChokeSends(targetPeerId: SocketArg, conn: SocketArg): (r: seq<Sent>)
    ensures r != [] <==> conn.Live?
    ensures conn.Live? ==> r == [Sent(conn.socket, [0, 0, 0, 1, CHOKE])]
  {
    EmptyFrame(CHOKE);
    SendMessage(conn, CHOKE, [])
  }

  /** `send_unchoke`: UNCHOKE on `conn`, then the peer is marked unchoked. */
  function UnchokeStep(s: R.State, conn: Socket, peer: int): (r: Step)
    ensures r.sent == [Sent(conn, [0, 0, 0, 1, UNCHOKE])]
    ensures R.Valid(s) ==> R.Valid(r.state) && !R.IsPeerChoked(r.state, peer) == (peer in s.peers)
  {
    EmptyFrame(UNCHOKE);
    Step(R.SetChoked(s, peer, false), SendMessage(Live(conn), UNCHOKE, []))
  }

  /** `int.from_bytes(payload[7:10], "big")`, the index the server reads from HAVE and REQUEST. */
  function NestedIndex(payload: seq<byte>): (r: nat)
    ensures r < Pow256(3)
  {
    FromBytes(Slice(payload, 7, 10))
  }

  /**
   * The REQUEST reply: nothing for an index outside [0, total), for a choked
   * (or unknown) peer, or when `get_piece` finds no data (`disk` stands for
   * it); otherwise `Piece.create(index, data)` framed once more as PIECE.
   */
  function PieceReply(s: R.State, conn: Socket, peer: int, index: int, disk: int -> seq<byte>): (r: seq<Sent>)
    ensures r != [] <==> && 0 <= index < s.total && !R.IsPeerChoked(s, peer) && disk(index) != []
                         && Piece(index, disk(index)).Ok?
                         && CreateMessage(PIECE, Piece(index, disk(index)).value).Ok?
    ensures r != [] ==> r == [Sent(conn, CreateMessage(PIECE, Piece(index, disk(index)).value).value)]
  {
    if index < 0 || index >= s.total then []
    else if R.IsPeerChoked(s, peer) then []
    else
      var data := disk(index);
      if data == [] then []
      else
        match Piece(index, data)
        case Err(_) => []
        case Ok(message) => SendMessage(Live(conn), PIECE, message)
  }

  /**
   * `handle_message` for one message from `peer` on `conn`; `self` is the
   * listener's own id. An exception inside a handler is caught, and the
   * registry is then as it was.
   */
  function ServerStep(s: R.State, self: int, conn: Socket, peer: int, m: Parsed,
                      disk: int -> seq<byte>): (r: Step)
    requires R.Valid(s)
    ensures R.Valid(r.state)
    ensures r.state.peers.Keys == s.peers.Keys && r.state.order == s.order
    ensures r.state.bitfield == s.bitfield && r.state.downloaded == s.downloaded
    ensures |r.sent| <= 1 && forall k :: 0 <= k < |r.sent| ==> r.sent[k].socket == conn
  {
    var t := m.msgType;
    var p := m.payload;
    if t == INTERESTED then UnchokeStep(R.SetInterested(s, peer, true), conn, peer)
    else if t == NOT_INTERESTED then Step(R.SetInterested(s, peer, false), ChokeSends(Live(conn), NotASocket(peer)))
    else if t == HAVE then
      match R.UpdatePeerBitfield(s, peer, NestedIndex(p))
      case Ok(s') => Step(s', [])
      case Err(_) => Step(s, [])
    else if t == REQUEST then Step(s, PieceReply(s, conn, peer, NestedIndex(p), disk))
    else if t == CHOKE then Step(R.SetChoked(s, peer, true), [])
    else if t == UNCHOKE then Step(R.SetChoked(s, self, false), [])
    else if t == BITFIELD then Step(R.ReplacePeerBitfield(s, peer, p), [])
    else Step(s, [])
  }

  /**
   * The `while True` of `handle_connection`: receive, handle, until a receive
   * gives None or raises (caught by `handle_connection`, which closes `conn`).
   */
  function ServeLoop(s: R.State, self: int, conn: Socket, peer: int, inbox: seq<Segment>,
                     disk: int -> seq<byte>): (r: Step)
    requires R.Valid(s)
    ensures R.Valid(r.state) && r.state.peers.Keys == s.peers.Keys
    ensures forall k :: 0 <= k < |r.sent| ==> r.sent[k].socket == conn
    decreases |Flatten(inbox)|
  {
    var received := Receive(inbox);
    match received.reply
    case Got(m) =>
      ReceiveConsumes(inbox);
      var step := ServerStep(s, self, conn, peer, m, disk);
      var tail := ServeLoop(step.state, self, conn, peer, received.rest, disk);
      Step(tail.state, step.sent + tail.sent)
    case _ => Step(s, [])
  }

  /** One round of the message loop: a received message is handled, then the loop goes on. */
  lemma ServeLoopUnfold(s: R.State, self: int, conn: Socket, peer: int, inbox: seq<Segment>,
                        disk: int -> seq<byte>)
    requires R.Valid(s) && Receive(inbox).reply.Got?
    ensures var step := ServerStep(s, self, conn, peer, Receive(inbox).reply.msg, disk);
            var tail := ServeLoop(step.state, self, conn, peer, Receive(inbox).rest, disk);
            ServeLoop(s, self, conn, peer, inbox, disk) == Step(tail.state, step.sent + tail.sent)
  {
  }

  /**
   * `handle_connection`: `recv(32)` must be a valid handshake; then the local
   * id (without socket) and the peer are registered, the bitfield is sent
   * and the message loop runs.
   */
  function Serve(s: R.State, self: int, conn: Socket, inbox: seq<Segment>, disk: int -> seq<byte>): (r: Step)
    requires R.Valid(s)
    ensures R.Valid(r.state)
  {
    var handshake := Recv(inbox, 32);
    match ParseHandshake(handshake.data)
    case Err(_) => Step(s, [])
    case Ok(peer) =>
      var registered := R.AddPeer(R.AddPeer(s, self, None), peer, Some(conn));
      var tail := ServeLoop(registered, self, conn, peer, handshake.rest, disk);
      Step(tail.state, BitfieldSends(registered, conn) + tail.sent)
  }

  // ---------------------------------------------------------------------
  // Properties of the server's handlers
  // ---------------------------------------------------------------------

  /** A connection whose first 32 bytes are not a handshake changes nothing and gets nothing. */
  lemma ServeRejectsBadHandshake(s: R.State, self: int, conn: Socket, inbox: seq<Segment>, disk: int -> seq<byte>)
    requires R.Valid(s)
    requires ParseHandshake(Recv(inbox, 32).data).Err?
    ensures Serve(s, self, conn, inbox, disk) == Step(s, [])
  {
  }

  /**
   * After a valid handshake both the local id and the peer are registered for
   * the rest of the connection, and every frame goes out on this connection.
   */
  lemma ServeRegistersPeer(s: R.State, self: int, conn: Socket, inbox: seq<Segment>, disk: int -> seq<byte>)
    requires R.Valid(s)
    requires ParseHandshake(Recv(inbox, 32).data).Ok?
    ensures var r := Serve(s, self, conn, inbox, disk);
            && r.state.peers.Keys == s.peers.Keys + {self, ParseHandshake(Recv(inbox, 32).data).value}
            && forall k :: 0 <= k < |r.sent| ==> r.sent[k].socket == conn
  {
    var handshake := Recv(inbox, 32);
    var peer := ParseHandshake(handshake.data).value;
    var registered := R.AddPeer(R.AddPeer(s, self, None), peer, Some(conn));
    assert registered.peers.Keys == s.peers.Keys + {self, peer};
    var tail := ServeLoop(registered, self, conn, peer, handshake.rest, disk);
    var b := BitfieldSends(registered, conn);
    assert Serve(s, self, conn, inbox, disk) == Step(tail.state, b + tail.sent);
  }

  /** INTERESTED marks the sender interested, then unchoked, and answers UNCHOKE. */
  lemma InterestedUnchokes(s: R.State, self: int, conn: Socket, peer: int, p: seq<byte>, disk: int -> seq<byte>)
    requires R.Valid(s) && peer in s.peers
    ensures var r := ServerStep(s, self, conn, peer, Parsed(INTERESTED, p), disk);
            && r.state.peers[peer] == s.peers[peer].(interested := true, choked := false)
            && (forall q :: q in s.peers && q != peer ==> r.state.peers[q] == s.peers[q])
            && r.sent == [Sent(conn, [0, 0, 0, 1, UNCHOKE])]
  {
  }

  /**
   * NOT_INTERESTED marks the sender not interested; the CHOKE reply is lost
   * because `send_choke` receives its arguments swapped.
   */
  lemma NotInterestedSendsNoChoke(s: R.State, self: int, conn: Socket, peer: int, p: seq<byte>, disk: int -> seq<byte>)
    requires R.Valid(s)
    ensures var r := ServerStep(s, self, conn, peer, Parsed(NOT_INTERESTED, p), disk);
            r.state == R.SetInterested(s, peer, false) && r.sent == []
  {
  }

  /** UNCHOKE marks the listener's own id unchoked and leaves the sender's flag alone. */
  lemma UnchokeMarksLocalId(s: R.State, self: int, conn: Socket, peer: int, p: seq<byte>, disk: int -> seq<byte>)
    requires R.Valid(s) && peer in s.peers && peer != self
    ensures var r := ServerStep(s, self, conn, peer, Parsed(UNCHOKE, p), disk);
            && r.state == R.SetChoked(s, self, false)
            && r.state.peers[peer] == s.peers[peer]
            && r.sent == []
  {
  }

  /** BITFIELD replaces the sender's stored bitfield with the payload's bytes. */
  lemma BitfieldReplaces(s: R.State, self: int, conn: Socket, peer: int, p: seq<byte>, disk: int -> seq<byte>)
    requires R.Valid(s) && peer in s.peers
    ensures var r := ServerStep(s, self, conn, peer, Parsed(BITFIELD, p), disk);
            && r.state == s.(peers := s.peers[peer := s.peers[peer].(bitfield := p)])
            && r.state.peers[peer].bitfield == p
            && r.sent == []
  {
  }

  /** CHOKE marks the sender choked, touches no other peer and answers nothing. */
  lemma ChokeMarksPeerChoked(s: R.State, self: int, conn: Socket, peer: int, p: seq<byte>, disk: int -> seq<byte>)
    requires R.Valid(s) && peer in s.peers
    ensures var r := ServerStep(s, self, conn, peer, Parsed(CHOKE, p), disk);
            && r.state.peers[peer] == s.peers[peer].(choked := true)
            && (forall q :: q in s.peers && q != peer ==> r.state.peers[q] == s.peers[q])
            && r.sent == []
  {
  }

  /**
   * PIECE and every type past it match no branch of `handle_message`: the
   * registry is unchanged and nothing is sent.
   */
  lemma ServerIgnoresOthers(s: R.State, self: int, conn: Socket, peer: int, m: Parsed, disk: int -> seq<byte>)
    requires R.Valid(s) && m.msgType >= PIECE
    ensures ServerStep(s, self, conn, peer, m, disk) == Step(s, [])
  {
  }

  /**
   * A HAVE payload of at most 7 bytes (a single-framed `Have.create` payload
   * has 4) is read at [7:10] as b"", i.e. as piece 0.
   */
  lemma ShortHaveReadsPieceZero(s: R.State, self: int, conn: Socket, peer: int, p: seq<byte>, disk: int -> seq<byte>)
    requires R.Valid(s) && |p| <= 7
    requires peer in s.peers && s.total > 0 && |s.peers[peer].bitfield| > 0
    ensures var r := ServerStep(s, self, conn, peer, Parsed(HAVE, p), disk);
            && r.state.peers[peer].bitfield[0] == 1
            && Ok(r.state) == R.UpdatePeerBitfield(s, peer, 0)
  {
    assert Slice(p, 7, 10) == [];
  }

  /**
   * A REQUEST as the client sends it (`Request.create(i)` framed again) is
   * decoded by reading payload[7:10], which gives back i when i < 2^24.
   */
  lemma NestedRequestDecodes(i: nat)
    requires i < Pow256(3)
    ensures Request(i).Ok?
    ensures NestedIndex(ParseMessage(CreateMessage(REQUEST, Request(i).value).value).value.payload) == i
  {
    var q := Request(i).value;
    assert Pow256(3) < Pow256(4);
    ParseCreate(REQUEST, q);
    var inner := ParseMessage(q).value.payload;
    assert inner == [REQUEST] + ToBytes(i, 4);
    assert q[5..] == inner;
    assert Slice(q, 7, 10) == ToBytes(i, 4)[1..];
    LowThreeBytes(i);
  }

  /** REQUEST for an index outside [0, total) or from a choked peer writes nothing and changes nothing. */
  lemma RequestRefused(s: R.State, self: int, conn: Socket, peer: int, p: seq<byte>, disk: int -> seq<byte>)
    requires R.Valid(s)
    requires NestedIndex(p) >= s.total || R.IsPeerChoked(s, peer) || disk(NestedIndex(p)) == []
    ensures ServerStep(s, self, conn, peer, Parsed(REQUEST, p), disk) == Step(s, [])
  {
  }

  /** Otherwise the reply is the stored piece, double-framed. */
  lemma RequestServed(s: R.State, self: int, conn: Socket, peer: int, p: seq<byte>, disk: int -> seq<byte>)
    requires R.Valid(s)
    requires NestedIndex(p) < s.total && !R.IsPeerChoked(s, peer)
    requires disk(NestedIndex(p)) != [] && |disk(NestedIndex(p))| + 10 < Pow256(4)
    ensures var i := NestedIndex(p);
            ServerStep(s, self, conn, peer, Parsed(REQUEST, p), disk)
            == Step(s, [Sent(conn, CreateMessage(PIECE, Piece(i, disk(i)).value).value)])
  {
    assert Pow256(3) < Pow256(4);
  }

  /** The listener: its own id and the PeerManager it shares with the client side. */
  class ServerListener {
    const peerId: int
    const peerManager: Peers.PeerManager

    constructor (peerId: int, peerManager: Peers.PeerManager)
      ensures this.peerId == peerId && this.peerManager == peerManager
    {
      this.peerId := peerId;
      this.peerManager := peerManager;
    }

    /** `send_unchoke`. */
    method SendUnchoke(conn: Socket, peer: int) returns (sent: seq<Sent>)
      requires peerManager.Valid()
      modifies peerManager
      ensures peerManager.Valid()
      ensures Step(peerManager.State(), sent) == UnchokeStep(old(peerManager.State()), conn, peer)
    {
      sent := SendMessage(Live(conn), UNCHOKE, []);
      peerManager.MarkPeerUnchoked(peer);
    }

    /** `send_choke`, with its parameters in the order it declares them. */
    method SendChoke(targetPeerId: SocketArg, conn: SocketArg) returns (sent: seq<Sent>)
      ensures sent == ChokeSends(targetPeerId, conn)
    {
      sent := SendMessage(conn, CHOKE, []);
    }

    /** `handle_message`. */
    method HandleMessage(conn: Socket, peer: int, msgType: int, payload: seq<byte>,
                         disk: int -> seq<byte>) returns (sent: seq<Sent>)
      requires peerManager.Valid()
      modifies peerManager
      ensures peerManager.Valid()
      ensures Step(peerManager.State(), sent)
              == ServerStep(old(peerManager.State()), peerId, conn, peer, Parsed(msgType, payload), disk)
    {
      sent := [];
      if msgType == INTERESTED {
        peerManager.MarkPeerInterested(peer);
        sent := SendUnchoke(conn, peer);
      } else if msgType == NOT_INTERESTED {
        peerManager.MarkPeerNotInterested(peer);
        sent := SendChoke(Live(conn), NotASocket(peer));
      } else if msgType == HAVE {
        var pieceIndex := FromBytes(Slice(payload, 7, 10));
        var _ := peerManager.UpdatePeerBitfield(peer, pieceIndex);
      } else if msgType == REQUEST {
        var pieceIndex := FromBytes(Slice(payload, 7, 10));
        if pieceIndex < 0 || pieceIndex >= peerManager.totalPieces {
          return;
        }
        var choked := peerManager.IsPeerChoked(peer);
        if !choked {
          var pieceData := disk(pieceIndex);
          if pieceData != [] {
            var pieceMessage := Piece(pieceIndex, pieceData);
            if pieceMessage.Ok? {
              sent := SendMessage(Live(conn), PIECE, pieceMessage.value);
            }
          }
        }
      } else if msgType == CHOKE {
        peerManager.MarkPeerChoked(peer);
      } else if msgType == UNCHOKE {
        peerManager.MarkPeerUnchoked(peerId);
      } else if msgType == BITFIELD {
        var _ := peerManager.ReplacePeerBitfield(peer, payload);
      }
    }

    /** `handle_connection`, over the bytes the peer will send on `conn`. */
    method HandleConnection(conn: Socket, inbox: seq<Segment>, disk: int -> seq<byte>) returns (sent: seq<Sent>)
      requires peerManager.Valid()
      modifies peerManager
      ensures peerManager.Valid()
      ensures Step(peerManager.State(), sent) == Serve(old(peerManager.State()), peerId, conn, inbox, disk)
    {
      var handshake := Recv(inbox, 32);
      var parsed := ParseHandshake(handshake.data);
      if parsed.Err? {
        return [];
      }
      var peer := parsed.value;
      peerManager.AddPeer(peerId, None);
      peerManager.AddPeer(peer, Some(conn));
      ghost var registered := peerManager.State();
      var bitfield := peerManager.GetBitfield();
      sent := [];
      if bitfield != [] {
        var payload: seq<byte> := bitfield;
        sent := SendMessage(Live(conn), BITFIELD, payload);
      }
      var out := MessageLoop(conn, peer, handshake.rest, disk);
      sent := sent + out;
    }

    /** The `while True` loop of `handle_connection`. */
    method MessageLoop(conn: Socket, peer: int, inbox: seq<Segment>, disk: int -> seq<byte>) returns (sent: seq<Sent>)
      requires peerManager.Valid()
      modifies peerManager
      ensures peerManager.Valid()
      ensures Step(peerManager.State(), sent) == ServeLoop(old(peerManager.State()), peerId, conn, peer, inbox, disk)
    {
      ghost var whole := ServeLoop(peerManager.State(), peerId, conn, peer, inbox, disk);
      sent := [];
      var rest := inbox;
      while true
        invariant peerManager.Valid()
        invariant var t := ServeLoop(peerManager.State(), peerId, conn, peer, rest, disk);
                  whole.state == t.state && whole.sent == sent + t.sent
        decreases |Flatten(rest)|
      {
        ghost var before := peerManager.State();
        var reply, rest' := ReceiveMessage(rest);
        if !reply.Got? {
          assert sent + [] == sent;
          break;
        }
        ReceiveConsumes(rest);
        ServeLoopUnfold(before, peerId, conn, peer, rest, disk);
        var out := HandleMessage(conn, peer, reply.msg.msgType, reply.msg.payload, disk);
        ghost var tail := ServeLoop(peerManager.State(), peerId, conn, peer, rest', disk);
        assert sent + (out + tail.sent) == (sent + out) + tail.sent;
        sent := sent + out;
        rest := rest';
      }
    }

    /**
     * `trigger_have` of the server side: HAVE to every registered peer; one
     * whose socket is None gets nothing. `ok` is false when the index does
     * not fit in 4 bytes.
     */
    method TriggerHave(targetPeerId: int, pieceIndex: int) returns (sent: seq<Sent>, ok: bool)
      requires peerManager.Valid()
      ensures HaveSends(peerManager.State(), None, pieceIndex) == if ok then Some(sent) else None
    {
      if !(0 <= pieceIndex < Pow256(4)) {
        return [], false;
      }
      var payload := ToBytes(pieceIndex, 4);
      var peers := peerManager.connectedPeers;
      var order := peerManager.order;
      sent := [];
      for k := 0 to |order|
        invariant sent == Broadcast(peers, HaveTargets(peers, order[..k], None), payload)
      {
        BroadcastStep(peers, order, None, k, payload);
        var id := order[k];
        if peers[id].socket.Some? {
          sent := sent + SendMessage(ArgOf(peers[id].socket), HAVE, payload);
        }
      }
      assert order[..|order|] == order;
      return sent, true;
    }
  }
}
