/**
 * ClientListener: the connecting side. It sends the handshake and its
 * bitfield, folds the peer's BITFIELD reply into the registry, declares
 * interest, and then handles the peer's messages: requesting pieces once
 * unchoked, storing received pieces and announcing them with HAVE.
 */
module Client {
  import opened Wrappers
  import opened Bytes
  import opened Message
  import opened Wire
  import opened Session
  import R = Registry
  import Storage
  import Peers
  import BitField

  // ---------------------------------------------------------------------
  // is_interested
  // ---------------------------------------------------------------------

  /**
   * `is_interested` from position i on: the first i with `bits[i] == 1`
   * decides, true when the local bit there is 0. Reading a local bit past
   * the end of the local bitfield raises IndexError.
   */
  function InterestFrom(bits: seq<int>, local: seq<int>, i: nat): (r: Result<bool, R.Fault>)
    decreases |bits| - i
    ensures r == Ok(true) ==> exists j :: i <= j < |bits| && j < |local| && bits[j] == 1 && local[j] == 0
    ensures r.Err? ==> exists j :: i <= j < |bits| && bits[j] == 1 && j >= |local|
    ensures |bits| <= |local| ==>
              r == Ok(exists j :: i <= j < |bits| && bits[j] == 1 && local[j] == 0)
  {
    if i >= |bits| then Ok(false)
    else if bits[i] == 1 then
      if i >= |local| then Err(R.IndexError)
      else if local[i] == 0 then Ok(true)
      else InterestFrom(bits, local, i + 1)
    else InterestFrom(bits, local, i + 1)
  }

  /** When the peer sent no BITFIELD, its bitfield counts as all zeros: never interesting. */
  lemma AllZerosNotInterested(total: nat, local: seq<int>)
    requires |local| == total
    ensures InterestFrom(BitField.Initialize(false, total), local, 0) == Ok(false)
  {
  }

  // ---------------------------------------------------------------------
  // request_pieces
  // ---------------------------------------------------------------------

  /** A piece worth requesting from `target`: missing locally, held by it, and it is not choked. */
  predicate Eligible(s: R.State, target: int, i: nat)
    requires R.Valid(s) && target in s.peers && i < s.total && i < |s.peers[target].bitfield|
  {
    s.bitfield[i] == 0 && s.peers[target].bitfield[i] == 1 && !s.peers[target].choked
  }

  /**
   * The indices `request_pieces` requests, from `from` on, in ascending order.
   * The loop stops at a KeyError (unknown target), at an IndexError (a stored
   * bitfield too short) and when `Request.create` raises (an index past 2^32).
   */
  function Wanted(s: R.State, target: int, from: nat): (r: seq<nat>)
    requires R.Valid(s)
    decreases s.total - from
    ensures forall k :: 0 <= k < |r| ==> from <= r[k] < s.total && r[k] < Pow256(4)
    ensures forall a, b :: 0 <= a < b < |r| ==> r[a] < r[b]
    ensures target in s.peers ==>
              forall k :: 0 <= k < |r| ==> r[k] < |s.peers[target].bitfield| && Eligible(s, target, r[k])
  {
    if from >= s.total then []
    else if target !in s.peers || from >= |s.peers[target].bitfield| then []
    else if Eligible(s, target, from) then
      if from >= Pow256(4) then [] else [from] + Wanted(s, target, from + 1)
    else Wanted(s, target, from + 1)
  }

  /**
   * With the target known, its bitfield covering every piece and fewer than
   * 2^32 pieces, exactly the eligible indices are requested.
   */
  lemma {:induction false} WantedExact(s: R.State, target: int, from: nat)
    requires R.Valid(s) && target in s.peers
    requires |s.peers[target].bitfield| >= s.total && s.total <= Pow256(4)
    ensures forall i :: from <= i < s.total ==> (i in Wanted(s, target, from) <==> Eligible(s, target, i))
    decreases s.total - from
  {
    if from < s.total {
      WantedExact(s, target, from + 1);
    }
  }

  /** The frames `request_pieces` writes: `Request.create(i)` framed again as REQUEST, per index. */
  function RequestFrames(conn: Socket, indices: seq<nat>): (r: seq<Sent>)
    requires forall k :: 0 <= k < |indices| ==> indices[k] < Pow256(4)
    ensures |r| == |indices|
    ensures forall k :: 0 <= k < |indices| ==>
              r[k] == Sent(conn, CreateMessage(REQUEST, Request(indices[k]).value).value)
  {
    if indices == [] then []
    else SendMessage(Live(conn), REQUEST, Request(indices[0]).value) + RequestFrames(conn, indices[1..])
  }

  /** One step of `request_pieces`: what the loop does at index i decides how `Wanted` unfolds. */
  lemma WantedAt(s: R.State, target: int, i: nat)
    requires R.Valid(s) && i < s.total
    ensures target !in s.peers || i >= |s.peers[target].bitfield| ==> Wanted(s, target, i) == []
    ensures target in s.peers && i < |s.peers[target].bitfield| ==>
              Wanted(s, target, i)
              == if !Eligible(s, target, i) then Wanted(s, target, i + 1)
                 else if i >= Pow256(4) then []
                 else [i] + Wanted(s, target, i + 1)
  {
  }

  lemma RequestFramesCons(conn: Socket, i: nat, rest: seq<nat>)
    requires i < Pow256(4) && forall k :: 0 <= k < |rest| ==> rest[k] < Pow256(4)
    ensures RequestFrames(conn, [i] + rest)
            == SendMessage(Live(conn), REQUEST, Request(i).value) + RequestFrames(conn, rest)
  {
    assert ([i] + rest)[0] == i && ([i] + rest)[1..] == rest;
  }

  lemma Associative(a: seq<Sent>, b: seq<Sent>, c: seq<Sent>)
    ensures a + (b + c) == (a + b) + c
  {
  }

  /** How the frames still to be written unfold at index i, the target's bitfield reaching i. */
  lemma RequestStep(s: R.State, conn: Socket, target: int, i: nat)
    requires R.Valid(s) && i < s.total && target in s.peers && i < |s.peers[target].bitfield|
    ensures !Eligible(s, target, i) ==>
              RequestFrames(conn, Wanted(s, target, i)) == RequestFrames(conn, Wanted(s, target, i + 1))
    ensures Eligible(s, target, i) && i >= Pow256(4) ==> RequestFrames(conn, Wanted(s, target, i)) == []
    ensures Eligible(s, target, i) && i < Pow256(4) ==>
              RequestFrames(conn, Wanted(s, target, i))
              == SendMessage(Live(conn), REQUEST, Request(i).value) + RequestFrames(conn, Wanted(s, target, i + 1))
  {
    WantedAt(s, target, i);
    if Eligible(s, target, i) && i < Pow256(4) {
      RequestFramesCons(conn, i, Wanted(s, target, i + 1));
    }
  }

  /** `request_pieces(conn, target)`. */
  function RequestSends(s: R.State, conn: Socket, target: int): seq<Sent>
    requires R.Valid(s)
  {
    RequestFrames(conn, Wanted(s, target, 0))
  }

  // ---------------------------------------------------------------------
  // Bitfield ingest in connect_to_peer
  // ---------------------------------------------------------------------

  /** The registry after the ingest loop, and whether it ran to the end. */
  datatype Partial = Partial(state: R.State, ok: bool)

  /**
   * `for i, bit in enumerate(peer_bitfield): if bit == 1:
   * update_peer_bitfield(target, i)` from position i on. An IndexError stops
   * it, keeping the updates already made.
   */
  function IngestFrom(s: R.State, target: int, bits: seq<int>, i: nat): (r: Partial)
    requires R.Valid(s)
    decreases |bits| - i
    ensures R.Valid(r.state)
    ensures r.state.peers.Keys == s.peers.Keys && r.state.bitfield == s.bitfield
  {
    if i >= |bits| then Partial(s, true)
    else if bits[i] == 1 then
      match R.UpdatePeerBitfield(s, target, i)
      case Err(_) => Partial(s, false)
      case Ok(s') => IngestFrom(s', target, bits, i + 1)
    else IngestFrom(s, target, bits, i + 1)
  }

  /**
   * Ingesting a peer's bitfield into a registered entry covering every piece
   * sets exactly the bits it reports below `total`, and nothing else.
   */
  lemma {:induction false} IngestSetsReportedBits(s: R.State, target: int, bits: seq<int>, i: nat)
    requires R.Valid(s) && target in s.peers && |s.peers[target].bitfield| == s.total
    ensures var r := IngestFrom(s, target, bits, i);
            && r.ok
            && |r.state.peers[target].bitfield| == s.total
            && (forall j :: 0 <= j < s.total ==>
                  r.state.peers[target].bitfield[j]
                  == if i <= j < |bits| && bits[j] == 1 then 1 else s.peers[target].bitfield[j])
            && (forall q :: q in s.peers && q != target ==> r.state.peers[q] == s.peers[q])
            && r.state.peers[target].choked == s.peers[target].choked
    decreases |bits| - i
  {
    if i < |bits| {
      if bits[i] == 1 {
        var s' := R.UpdatePeerBitfield(s, target, i).value;
        IngestSetsReportedBits(s', target, bits, i + 1);
      } else {
        IngestSetsReportedBits(s, target, bits, i + 1);
      }
    }
  }

  // ---------------------------------------------------------------------
  // handle_messages
  // ---------------------------------------------------------------------

  /**
   * The registry and the piece table after one message, what was written, and
   * whether the loop goes on (an exception ends `handle_messages`).
   */
  datatype Outcome = Outcome(state: R.State, pieces: Storage.Pieces, sent: seq<Sent>, alive: bool)

  /** The piece index the client reads out of a PIECE payload: bytes [6:9]. */
  function PieceIndexOf(payload: seq<byte>): (r: nat)
    ensures r < Pow256(3)
  {
    FromBytes(Slice(payload, 6, 9))
  }

  /**
   * One iteration of `handle_messages` for a message from `target` on
   * `conn`; `self` is the listener's id and `fileTotal` the FileManager's
   * piece count.
   */
  function ClientStep(s: R.State, pieces: Storage.Pieces, fileTotal: nat, self: int, conn: Socket,
                      target: int, m: Parsed): (r: Outcome)
    requires R.Valid(s)
    ensures R.Valid(r.state)
    ensures r.state.peers.Keys == s.peers.Keys && r.state.order == s.order
    ensures !r.alive ==> r.state == s && r.pieces == pieces && r.sent == []
  {
    var t := m.msgType;
    var p := m.payload;
    if t == CHOKE then Outcome(R.SetChoked(s, target, true), pieces, [], true)
    else if t == UNCHOKE then
      var s' := R.SetChoked(R.SetChoked(s, self, false), target, false);
      Outcome(s', pieces, RequestSends(s', conn, target), true)
    else if t == HAVE then
      match R.UpdatePeerBitfield(s, target, FromBytes(Slice(p, 0, 4)))
      case Err(_) => Outcome(s, pieces, [], false)
      case Ok(s') => Outcome(s', pieces, [], true)
    else if t == PIECE then
      var index := PieceIndexOf(p);
      match Storage.Save(pieces, fileTotal, index, Slice(p, 9, |p|))
      case Err(_) => Outcome(s, pieces, [], false)
      case Ok(pieces') =>
        var s' := R.MarkPieceDownloaded(s, index);
        assert Pow256(3) < Pow256(4);
        Outcome(s', pieces', HaveSends(s', Some(self), index).value, true)
    else if t == INTERESTED then
      if R.IsPeerChoked(s, target) then
        Outcome(R.SetChoked(s, target, false), pieces, SendMessage(Live(conn), UNCHOKE, []), true)
      else Outcome(s, pieces, [], true)
    else Outcome(s, pieces, [], true)
  }

  /** The registry, the piece table and the frames written over a whole session. */
  datatype Run = Run(state: R.State, pieces: Storage.Pieces, sent: seq<Sent>)

  /**
   * The `while True` of `handle_messages`: until a receive gives None or
   * raises, or a handler raises; `handle_messages` catches either exception.
   */
  function HandleLoop(s: R.State, pieces: Storage.Pieces, fileTotal: nat, self: int, conn: Socket,
                      target: int, inbox: seq<Segment>): (r: Run)
    requires R.Valid(s)
    ensures R.Valid(r.state) && r.state.peers.Keys == s.peers.Keys
    decreases |Flatten(inbox)|
  {
    var received := Receive(inbox);
    if !received.reply.Got? then Run(s, pieces, [])
    else
      ReceiveConsumes(inbox);
      var step := ClientStep(s, pieces, fileTotal, self, conn, target, received.reply.msg);
      if !step.alive then Run(step.state, step.pieces, step.sent)
      else
        var tail := HandleLoop(step.state, step.pieces, fileTotal, self, conn, target, received.rest);
        Run(tail.state, tail.pieces, step.sent + tail.sent)
  }

  /** One round of `handle_messages`: a received message is handled, then the loop goes on unless it raised. */
  lemma HandleLoopUnfold(s: R.State, pieces: Storage.Pieces, fileTotal: nat, self: int, conn: Socket,
                         target: int, inbox: seq<Segment>)
    requires R.Valid(s) && Receive(inbox).reply.Got?
    ensures var step := ClientStep(s, pieces, fileTotal, self, conn, target, Receive(inbox).reply.msg);
            && R.Valid(step.state)
            && HandleLoop(s, pieces, fileTotal, self, conn, target, inbox)
               == if !step.alive then Run(step.state, step.pieces, step.sent)
                  else
                    var tail := HandleLoop(step.state, step.pieces, fileTotal, self, conn, target, Receive(inbox).rest);
                    Run(tail.state, tail.pieces, step.sent + tail.sent)
  {
  }

  /** A receive that gives None or raises ends `handle_messages` with nothing more done. */
  lemma HandleLoopStops(s: R.State, pieces: Storage.Pieces, fileTotal: nat, self: int, conn: Socket,
                        target: int, inbox: seq<Segment>)
    requires R.Valid(s) && !Receive(inbox).reply.Got?
    ensures HandleLoop(s, pieces, fileTotal, self, conn, target, inbox) == Run(s, pieces, [])
  {
  }

  /**
   * `connect_to_peer` once the socket is connected: handshake, registration,
   * bitfield exchange, the interest message, then `handle_messages` on the
   * same connection. A handshake that cannot be built, a first reply whose
   * receive raises, or an exception in the ingest loop or in `is_interested`
   * ends it, caught by `connect_to_peer`.
   */
  function Connect(s: R.State, pieces: Storage.Pieces, fileTotal: nat, self: int, conn: Socket,
                   target: int, inbox: seq<Segment>): (r: Run)
    requires R.Valid(s)
    ensures R.Valid(r.state)
  {
    match CreateHandshake(self)
    case Err(_) => Run(s, pieces, [])
    case Ok(handshake) =>
      var registered := R.AddPeer(R.AddPeer(s, self, None), target, Some(conn));
      var opening := [Sent(conn, handshake)] + BitfieldSends(registered, conn);
      var received := Receive(inbox);
      if received.reply.Raised? then Run(registered, pieces, opening)
      else
      var isBitfield := received.reply.Got? && received.reply.msg.msgType == BITFIELD;
      var peerBits: seq<int> := if isBitfield then received.reply.msg.payload else BitField.Initialize(false, s.total);
      var ingested := if isBitfield then IngestFrom(registered, target, peerBits, 0) else Partial(registered, true);
      if !ingested.ok then Run(ingested.state, pieces, opening)
      else
        match InterestFrom(peerBits, ingested.state.bitfield, 0)
        case Err(_) => Run(ingested.state, pieces, opening)
        case Ok(interested) =>
          var declared := SendMessage(Live(conn), if interested then INTERESTED else NOT_INTERESTED, []);
          var loop := HandleLoop(ingested.state, pieces, fileTotal, self, conn, target, received.rest);
          Run(loop.state, loop.pieces, opening + declared + loop.sent)
  }

  // ---------------------------------------------------------------------
  // Properties of the client's handlers
  // ---------------------------------------------------------------------

  /**
   * A PIECE as the server sends it (`Piece.create(i, d)` framed again) is
   * decoded by reading payload[6:9] and payload[9:], which give back i
   * (when i < 2^24) and d.
   */
  lemma NestedPieceDecodes(i: nat, d: seq<byte>)
    requires i < Pow256(3) && |d| + 10 < Pow256(4)
    ensures Piece(i, d).Ok? && CreateMessage(PIECE, Piece(i, d).value).Ok?
    ensures var p := ParseMessage(CreateMessage(PIECE, Piece(i, d).value).value).value.payload;
            PieceIndexOf(p) == i && Slice(p, 9, |p|) == d
  {
    assert Pow256(3) < Pow256(4);
    var q := Piece(i, d).value;
    ParseCreate(PIECE, q);
    ParseCreate(PIECE, ToBytes(i, 4) + d);
    assert q[5..] == ToBytes(i, 4) + d;
    assert Slice(q, 6, 9) == ToBytes(i, 4)[1..];
    assert Slice(q, 9, |q|) == d;
    LowThreeBytes(i);
  }

  /** A HAVE as `trigger_have` sends it (4-byte payload) is read back at [:4] as its index. */
  lemma HaveIndexDecodes(i: nat)
    requires i < Pow256(4)
    ensures FromBytes(Slice(ParseMessage(Have(i).value).value.payload, 0, 4)) == i
  {
    FromToBytes(i, 4);
    var payload := ParseMessage(Have(i).value).value.payload;
    assert payload == ToBytes(i, 4);
    assert Slice(payload, 0, 4) == ToBytes(i, 4);
  }

  /** CHOKE marks the target choked, touches no other peer and sends nothing. */
  lemma ChokeMarksTargetChoked(s: R.State, pieces: Storage.Pieces, fileTotal: nat, self: int,
                               conn: Socket, target: int, p: seq<byte>)
    requires R.Valid(s) && target in s.peers
    ensures var r := ClientStep(s, pieces, fileTotal, self, conn, target, Parsed(CHOKE, p));
            && r.alive && r.pieces == pieces && r.sent == []
            && r.state.peers[target] == s.peers[target].(choked := true)
            && (forall q :: q in s.peers && q != target ==> r.state.peers[q] == s.peers[q])
  {
  }

  /**
   * A HAVE for piece i, as `trigger_have` sends it, sets bit i of the
   * target's bitfield; when `update_peer_bitfield` raises, the session ends
   * with nothing changed. Nothing is sent either way.
   */
  lemma HaveSetsReportedBit(s: R.State, pieces: Storage.Pieces, fileTotal: nat, self: int,
                            conn: Socket, target: int, i: nat)
    requires R.Valid(s) && i < Pow256(4)
    ensures var r := ClientStep(s, pieces, fileTotal, self, conn, target, ParseMessage(Have(i).value).value);
            && r.pieces == pieces && r.sent == []
            && (r.alive <==> R.UpdatePeerBitfield(s, target, i).Ok?)
            && (r.alive ==> Ok(r.state) == R.UpdatePeerBitfield(s, target, i))
            && (!r.alive ==> r.state == s)
  {
    HaveIndexDecodes(i);
  }

  /**
   * A PIECE whose index is valid for the FileManager stores the data, marks
   * the piece downloaded and announces it with HAVE to every other peer with
   * a socket; an invalid index raises and ends the session unchanged.
   */
  lemma PieceStoredAndAnnounced(s: R.State, pieces: Storage.Pieces, fileTotal: nat, self: int,
                                conn: Socket, target: int, p: seq<byte>)
    requires R.Valid(s)
    ensures var r := ClientStep(s, pieces, fileTotal, self, conn, target, Parsed(PIECE, p));
            var i := PieceIndexOf(p);
            && (i < fileTotal ==>
                  && r.alive
                  && r.pieces == pieces[i := Slice(p, 9, |p|)]
                  && r.state == R.MarkPieceDownloaded(s, i)
                  && HaveSends(r.state, Some(self), i) == Some(r.sent))
            && (i >= fileTotal ==> !r.alive && r.state == s && r.pieces == pieces && r.sent == [])
  {
    assert Pow256(3) < Pow256(4);
  }

  /** UNCHOKE marks both the listener's id and the target unchoked, then requests pieces. */
  lemma UnchokeRequests(s: R.State, pieces: Storage.Pieces, fileTotal: nat, self: int,
                        conn: Socket, target: int, p: seq<byte>)
    requires R.Valid(s)
    ensures var r := ClientStep(s, pieces, fileTotal, self, conn, target, Parsed(UNCHOKE, p));
            && r.state == R.SetChoked(R.SetChoked(s, self, false), target, false)
            && (target in s.peers ==> !r.state.peers[target].choked)
            && r.sent == RequestFrames(conn, Wanted(r.state, target, 0))
            && r.alive && r.pieces == pieces
  {
  }

  /** INTERESTED from a choked target answers UNCHOKE and unchokes it; otherwise nothing. */
  lemma InterestedAnswered(s: R.State, pieces: Storage.Pieces, fileTotal: nat, self: int,
                           conn: Socket, target: int, p: seq<byte>)
    requires R.Valid(s)
    ensures var r := ClientStep(s, pieces, fileTotal, self, conn, target, Parsed(INTERESTED, p));
            && (R.IsPeerChoked(s, target) ==>
                  r.state == R.SetChoked(s, target, false) && r.sent == [Sent(conn, [0, 0, 0, 1, UNCHOKE])])
            && (!R.IsPeerChoked(s, target) ==> r.state == s && r.sent == [])
  {
    EmptyFrame(UNCHOKE);
  }

  /** A client never acts on BITFIELD, REQUEST or NOT_INTERESTED once the session runs. */
  lemma IgnoredMessages(s: R.State, pieces: Storage.Pieces, fileTotal: nat, self: int,
                        conn: Socket, target: int, m: Parsed)
    requires R.Valid(s)
    requires m.msgType == BITFIELD || m.msgType == REQUEST || m.msgType == NOT_INTERESTED || m.msgType > PIECE
    ensures ClientStep(s, pieces, fileTotal, self, conn, target, m) == Outcome(s, pieces, [], true)
  {
  }

  /**
   * Without a BITFIELD reply the client declares NOT_INTERESTED right after
   * its handshake and bitfield.
   */
  lemma NoBitfieldNotInterested(s: R.State, pieces: Storage.Pieces, fileTotal: nat, self: int,
                                conn: Socket, target: int, inbox: seq<Segment>)
    requires R.Valid(s) && CreateHandshake(self).Ok?
    requires Receive(inbox).reply.Closed? || (Receive(inbox).reply.Got? && Receive(inbox).reply.msg.msgType != BITFIELD)
    ensures var registered := R.AddPeer(R.AddPeer(s, self, None), target, Some(conn));
            var opening := [Sent(conn, CreateHandshake(self).value)] + BitfieldSends(registered, conn);
            var r := Connect(s, pieces, fileTotal, self, conn, target, inbox);
            |r.sent| >= |opening| + 1 && r.sent[..|opening| + 1] == opening + [Sent(conn, [0, 0, 0, 1, NOT_INTERESTED])]
  {
    var registered := R.AddPeer(R.AddPeer(s, self, None), target, Some(conn));
    AllZerosNotInterested(s.total, registered.bitfield);
    EmptyFrame(NOT_INTERESTED);
    var opening := [Sent(conn, CreateHandshake(self).value)] + BitfieldSends(registered, conn);
    var loop := HandleLoop(registered, pieces, fileTotal, self, conn, target, Receive(inbox).rest);
    var declared := [Sent(conn, [0, 0, 0, 1, NOT_INTERESTED])];
    assert (opening + declared + loop.sent)[..|opening| + 1] == opening + declared;
  }

  /**
   * With a BITFIELD as first reply, the client ingests it into the target's
   * entry, leaving the local bitfield alone; when the ingest or
   * `is_interested` raises, the connection ends after the opening frames.
   */
  lemma BitfieldReplyIngested(s: R.State, pieces: Storage.Pieces, fileTotal: nat, self: int,
                              conn: Socket, target: int, inbox: seq<Segment>, p: seq<byte>)
    requires R.Valid(s) && CreateHandshake(self).Ok?
    requires Receive(inbox).reply == Got(Parsed(BITFIELD, p))
    ensures var registered := R.AddPeer(R.AddPeer(s, self, None), target, Some(conn));
            var ingested := IngestFrom(registered, target, p, 0);
            var r := Connect(s, pieces, fileTotal, self, conn, target, inbox);
            && ingested.state.bitfield == s.bitfield
            && (!ingested.ok || InterestFrom(p, s.bitfield, 0).Err? ==>
                  r == Run(ingested.state, pieces, [Sent(conn, CreateHandshake(self).value)] + BitfieldSends(registered, conn)))
  {
  }

  /**
   * After a BITFIELD reply that is ingested without error, the client
   * declares INTERESTED exactly when the reported bits hold a piece the
   * local bitfield lacks, and NOT_INTERESTED otherwise.
   */
  lemma BitfieldReplyDeclares(s: R.State, pieces: Storage.Pieces, fileTotal: nat, self: int,
                              conn: Socket, target: int, inbox: seq<Segment>, p: seq<byte>, interested: bool)
    requires R.Valid(s) && CreateHandshake(self).Ok?
    requires Receive(inbox).reply == Got(Parsed(BITFIELD, p))
    requires IngestFrom(R.AddPeer(R.AddPeer(s, self, None), target, Some(conn)), target, p, 0).ok
    requires InterestFrom(p, s.bitfield, 0) == Ok(interested)
    ensures var registered := R.AddPeer(R.AddPeer(s, self, None), target, Some(conn));
            var opening := [Sent(conn, CreateHandshake(self).value)] + BitfieldSends(registered, conn);
            var r := Connect(s, pieces, fileTotal, self, conn, target, inbox);
            |r.sent| >= |opening| + 1
            && r.sent[..|opening| + 1] == opening + [Sent(conn, [0, 0, 0, 1, if interested then INTERESTED else NOT_INTERESTED])]
  {
    var registered := R.AddPeer(R.AddPeer(s, self, None), target, Some(conn));
    var opening := [Sent(conn, CreateHandshake(self).value)] + BitfieldSends(registered, conn);
    var ingested := IngestFrom(registered, target, p, 0);
    var declared := if interested then INTERESTED else NOT_INTERESTED;
    EmptyFrame(declared);
    var loop := HandleLoop(ingested.state, pieces, fileTotal, self, conn, target, Receive(inbox).rest);
    var frame := [Sent(conn, [0, 0, 0, 1, declared])];
    assert (opening + frame + loop.sent)[..|opening| + 1] == opening + frame;
  }

  /**
   * A first reply whose receive raises (a zero length field, a body cut
   * short, a frame that does not parse) ends `connect_to_peer` right after
   * the handshake and the bitfield: no interest message, no message loop.
   */
  lemma RaisedReplyEndsConnect(s: R.State, pieces: Storage.Pieces, fileTotal: nat, self: int,
                               conn: Socket, target: int, inbox: seq<Segment>)
    requires R.Valid(s) && CreateHandshake(self).Ok?
    requires Receive(inbox).reply.Raised?
    ensures var registered := R.AddPeer(R.AddPeer(s, self, None), target, Some(conn));
            Connect(s, pieces, fileTotal, self, conn, target, inbox)
              == Run(registered, pieces, [Sent(conn, CreateHandshake(self).value)] + BitfieldSends(registered, conn))
  {
  }

  /** The client side: its own id and the PeerManager it shares with the server side. */
  class ClientListener {
    const peerId: int
    const peerManager: Peers.PeerManager

    constructor (peerId: int, peerManager: Peers.PeerManager)
      ensures this.peerId == peerId && this.peerManager == peerManager
    {
      this.peerId := peerId;
      this.peerManager := peerManager;
    }

    /** `is_interested`: the loop with its early return. */
    method IsInterested(peerBitfield: seq<int>) returns (r: Result<bool, R.Fault>)
      ensures r == InterestFrom(peerBitfield, peerManager.bitfield, 0)
    {
      var local := peerManager.bitfield;
      for i := 0 to |peerBitfield|
        invariant InterestFrom(peerBitfield, local, 0) == InterestFrom(peerBitfield, local, i)
      {
        if peerBitfield[i] == 1 {
          if i >= |local| {
            return Err(R.IndexError);
          }
          if local[i] == 0 {
            return Ok(true);
          }
        }
      }
      return Ok(false);
    }

    /** `request_pieces`: one pass over the piece indices, sending a REQUEST for each eligible one. */
    method RequestPieces(conn: Socket, target: int) returns (sent: seq<Sent>)
      requires peerManager.Valid()
      ensures sent == RequestSends(peerManager.State(), conn, target)
    {
      var s := peerManager.State();
      sent := [];
      for pieceIndex := 0 to s.total
        invariant RequestSends(s, conn, target) == sent + RequestFrames(conn, Wanted(s, target, pieceIndex))
      {
        if target !in s.peers || pieceIndex >= |s.peers[target].bitfield| {
          WantedAt(s, target, pieceIndex);
          assert sent + [] == sent;
          return;
        }
        RequestStep(s, conn, target, pieceIndex);
        var isNeeded := s.bitfield[pieceIndex] == 0;
        var isAvailable := s.peers[target].bitfield[pieceIndex] == 1;
        var isNotChoked := !R.IsPeerChoked(s, target);
        if isNeeded && isAvailable && isNotChoked {
          var requestMessage := Request(pieceIndex);
          if requestMessage.Err? {
            assert sent + [] == sent;
            return;
          }
          var frame := SendMessage(Live(conn), REQUEST, requestMessage.value);
          Associative(sent, frame, RequestFrames(conn, Wanted(s, target, pieceIndex + 1)));
          sent := sent + frame;
        }
      }
    }

    /**
     * `trigger_have` of the client side: HAVE to every registered peer other
     * than the listener's own id whose socket is not None. `ok` is false when
     * the index does not fit in 4 bytes.
     */
    method TriggerHave(targetPeerId: int, pieceIndex: int) returns (sent: seq<Sent>, ok: bool)
      requires peerManager.Valid()
      ensures HaveSends(peerManager.State(), Some(peerId), pieceIndex) == if ok then Some(sent) else None
    {
      if !(0 <= pieceIndex < Pow256(4)) {
        return [], false;
      }
      var payload := ToBytes(pieceIndex, 4);
      var peers := peerManager.connectedPeers;
      var order := peerManager.order;
      sent := [];
      for k := 0 to |order|
        invariant sent == Broadcast(peers, HaveTargets(peers, order[..k], Some(peerId)), payload)
      {
        BroadcastStep(peers, order, Some(peerId), k, payload);
        var id := order[k];
        if id != peerId {
          if peers[id].socket.Some? {
            sent := sent + SendMessage(Live(peers[id].socket.value), HAVE, payload);
          }
        }
      }
      assert order[..|order|] == order;
      return sent, true;
    }

    /** One iteration of `handle_messages`; `alive` is false when the handler raised. */
    method HandleMessage(conn: Socket, target: int, msgType: int, payload: seq<byte>)
      returns (sent: seq<Sent>, alive: bool)
      requires peerManager.Valid()
      modifies peerManager, peerManager.fileManager
      ensures peerManager.Valid()
      ensures var o := ClientStep(old(peerManager.State()), old(peerManager.fileManager.pieces),
                                  peerManager.fileManager.totalPieces, peerId, conn, target,
                                  Parsed(msgType, payload));
              && peerManager.State() == o.state && peerManager.fileManager.pieces == o.pieces
              && sent == o.sent && alive == o.alive
    {
      sent, alive := [], true;
      if msgType == CHOKE {
        peerManager.MarkPeerChoked(target);
      } else if msgType == UNCHOKE {
        peerManager.MarkPeerUnchoked(peerId);
        peerManager.MarkPeerUnchoked(target);
        sent := RequestPieces(conn, target);
      } else if msgType == HAVE {
        var pieceIndex := FromBytes(Slice(payload, 0, 4));
        alive := peerManager.UpdatePeerBitfield(target, pieceIndex);
      } else if msgType == PIECE {
        var pieceIndex := FromBytes(Slice(payload, 6, 9));
        var pieceData := Slice(payload, 9, |payload|);
        var saved := peerManager.fileManager.SavePiece(pieceIndex, pieceData);
        if !saved {
          return [], false;
        }
        peerManager.MarkPieceDownloaded(pieceIndex);
        assert Pow256(3) < Pow256(4);
        var announced, _ := TriggerHave(target, pieceIndex);
        sent := announced;
      } else if msgType == INTERESTED {
        var choked := peerManager.IsPeerChoked(target);
        if choked {
          sent := SendMessage(Live(conn), UNCHOKE, []);
          peerManager.MarkPeerUnchoked(target);
        }
      }
    }

    /**
     * One round of `handle_messages`: a receive and, when it gives a message,
     * its handler. `more` is false when the loop stops here.
     */
    method HandleRound(conn: Socket, target: int, inbox: seq<Segment>)
      returns (sent: seq<Sent>, more: bool, rest: seq<Segment>)
      requires peerManager.Valid()
      modifies peerManager, peerManager.fileManager
      ensures peerManager.Valid()
      ensures more ==> |Flatten(rest)| < |Flatten(inbox)|
      ensures var fileTotal := peerManager.fileManager.totalPieces;
              var t := HandleLoop(peerManager.State(), peerManager.fileManager.pieces, fileTotal,
                                  peerId, conn, target, rest);
              HandleLoop(old(peerManager.State()), old(peerManager.fileManager.pieces), fileTotal,
                         peerId, conn, target, inbox)
                == if more then Run(t.state, t.pieces, sent + t.sent)
                   else Run(peerManager.State(), peerManager.fileManager.pieces, sent)
    {
      ghost var before := peerManager.State();
      ghost var piecesBefore := peerManager.fileManager.pieces;
      var fileTotal := peerManager.fileManager.totalPieces;
      var reply;
      reply, rest := ReceiveMessage(inbox);
      if !reply.Got? {
        HandleLoopStops(before, piecesBefore, fileTotal, peerId, conn, target, inbox);
        return [], false, rest;
      }
      ReceiveConsumes(inbox);
      HandleLoopUnfold(before, piecesBefore, fileTotal, peerId, conn, target, inbox);
      sent, more := HandleMessage(conn, target, reply.msg.msgType, reply.msg.payload);
    }

    /** `handle_messages`: receive and handle until the peer closes, a receive raises or a handler raises. */
    method HandleMessages(conn: Socket, target: int, inbox: seq<Segment>) returns (sent: seq<Sent>)
      requires peerManager.Valid()
      modifies peerManager, peerManager.fileManager
      ensures peerManager.Valid()
      ensures Run(peerManager.State(), peerManager.fileManager.pieces, sent)
              == HandleLoop(old(peerManager.State()), old(peerManager.fileManager.pieces),
                            peerManager.fileManager.totalPieces, peerId, conn, target, inbox)
    {
      var fileTotal := peerManager.fileManager.totalPieces;
      ghost var whole := HandleLoop(peerManager.State(), peerManager.fileManager.pieces, fileTotal,
                                    peerId, conn, target, inbox);
      sent := [];
      var rest := inbox;
      while true
        invariant peerManager.Valid()
        invariant var t := HandleLoop(peerManager.State(), peerManager.fileManager.pieces, fileTotal,
                                      peerId, conn, target, rest);
                  whole.state == t.state && whole.pieces == t.pieces && whole.sent == sent + t.sent
        decreases |Flatten(rest)|
      {
        var out, more, rest' := HandleRound(conn, target, rest);
        if !more {
          sent := sent + out;
          break;
        }
        ghost var tail := HandleLoop(peerManager.State(), peerManager.fileManager.pieces, fileTotal,
                                     peerId, conn, target, rest');
        assert sent + (out + tail.sent) == (sent + out) + tail.sent;
        sent := sent + out;
        rest := rest';
      }
    }

    /** The ingest loop of `connect_to_peer`; `ok` is false when an update raised. */
    method IngestBitfield(target: int, peerBitfield: seq<int>) returns (ok: bool)
      requires peerManager.Valid()
      modifies peerManager
      ensures peerManager.Valid()
      ensures IngestFrom(old(peerManager.State()), target, peerBitfield, 0) == Partial(peerManager.State(), ok)
    {
      ghost var whole := IngestFrom(peerManager.State(), target, peerBitfield, 0);
      for i := 0 to |peerBitfield|
        invariant peerManager.Valid()
        invariant whole == IngestFrom(peerManager.State(), target, peerBitfield, i)
      {
        if peerBitfield[i] == 1 {
          var updated := peerManager.UpdatePeerBitfield(target, i);
          if !updated {
            return false;
          }
        }
      }
      return true;
    }

    /** `connect_to_peer` after the socket is connected, over the bytes the peer will send. */
    method ConnectToPeer(conn: Socket, target: int, inbox: seq<Segment>) returns (sent: seq<Sent>)
      requires peerManager.Valid()
      modifies peerManager, peerManager.fileManager
      ensures peerManager.Valid()
      ensures Run(peerManager.State(), peerManager.fileManager.pieces, sent)
              == Connect(old(peerManager.State()), old(peerManager.fileManager.pieces),
                         peerManager.fileManager.totalPieces, peerId, conn, target, inbox)
    {
      var handshake := CreateHandshake(peerId);
      if handshake.Err? {
        return [];
      }
      sent := [Sent(conn, handshake.value)];
      peerManager.AddPeer(peerId, None);
      peerManager.AddPeer(target, Some(conn));
      var bitfield := peerManager.GetBitfield();
      if bitfield != [] {
        var payload: seq<byte> := bitfield;
        sent := sent + SendMessage(Live(conn), BITFIELD, payload);
      } else {
        assert sent + [] == sent;
      }
      var bitfieldMessage, rest := ReceiveMessage(inbox);
      if bitfieldMessage.Raised? {
        return;
      }
      var peerBitfield: seq<int>;
      if bitfieldMessage.Got? && bitfieldMessage.msg.msgType == BITFIELD {
        peerBitfield := bitfieldMessage.msg.payload;
        var ingested := IngestBitfield(target, peerBitfield);
        if !ingested {
          return;
        }
      } else {
        peerBitfield := BitField.Initialize(false, peerManager.totalPieces);
      }
      var interested := IsInterested(peerBitfield);
      if interested.Err? {
        return;
      }
      var declared := SendMessage(Live(conn), if interested.value then INTERESTED else NOT_INTERESTED, []);
      sent := sent + declared;
      var handled := HandleMessages(conn, target, rest);
      sent := sent + handled;
    }
  }
}
