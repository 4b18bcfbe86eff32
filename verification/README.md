# P2PFileTransfer peer engine in Dafny

A verified model of the protocol engine of a BitTorrent-style file-sharing
peer: the wire codec and handshake, the piece bit-vector helpers, the peer
registry (`PeerManager`), the per-connection dispatch of the server side
(`ServerListener`) and of the client side (`ClientListener`), and the
in-memory piece table of `FileManager`.

Modules, one concept each:

- `Wrappers`: `Option` and `Result`.
- `Bytes`: big-endian `int.to_bytes` / `int.from_bytes` and Python slicing.
- `Indices`: the index range `[0, n)` as a set.
- `Message`: `create_message` / `parse_message`, `Have` / `Request` /
  `Piece.create`, `Handshake`.
- `BitField`: `initialize` (a function) and `update` (a method on an `array`,
  which is how the source mutates the list in place, negative indices
  included).
- `Wire`: `ConnectionManager.send_message` and `receive_message`. A socket's
  incoming side is the sequence of TCP segments still to be read, each
  non-empty. `recv(n)` hands out at most n bytes of the first segment. An
  exhausted sequence means the peer has closed. Everything written is
  returned as `Sent(socket, frame)` records.
- `Registry`: the `PeerManager` state as a value, and each of its
  operations as a function from state to state. `Valid` states the
  invariants that every operation keeps:
  - the local bitfield has `total` bits, each 0 or 1;
  - `order` lists the registered ids without repetition;
  - `order` has exactly the keys of `peers`.
- `Peers`: the `PeerManager` class. Each mutating method ensures
  `State() == Registry.F(old(State()), …)`. The query methods are loops
  proved against the `Registry` functions.
- `Storage`: `FileManager` as a class over the `pieces` map, with the pure
  functions its loops are proved against.
- `Session`: what both listeners share: the BITFIELD opening and the HAVE
  broadcast of `trigger_have`.
- `Server`: `ServerListener`. `handle_message` is a pure step function
  `ServerStep`. The `while True` loop of `handle_connection` is `ServeLoop`.
  The class methods are proved equal to these.
- `Client`: `ClientListener`. Its handlers, as pure functions:
  - `is_interested` is `InterestFrom`;
  - the selection made by `request_pieces` is `Wanted`;
  - the bitfield ingest of `connect_to_peer` is `IngestFrom`;
  - one round of `handle_messages` is `ClientStep`.

  The class methods with their loops are proved equal to these functions.

Python dictionaries iterate in insertion order, and `trigger_have` and
`get_peers_with_piece` depend on that order. The registry therefore keeps it
in `order`.

The quirks of the code are modelled as written, and lemmas state their effect:

- **Double framing.** `send_message` frames an already framed
  `Request.create` / `Piece.create` result again. Lemmas: `NestedRequestDecodes`
  and `NestedPieceDecodes`.
- **Extra byte in REQUEST.** The REQUEST payload carries an extra `0x06` byte.
  Lemma: `Message.Request`.
- **UNCHOKE marks the wrong id.** The server's UNCHOKE handler marks the
  listener's own id. Lemma: `UnchokeMarksLocalId`.
- **Swapped arguments.** `send_choke` receives its arguments swapped, so no
  CHOKE is ever sent. Lemma: `NotInterestedSendsNoChoke`.
- **Server-side HAVE parsing.** The server reads the HAVE index from
  `payload[7:10]`, which is empty for a real 4-byte HAVE. It therefore always
  reads piece 0. Lemma: `ShortHaveReadsPieceZero`.
- **Client-side HAVE parsing.** The client reads `payload[:4]`. Lemma:
  `HaveIndexDecodes`.
- **Receive errors escape.** `receive_message`'s first handler is
  `except socket.timeout`, where `socket` is the method's socket parameter.
  Its `timeout` attribute is None on a blocking socket. Python evaluates that
  clause when any exception arrives and raises TypeError, because None is not
  an exception class. So a zero length field, a body cut short and a frame
  that does not parse all make `receive_message` raise. Only an empty header
  read gives None. Both message loops catch the TypeError and stop. In
  `connect_to_peer` it ends the connection before the interest message.
  Lemmas: `Wire.ZeroLengthRaises` and `Client.RaisedReplyEndsConnect`.

A local bit of 1 does not mean that the piece is in `downloaded_pieces`:
`initialize_peer_bitfield(True)` sets every bit and records nothing as
downloaded. The registry keeps only the other direction,
`Registry.DownloadsRecorded`: every downloaded piece is in range and its
local bit is 1. `Registry.InitializeBitfieldRecords` shows that
`initialize_peer_bitfield` keeps it.

## Model

| member | source | states |
|---|---|---|
| BitField.Initialize | project/utils/bitfield.py:3-6 | the list has `total_pieces` entries, all 1 with the complete file and all 0 otherwise |
| BitField.Position | project/utils/bitfield.py:9-10 | a Python index in `[-len, len)` names a position in `[0, len)`; a non-negative index is that position |
| BitField.Updated | project/utils/bitfield.py:9-10 | same length; the indexed entry becomes 1; every other entry is unchanged |
| BitField.UpdatedIdempotent | project/utils/bitfield.py:9-10 | updating twice at the same index equals updating once |
| BitField.Update | project/utils/bitfield.py:9-10 | in place on the array: succeeds exactly for indices in `[-len, len)`, leaving `Updated(old, i)`; otherwise raises IndexError and leaves the array unchanged |
| Bytes.ToBytes | project/utils/message.py:43 | `n.to_bytes(k, "big")` is exactly k bytes, defined only where n fits |
| Bytes.FromBytes | project/utils/message.py:57-58 | `int.from_bytes(s, "big")` is below `256^len(s)` |
| Bytes.FromToBytes | project/utils/message.py:43-57 | `from_bytes(to_bytes(n, k)) == n` for `n < 256^k` |
| Bytes.ToFromBytes | project/utils/message.py:43-57 | `to_bytes(from_bytes(s), len(s)) == s` |
| Bytes.LowThreeBytes | project/utils/connection.py:226 | the last three bytes of a 4-byte big-endian `n < 2^24` decode to `n` |
| Bytes.Slice | project/utils/connection.py:462-463 | Python slicing clips out-of-range bounds: the result length, and equality with the Dafny slice when in range |
| Indices.RangeSet | project/utils/file_manager.py:92 | `range(n)` as a set: exactly the integers in `[0, n)` |
| Indices.RangeSetSize | project/utils/peer_manager.py:131 | `[0, n)` has `n` elements |
| Indices.FullSubsetOfRange | project/utils/peer_manager.py:128-131 | a subset of `[0, n)` has `n` elements iff it is all of `[0, n)` |
| Message.CreateMessage | project/utils/message.py:38-50 | succeeds iff the type fits one byte and `len(p)+1 < 2^32` (else OverflowError); the frame is the 4-byte big-endian `len(p)+1`, then the type, then `p`, so `len(p)+5` bytes |
| Message.ParseMessage | project/utils/message.py:53-73 | InvalidMessageError below 5 bytes and whenever the payload is not `length-1` bytes; otherwise type = byte 4 and payload = bytes 5.. |
| Message.ParseCreate | project/utils/message.py:38-67 | `parse_message(create_message(t, p)) == (t, p)` whenever creation succeeds |
| Message.CreateParse | project/utils/message.py:53-67 | every parsable frame is `create_message` of what it parses to |
| Message.Have | project/utils/message.py:102-110 | ValueError below 0, OverflowError from 2^32; otherwise a 9-byte frame parsing to HAVE with the 4-byte index |
| Message.HaveFiveBytes | project/utils/message.py:102-107 | `Have.create(5)` is `00 00 00 05 04 00 00 00 05` |
| Message.EmptyFrame | project/utils/message.py:76-97 | the CHOKE / UNCHOKE / INTERESTED / NOT_INTERESTED frames are `00 00 00 01 t` |
| Message.Request | project/utils/message.py:115-123 | same error cases as HAVE; otherwise a 10-byte frame with length field 6 whose payload is `0x06` then the 4-byte index |
| Message.Piece | project/utils/message.py:128-138 | ValueError below 0; succeeds iff the index and the frame length fit 4 bytes; the frame parses to PIECE with the 4-byte index then the data |
| Message.CreateHandshake | project/utils/message.py:145-152 | ValueError outside `[0, 2^32)`; otherwise 32 bytes: HEADER, then the id in 4 big-endian bytes |
| Message.ParseHandshake | project/utils/message.py:155-164 | succeeds iff the input is 32 bytes starting with HEADER; the id is below 2^32 |
| Message.HandshakeRoundTrip | project/utils/message.py:145-161 | `parse_handshake(create_handshake(id)) == id` |
| Message.HandshakeParseCreate | project/utils/message.py:155-161 | every valid handshake is `create_handshake` of the id it carries |
| Wire.SendMessage | project/utils/connection.py:20-66 | at most one frame; one exactly when the socket argument is a socket and `create_message` succeeds; that frame parses back to `(t, payload)` |
| Wire.Recv | project/utils/connection.py:76 | `recv(n)` returns `min(n, first segment)` bytes; empty exactly when the peer has closed; it consumes exactly what it returns |
| Wire.ReadBody | project/utils/connection.py:95-102 | the body loop collects exactly `length` bytes iff that many remain before the peer closes |
| Wire.Receive | project/utils/connection.py:69-131 | ends with None exactly when the header read is empty, i.e. the peer has closed |
| Wire.ReceiveMessage | project/utils/connection.py:69-131 | the header read and the chunk loop compute `Receive`: a message; None when the header read is empty; raised (TypeError out of the `except socket.timeout` clause) on a zero length, a body cut short or a frame that does not parse |
| Wire.ZeroLengthRaises | project/utils/connection.py:84-87 | a length field of 0 makes `receive_message` raise, whatever follows |
| Wire.ReceivedIsFrame | project/utils/connection.py:76-111 | the bytes a successful receive consumed are exactly `create_message` of the returned `(type, payload)` |
| Wire.ReceiveConsumes | project/utils/connection.py:184-192 | each successful receive consumes input, so the receive loops end |
| Wire.ReceiveFrame | project/utils/connection.py:76-111 | a frame from `send_message` is received whole however TCP splits its body, and what follows it stays unread |
| Registry.Init | project/utils/peer_manager.py:10-17 | no peers, nothing downloaded, an all-zero bitfield of `total_pieces` bits; the invariants hold |
| Registry.InitializeBitfield | project/utils/peer_manager.py:19-28 | keeps the registry invariants |
| Registry.InitializeBitfieldContents | project/utils/peer_manager.py:22-24 | the bitfield is `total_pieces` ones or zeros; peers and downloads are untouched |
| Registry.InitializeBitfieldRecords | project/utils/peer_manager.py:19-24 | downloaded pieces still have bit 1, unless zeroing with downloads already recorded |
| Registry.AddPeer | project/utils/peer_manager.py:30-48 | keeps the registry invariants |
| Registry.AddPeerInserts | project/utils/peer_manager.py:33-40 | a new id gets the given socket, an all-zero bitfield of `total_pieces` bits, choked and not interested, last in order; nothing else changes |
| Registry.AddPeerTwice | project/utils/peer_manager.py:33-45 | adding an existing id changes nothing, so after any adds the id occurs once in the order |
| Registry.RemoveId | project/utils/peer_manager.py:54 | the order without the id contains exactly the other ids |
| Registry.RemoveIdDistinct | project/utils/peer_manager.py:54 | removing an id keeps the order free of repetitions |
| Registry.RemovePeer | project/utils/peer_manager.py:50-63 | keeps the registry invariants |
| Registry.RemovePeerDeletes | project/utils/peer_manager.py:53-60 | the id's entry is gone; other entries are unchanged; an absent id is a no-op |
| Registry.UpdatePeerBitfield | project/utils/peer_manager.py:65-86 | raises IndexError exactly when the id is known, the index is in range and the stored bitfield is shorter than it; keeps the invariants |
| Registry.UpdatePeerBitfieldSetsOneBit | project/utils/peer_manager.py:68-81 | a known id and an in-range index set exactly that bit of that peer; otherwise nothing changes |
| Registry.MarkPieceDownloaded | project/utils/peer_manager.py:88-107 | keeps the registry invariants and "every downloaded piece is in range with bit 1" |
| Registry.MarkPieceDownloadedEffect | project/utils/peer_manager.py:90-102 | an in-range index sets its local bit and joins the downloaded set, leaving the other bits; out of range is a no-op |
| Registry.MarkPieceDownloadedIdempotent | project/utils/peer_manager.py:90-92 | marking twice equals marking once |
| Registry.AllPiecesDownloadedIff | project/utils/peer_manager.py:128-134 | `len(downloaded) == total` iff the downloaded set is all of `[0, total)` |
| Registry.CompleteBitfieldFull | project/utils/peer_manager.py:128-134 | when all pieces are downloaded, every local bit is 1 |
| Registry.SetChoked | project/utils/peer_manager.py:144-168 | keeps the registry invariants |
| Registry.SetInterested | project/utils/peer_manager.py:180-210 | keeps the registry invariants |
| Registry.FlagSettersTouchOneFlag | project/utils/peer_manager.py:144-210 | each setter changes only that one flag of a known peer, and nothing for an unknown id |
| Registry.IsPeerChokedDefault | project/utils/peer_manager.py:170-178 | an unknown id counts as choked; after marking, the flag reads back |
| Registry.ReplacePeerBitfield | project/utils/connection.py:271-272 | keeps the registry invariants |
| Registry.Holders | project/utils/peer_manager.py:113-117 | IndexError iff some stored bitfield is too short; otherwise exactly the ids with bit i set |
| Registry.PeersWithPiece | project/utils/peer_manager.py:109-126 | `[]` out of range; otherwise exactly the registered ids whose bit i is 1, or IndexError when a stored bitfield is too short |
| Registry.ChokedIn | project/utils/peer_manager.py:214-218 | exactly the listed ids that are choked |
| Registry.ChokedPeers | project/utils/peer_manager.py:212-218 | exactly the registered ids that are choked |
| Registry.UnchokeCandidates | project/utils/peer_manager.py:222-226 | exactly the choked ids other than the local id |
| Registry.OptimisticUnchoke | project/utils/peer_manager.py:220-245 | keeps the registry invariants |
| Registry.OptimisticUnchokeNoCandidate | project/utils/peer_manager.py:227-229 | with no choked peer besides the local id, nothing changes and nobody is picked |
| Registry.OptimisticUnchokePicksChoked | project/utils/peer_manager.py:231-233 | otherwise it picks a choked peer other than the local id and unchokes exactly it |
| Peers.UnchokeSendsFrame | project/utils/peer_manager.py:233-239 | the UNCHOKE goes to the picked peer's socket as `00 00 00 01 01`, and nowhere when it has none |
| Peers.PeerManager.constructor | project/utils/peer_manager.py:10-17 | the state is `Registry.Init` |
| Peers.PeerManager.InitializePeerBitfield | project/utils/peer_manager.py:19-28 | the new state is `Registry.InitializeBitfield` of the old one |
| Peers.PeerManager.AddPeer | project/utils/peer_manager.py:30-48 | the new state is `Registry.AddPeer` of the old one |
| Peers.PeerManager.RemovePeer | project/utils/peer_manager.py:50-63 | the new state is `Registry.RemovePeer` of the old one |
| Peers.PeerManager.UpdatePeerBitfield | project/utils/peer_manager.py:65-86 | the new state is `Registry.UpdatePeerBitfield` of the old one; on IndexError nothing changes |
| Peers.PeerManager.MarkPieceDownloaded | project/utils/peer_manager.py:88-107 | the new state is `Registry.MarkPieceDownloaded` of the old one |
| Peers.PeerManager.GetPeersWithPiece | project/utils/peer_manager.py:109-126 | the comprehension loop computes `Registry.PeersWithPiece` |
| Peers.PeerManager.AllPiecesDownloaded | project/utils/peer_manager.py:128-134 | `len(downloaded_pieces) == total_pieces` |
| Peers.PeerManager.GetBitfield | project/utils/peer_manager.py:136-142 | a copy of the local bitfield, `total_pieces` long |
| Peers.PeerManager.MarkPeerChoked | project/utils/peer_manager.py:144-154 | the new state is `Registry.SetChoked(old, id, true)` |
| Peers.PeerManager.MarkPeerUnchoked | project/utils/peer_manager.py:156-168 | the new state is `Registry.SetChoked(old, id, false)` |
| Peers.PeerManager.IsPeerChoked | project/utils/peer_manager.py:170-178 | the stored flag, or true for an unknown id |
| Peers.PeerManager.MarkPeerInterested | project/utils/peer_manager.py:180-194 | the new state is `Registry.SetInterested(old, id, true)` |
| Peers.PeerManager.MarkPeerNotInterested | project/utils/peer_manager.py:196-210 | the new state is `Registry.SetInterested(old, id, false)` |
| Peers.PeerManager.ReplacePeerBitfield | project/utils/connection.py:271-272 | the new state is `Registry.ReplacePeerBitfield`; it fails with KeyError exactly for an unknown id |
| Peers.PeerManager.GetChokedPeers | project/utils/peer_manager.py:212-218 | the comprehension loop computes `Registry.ChokedPeers` |
| Peers.PeerManager.OptimisticUnchoking | project/utils/peer_manager.py:220-245 | the new state is `Registry.OptimisticUnchoke`; the only send is that UNCHOKE |
| Session.BitfieldSends | project/utils/connection.py:198-204 | nothing for an empty bitfield; otherwise one frame on the connection that parses to BITFIELD carrying the local bitfield |
| Session.HaveTargets | project/utils/connection.py:548-550 | an id is a target iff it is listed, has a socket and is not excluded |
| Session.HaveTargetsInOrder | project/utils/connection.py:548-550 | the targets are a subsequence of the dict order, and repeat no id when the order repeats none |
| Session.SubsequenceUnique | project/utils/connection.py:548-550 | a subsequence of a list without repetitions is fixed by the elements it keeps |
| Session.HaveTargetsExactly | project/utils/connection.py:548-550 | the targets are the only list that keeps the dict order, repeats no id and holds exactly the peers with a socket that are not excluded |
| Session.Broadcast | project/utils/connection.py:546-566 | one HAVE frame per target, in order, each on that target's socket |
| Session.HaveSends | project/utils/connection.py:546-547 | OverflowError from `to_bytes(4)` exactly outside `[0, 2^32)` |
| Session.HaveSendsExact | project/utils/connection.py:546-566 | one frame per target, each the `Have.create(i)` frame on that target's socket; the targets follow the dict order, each peer at most once |
| Server.ChokeSends | project/utils/connection.py:280-284 | a CHOKE frame goes out only when the argument in the socket position is a socket |
| Server.UnchokeStep | project/utils/connection.py:286-296 | one UNCHOKE frame on the connection; afterwards the peer is unchoked iff it is registered |
| Server.NestedIndex | project/utils/connection.py:226 | `payload[7:10]` read as a big-endian number, below 2^24 |
| Server.PieceReply | project/utils/connection.py:233-256 | a PIECE is sent iff the index is in range, the peer is not choked, the disk read is non-empty and both framings fit; it is the doubly framed `Piece.create` |
| Server.ServerStep | project/utils/connection.py:206-278 | keeps the invariants, the peer set, the order, the local bitfield and the downloads; at most one frame, on this connection |
| Server.ServeLoop | project/utils/connection.py:184-196 | runs until a receive gives None or raises; keeps the invariants and the peer set; everything goes out on this connection |
| Server.Serve | project/utils/connection.py:172-196 | keeps the registry invariants |
| Server.ServeRejectsBadHandshake | project/utils/connection.py:174-175 | an invalid first 32 bytes changes nothing and sends nothing |
| Server.ServeRegistersPeer | project/utils/connection.py:174-182 | a valid handshake registers the local id and the peer; every frame goes out on this connection |
| Server.InterestedUnchokes | project/utils/connection.py:208-215 | INTERESTED marks the peer interested and unchoked, touches no other peer, and answers `00 00 00 01 01` |
| Server.NotInterestedSendsNoChoke | project/utils/connection.py:217-223 | NOT_INTERESTED marks the peer not interested, and the swapped `send_choke` sends nothing |
| Server.UnchokeMarksLocalId | project/utils/connection.py:264-268 | UNCHOKE unchokes the local id and leaves the sender's entry alone |
| Server.ChokeMarksPeerChoked | project/utils/connection.py:258-263 | CHOKE marks the sender choked, touches no other peer and sends nothing |
| Server.ServerIgnoresOthers | project/utils/connection.py:208-276 | PIECE and every later type match no branch: nothing changes and nothing is sent |
| Server.BitfieldReplaces | project/utils/connection.py:269-272 | BITFIELD replaces the sender's stored bitfield by the payload; its socket and flags, the other peers and the rest of the registry are unchanged; nothing is sent |
| Server.ShortHaveReadsPieceZero | project/utils/connection.py:225-231 | a HAVE payload of at most 7 bytes (every real HAVE) marks piece 0 |
| Server.NestedRequestDecodes | project/utils/connection.py:234 | reading `payload[7:10]` of a framed `Request.create(i)` gives `i` for `i < 2^24` |
| Server.RequestRefused | project/utils/connection.py:237-247 | an out-of-range index, a choked peer or an empty disk read sends nothing and changes nothing |
| Server.RequestServed | project/utils/connection.py:248-254 | otherwise exactly the doubly framed `Piece.create(i, data)` is sent |
| Server.ServerListener.constructor | project/utils/connection.py:135-140 | stores the id and the shared registry |
| Server.ServerListener.SendUnchoke | project/utils/connection.py:286-296 | sends and updates as `UnchokeStep` |
| Server.ServerListener.SendChoke | project/utils/connection.py:280-284 | sends as `ChokeSends` |
| Server.ServerListener.HandleMessage | project/utils/connection.py:206-278 | state and sends are those of `ServerStep` |
| Server.ServerListener.HandleConnection | project/utils/connection.py:172-196 | state and sends are those of `Serve` |
| Server.ServerListener.MessageLoop | project/utils/connection.py:184-192 | the `while True` loop computes `ServeLoop` |
| Server.ServerListener.TriggerHave | project/utils/connection.py:298-307 | the loop over the peers computes `HaveSends` with nothing excluded, or fails on an index outside `[0, 2^32)` |
| Client.InterestFrom | project/utils/connection.py:414-418 | true only at a bit 1 the local bitfield lacks; IndexError only past the local bitfield; with the local bitfield long enough, true iff such a bit exists |
| Client.AllZerosNotInterested | project/utils/connection.py:372-374 | the all-zero stand-in for a missing BITFIELD is never interesting |
| Client.Wanted | project/utils/connection.py:509-544 | the requested indices, in ascending order, are in range and eligible: locally missing, held by the peer, and the peer is not choked |
| Client.WantedExact | project/utils/connection.py:511-527 | with the peer's bitfield covering every piece, an index is requested iff it is eligible |
| Client.RequestFrames | project/utils/connection.py:527-535 | one frame per requested index: the doubly framed `Request.create(i)` |
| Client.IngestFrom | project/utils/connection.py:364-366 | keeps the invariants, the peer set and the local bitfield |
| Client.IngestSetsReportedBits | project/utils/connection.py:364-366 | with the stored bitfield covering every piece, it sets exactly the reported bits below `total_pieces` and touches nothing else |
| Client.PieceIndexOf | project/utils/connection.py:462 | `payload[6:9]` read as a big-endian number, below 2^24 |
| Client.ClientStep | project/utils/connection.py:432-497 | keeps the invariants, the peer set and the order; a handler that raises has changed and sent nothing |
| Client.HandleLoop | project/utils/connection.py:420-507 | runs until a receive gives None or raises, or a handler raises; keeps the invariants and the peer set |
| Client.Connect | project/utils/connection.py:325-398 | keeps the registry invariants |
| Client.NestedPieceDecodes | project/utils/connection.py:461-463 | `payload[6:9]` and `payload[9:]` of a framed `Piece.create(i, d)` give back `i` (for `i < 2^24`) and `d` |
| Client.HaveIndexDecodes | project/utils/connection.py:453-454 | `payload[:4]` of a HAVE gives back its index |
| Client.PieceStoredAndAnnounced | project/utils/connection.py:461-470 | an in-range PIECE is saved, marked downloaded and announced to every other peer with a socket; out of range it raises before any change |
| Client.UnchokeRequests | project/utils/connection.py:440-451 | UNCHOKE unchokes the local id and the sender, then requests what `Wanted` selects |
| Client.InterestedAnswered | project/utils/connection.py:478-491 | INTERESTED from a choked peer answers UNCHOKE and unchokes it; otherwise nothing happens |
| Client.IgnoredMessages | project/utils/connection.py:472-497 | BITFIELD, REQUEST, NOT_INTERESTED and unknown types change and send nothing |
| Client.NoBitfieldNotInterested | project/utils/connection.py:358-389 | when the first reply is None or a message other than BITFIELD, the handshake and bitfield are followed by NOT_INTERESTED |
| Client.BitfieldReplyIngested | project/utils/connection.py:358-366 | a BITFIELD first reply is ingested without touching the local bitfield; when the ingest or `is_interested` raises, only the opening frames are sent |
| Client.BitfieldReplyDeclares | project/utils/connection.py:358-384 | after a BITFIELD reply ingested without error, the opening frames are followed by INTERESTED when `is_interested` holds and by NOT_INTERESTED otherwise |
| Client.RaisedReplyEndsConnect | project/utils/connection.py:345-398 | when the first receive raises, only the handshake and the bitfield are sent; no interest message, no message loop |
| Client.ChokeMarksTargetChoked | project/utils/connection.py:433-439 | CHOKE marks the target choked, touches no other peer and sends nothing |
| Client.HaveSetsReportedBit | project/utils/connection.py:453-460 | a HAVE for piece i updates the target's bit i and sends nothing; if the update raises, the session ends with nothing changed |
| Client.ClientListener.constructor | project/utils/connection.py:311-315 | stores the id and the shared registry |
| Client.ClientListener.IsInterested | project/utils/connection.py:414-418 | the early-return loop computes `InterestFrom` |
| Client.ClientListener.RequestPieces | project/utils/connection.py:509-544 | the loop sends exactly `RequestFrames` of `Wanted` |
| Client.ClientListener.TriggerHave | project/utils/connection.py:546-566 | the loop computes `HaveSends` with the local id excluded |
| Client.ClientListener.HandleMessage | project/utils/connection.py:432-497 | registry, piece table and sends are those of `ClientStep` |
| Client.ClientListener.HandleRound | project/utils/connection.py:422-497 | one receive and its handler: either the loop stops with the state and sends of `HandleLoop`, or it goes on over less input |
| Client.ClientListener.HandleMessages | project/utils/connection.py:420-507 | the receive loop computes `HandleLoop` |
| Client.ClientListener.IngestBitfield | project/utils/connection.py:364-366 | the enumerate loop computes `IngestFrom` |
| Client.ClientListener.ConnectToPeer | project/utils/connection.py:325-398 | registry, piece table and sends are those of `Connect`, which stops after the opening frames when the first receive raises |
| Storage.Save | project/utils/file_manager.py:61-71 | raises exactly outside `[0, total_pieces)` (the range check's ValueError, re-raised as a plain Exception); otherwise key i maps to the data and every other key is unchanged |
| Storage.Reconstruct | project/utils/file_manager.py:90-98 | fails exactly when the keys are not `range(total_pieces)` |
| Storage.Filled | project/utils/file_manager.py:103 | `b"X" * n`: n bytes, each 'X' |
| Storage.SeededPieces | project/utils/file_manager.py:104-108 | after n iterations the keys are exactly `[0, n)` |
| Storage.SeededPieceAt | project/utils/file_manager.py:104-108 | piece k is the slice `[k*ps, k*ps + ps)` of the buffer |
| Storage.JoinSlices | project/utils/file_manager.py:94 | joining the first n slices of a buffer gives its first `n*ps` bytes |
| Storage.JoinLayout | project/utils/file_manager.py:94 | with pieces of `ps` bytes, the joined file holds piece k at offset `k*ps` |
| Storage.JoinLength | project/utils/file_manager.py:94 | with pieces of `ps` bytes, the joined file is `n*ps` bytes |
| Storage.SeededAllFilled | project/utils/file_manager.py:103-108 | every seeded piece is `ps` copies of 'X' |
| Storage.SeededJoin | project/utils/file_manager.py:94-108 | joining the seeded pieces gives back the whole 'X' buffer |
| Storage.SeededKeys | project/utils/file_manager.py:104-108 | the seeded keys are `range(total_pieces)` |
| Storage.SeededReconstruct | project/utils/file_manager.py:90-108 | after seeding, every piece is `ps` 'X' bytes and reconstruction returns the whole buffer |
| Storage.SeedingReplacesTable | project/utils/file_manager.py:100-108 | on a table whose keys are in range, seeding overwrites every entry |
| Storage.FileManager.constructor | project/utils/file_manager.py:38-47 | sizes stored, empty piece table |
| Storage.FileManager.SavePiece | project/utils/file_manager.py:61-71 | the table becomes `Save(old)`; when it raises (the ValueError re-raised as Exception) the table is unchanged; keys stay in range |
| Storage.FileManager.ReconstructFile | project/utils/file_manager.py:90-98 | the join loop computes `Reconstruct` |
| Storage.FileManager.InitializePieces | project/utils/file_manager.py:100-114 | with the file: the old table overlaid by the seeded slices, which is exactly the seeded table when the old keys were in range; without: the empty table |
| Storage.FileManager.SavePieces | project/utils/file_manager.py:104-108 | the loop of `save_piece` calls adds the seeded slices to the table |

## Left out

- Logging (`LogManager.log` and `logging.*`) is a no-op.
- `get_message_type_name` only names messages for the log, so it is left out.
- Sockets are modelled as identities only. Creation, `connect`, `bind`, `listen`, `accept` and `close` are left out. So are the thread starts in `start`, `stop`, `connect_to_peers` and `connect_to_peer`.
- `Client.Connect`: `connect_to_peer` starts `handle_messages` in a new thread. The model runs it right after the interest message, on the same connection.
- `sendall` always succeeds, so the `BrokenPipeError` path of `send_message` is not modelled.
- Socket timeouts and connection resets are not modelled. The incoming side is a finite sequence of segments, and its end stands for the peer closing. On a real socket both would raise out of `recv`, and that reaches the same TypeError path as the modelled `Raised` outcome.
- `threading.Lock` and interleavings between connection threads are left out. Each `PeerManager` method is one atomic step, and one connection is handled at a time.
- `time.sleep(0.1)` in `request_pieces` is left out: it is only pacing.
- `random.choice` in `optimistic_unchoking` is replaced by an index chosen by the caller, taken modulo the number of candidates.
- Disk I/O in `FileManager` is left out: directory creation, the file write in `save_piece`, and the config readers. `get_piece` becomes the `disk` parameter of the server functions, which gives the bytes read for each index. An empty sequence stands for Python's `None` or `b""`.
- The `"status"` field of a peer entry is left out: it is never read.
- `isinstance` checks in the message constructors are left out: Dafny's types rule out the inputs they reject.
- `Storage.Reconstruct`: `sorted(keys) != list(range(total))` is modelled as equality of the key set with `[0, total)`. The two agree because the keys are distinct integers.
- `Registry.OptimisticUnchoke`, `Registry.InitializeBitfield`, `Registry.AddPeer`, `Registry.RemovePeer`, `Registry.SetChoked`, `Registry.SetInterested` and `Registry.ReplacePeerBitfield` only promise to keep the invariants in their own contracts. Their effect is stated by the lemmas listed next to them; for `Registry.ReplacePeerBitfield` that is `Server.BitfieldReplaces`.
- `Server.ServerStep`, `Server.ServeLoop`, `Server.Serve`, `Client.ClientStep`, `Client.HandleLoop` and `Client.Connect` only state invariants in their own contracts. The lemmas that follow them state the behaviour for each message type. For the server's HAVE, the lemma covers payloads of up to 7 bytes, which every HAVE that `trigger_have` sends is.
- peerProcess.py (configuration, bootstrap and the shutdown loop) is not part of this model. Neither is log_manager.py.
