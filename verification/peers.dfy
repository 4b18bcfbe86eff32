/**
 * The PeerManager object. Its fields are the registry's state; each method
 * changes them exactly as the matching function of module Registry says,
 * so every property proved there holds of the object.
 */
module Peers {
  import opened Wrappers
  import opened Wire
  import opened Message
  import R = Registry
  import BitField
  import Storage

  /** What `optimistic_unchoking` writes: UNCHOKE to the picked peer's stored socket. */
  function UnchokeSends(u: R.Unchoked): (r: seq<Sent>)
    requires u.picked.Some? ==> u.picked.value in u.state.peers
  {
    match u.picked
    case None => []
    case Some(q) => SendMessage(ArgOf(u.state.peers[q].socket), UNCHOKE, [])
  }

  /**
   * Optimistic unchoking writes nothing when it picks nobody or when the
   * picked peer's socket is None, and otherwise exactly one 5-byte UNCHOKE
   * frame on that socket.
   */
  lemma UnchokeSendsFrame(s: R.State, choice: nat)
    requires R.Valid(s)
    ensures var u := R.OptimisticUnchoke(s, choice);
            && (u.picked.Some? ==> u.picked.value in u.state.peers)
            && (u.picked.None? ==> UnchokeSends(u) == [])
            && (u.picked.Some? && u.state.peers[u.picked.value].socket.None? ==> UnchokeSends(u) == [])
            && (u.picked.Some? && u.state.peers[u.picked.value].socket.Some? ==>
                  UnchokeSends(u) == [Sent(u.state.peers[u.picked.value].socket.value, [0, 0, 0, 1, UNCHOKE])])
  {
    var u := R.OptimisticUnchoke(s, choice);
    if u.picked.Some? {
      var c := R.UnchokeCandidates(s);
      assert c[choice % |c|] in c;
      EmptyFrame(UNCHOKE);
    }
  }

  class PeerManager {
    const peerId: int
    const totalPieces: nat
    const fileManager: Storage.FileManager
    var connectedPeers: map<int, R.PeerEntry>
    /** The insertion order of `connectedPeers`, which Python's dict keeps. */
    var order: seq<int>
    var bitfield: seq<int>
    var downloadedPieces: set<int>

    /** The object's fields as a registry state. */
    function State(): R.State
      reads this
    {
      R.State(peerId, totalPieces, connectedPeers, order, bitfield, downloadedPieces)
    }

    ghost predicate Valid()
      reads this
    {
      R.Valid(State())
    }

    constructor (peerId: int, totalPieces: nat, fileManager: Storage.FileManager)
      ensures State() == R.Init(peerId, totalPieces) && this.fileManager == fileManager
      ensures Valid()
    {
      this.peerId := peerId;
      this.totalPieces := totalPieces;
      this.fileManager := fileManager;
      connectedPeers := map[];
      order := [];
      bitfield := BitField.Initialize(false, totalPieces);
      downloadedPieces := {};
    }

    /** `initialize_peer_bitfield`. */
    method InitializePeerBitfield(complete: bool)
      requires Valid()
      modifies this
      ensures Valid() && State() == R.InitializeBitfield(old(State()), complete)
    {
      bitfield := BitField.Initialize(complete, totalPieces);
    }

    /** `add_peer`. */
    method AddPeer(id: int, conn: Option<Socket>)
      requires Valid()
      modifies this
      ensures Valid() && State() == R.AddPeer(old(State()), id, conn)
    {
      if id !in connectedPeers {
        connectedPeers := connectedPeers[id := R.NewEntry(conn, totalPieces)];
        order := order + [id];
      }
    }

    /** `remove_peer`. */
    method RemovePeer(id: int)
      requires Valid()
      modifies this
      ensures Valid() && State() == R.RemovePeer(old(State()), id)
    {
      if id in connectedPeers {
        R.RemoveIdDistinct(order, id);
        connectedPeers := connectedPeers - {id};
        order := R.RemoveId(order, id);
      }
    }

    /** `update_peer_bitfield`; `ok` is false when it raises IndexError, and then nothing changed. */
    method UpdatePeerBitfield(id: int, pieceIndex: int) returns (ok: bool)
      requires Valid()
      modifies this
      ensures Valid()
      ensures R.UpdatePeerBitfield(old(State()), id, pieceIndex) == if ok then Ok(State()) else Err(R.IndexError)
      ensures !ok ==> State() == old(State())
    {
      if id in connectedPeers && 0 <= pieceIndex < totalPieces {
        var entry := connectedPeers[id];
        if pieceIndex >= |entry.bitfield| {
          return false;
        }
        connectedPeers := connectedPeers[id := entry.(bitfield := entry.bitfield[pieceIndex := 1])];
      }
      return true;
    }

    /** `mark_piece_downloaded`. */
    method MarkPieceDownloaded(pieceIndex: int)
      requires Valid()
      modifies this
      ensures Valid() && State() == R.MarkPieceDownloaded(old(State()), pieceIndex)
    {
      if 0 <= pieceIndex < totalPieces {
        bitfield := bitfield[pieceIndex := 1];
        downloadedPieces := downloadedPieces + {pieceIndex};
      }
    }

    /** `get_peers_with_piece`: the comprehension over the dict, in insertion order. */
    method GetPeersWithPiece(pieceIndex: int) returns (r: Result<seq<int>, R.Fault>)
      requires Valid()
      ensures r == R.PeersWithPiece(State(), pieceIndex)
    {
      if !(0 <= pieceIndex < totalPieces) {
        return Ok([]);
      }
      var peers: seq<int> := [];
      for k := 0 to |order|
        invariant R.Holders(connectedPeers, order[..k], pieceIndex) == Ok(peers)
      {
        assert order[..k + 1][..k] == order[..k];
        var id := order[k];
        assert id in order;
        var entry := connectedPeers[id];
        if pieceIndex >= |entry.bitfield| {
          assert order[k] in order[..k + 1];
          assert order[k] in order;
          return Err(R.IndexError);
        }
        if entry.bitfield[pieceIndex] == 1 {
          peers := peers + [id];
        }
      }
      assert order[..|order|] == order;
      return Ok(peers);
    }

    /** `all_pieces_downloaded`. */
    method AllPiecesDownloaded() returns (b: bool)
      ensures b <==> R.AllPiecesDownloaded(State())
    {
      return |downloadedPieces| == totalPieces;
    }

    /** `get_bitfield`: a copy of the local bitfield. */
    method GetBitfield() returns (b: seq<int>)
      requires Valid()
      ensures |b| == totalPieces && b == R.GetBitfield(State())
    {
      return bitfield;
    }

    /** `mark_peer_choked`. */
    method MarkPeerChoked(id: int)
      requires Valid()
      modifies this
      ensures Valid() && State() == R.SetChoked(old(State()), id, true)
    {
      if id in connectedPeers {
        connectedPeers := connectedPeers[id := connectedPeers[id].(choked := true)];
      }
    }

    /** `mark_peer_unchoked`. */
    method MarkPeerUnchoked(id: int)
      requires Valid()
      modifies this
      ensures Valid() && State() == R.SetChoked(old(State()), id, false)
    {
      if id in connectedPeers {
        connectedPeers := connectedPeers[id := connectedPeers[id].(choked := false)];
      }
    }

    /** `is_peer_choked`. */
    method IsPeerChoked(id: int) returns (b: bool)
      ensures b == R.IsPeerChoked(State(), id)
    {
      if id !in connectedPeers {
        return true;
      }
      return connectedPeers[id].choked;
    }

    /** `mark_peer_interested`. */
    method MarkPeerInterested(id: int)
      requires Valid()
      modifies this
      ensures Valid() && State() == R.SetInterested(old(State()), id, true)
    {
      if id in connectedPeers {
        connectedPeers := connectedPeers[id := connectedPeers[id].(interested := true)];
      }
    }

    /** `mark_peer_not_interested`. */
    method MarkPeerNotInterested(id: int)
      requires Valid()
      modifies this
      ensures Valid() && State() == R.SetInterested(old(State()), id, false)
    {
      if id in connectedPeers {
        connectedPeers := connectedPeers[id := connectedPeers[id].(interested := false)];
      }
    }

    /**
     * A direct write `connected_peers[id]["bitfield"] = bits`, as the server's
     * BITFIELD handler does; `ok` is false when the id is unknown (KeyError).
     */
    method ReplacePeerBitfield(id: int, bits: seq<int>) returns (ok: bool)
      requires Valid()
      modifies this
      ensures Valid() && State() == R.ReplacePeerBitfield(old(State()), id, bits)
      ensures ok <==> id in old(connectedPeers)
    {
      ok := id in connectedPeers;
      if ok {
        connectedPeers := connectedPeers[id := connectedPeers[id].(bitfield := bits)];
      }
    }

    /** `get_choked_peers`. */
    method GetChokedPeers() returns (r: seq<int>)
      requires Valid()
      ensures r == R.ChokedPeers(State())
    {
      r := [];
      for k := 0 to |order|
        invariant r == R.ChokedIn(connectedPeers, order[..k])
      {
        assert order[..k + 1][..k] == order[..k];
        var id := order[k];
        assert id in order;
        if connectedPeers[id].choked {
          r := r + [id];
        }
      }
      assert order[..|order|] == order;
    }

    /**
     * `optimistic_unchoking`, with `random.choice` replaced by the caller's
     * `choice`: unchokes the picked candidate and sends it UNCHOKE.
     */
    method OptimisticUnchoking(choice: nat) returns (sent: seq<Sent>)
      requires Valid()
      modifies this
      ensures Valid()
      ensures var u := R.OptimisticUnchoke(old(State()), choice);
              && State() == u.state
              && (u.picked.Some? ==> u.picked.value in u.state.peers)
              && sent == UnchokeSends(u)
    {
      ghost var u := R.OptimisticUnchoke(State(), choice);
      var candidates := R.UnchokeCandidates(State());
      if candidates == [] {
        return [];
      }
      var q := candidates[choice % |candidates|];
      assert q in candidates;
      MarkPeerUnchoked(q);
      sent := SendMessage(ArgOf(connectedPeers[q].socket), UNCHOKE, []);
    }
  }
}
