/**
 * The PeerManager's state as a value, and each of its operations as a
 * function from the old state to the new one. The `PeerManager` class in
 * module Peers holds these fields and each of its methods is proved to
 * perform the matching function here.
 */
module Registry {
  import opened Wrappers
  import opened Indices
  import opened Wire
  import BitField

  /** One `connected_peers` entry. Its "status" string is written once and never read. */
  datatype PeerEntry = PeerEntry(socket: Option<Socket>, bitfield: seq<int>, choked: bool, interested: bool)

  /**
   * The registry: the local id and piece count, the `connected_peers` dict
   * (with `order`, the dict's insertion order), the local bitfield and the
   * `downloaded_pieces` set.
   */
  datatype State = State(localId: int, total: nat, peers: map<int, PeerEntry>, order: seq<int>,
                         bitfield: seq<int>, downloaded: set<int>)

  /** The exceptions a registry access raises. */
  datatype Fault = IndexError | KeyError

  predicate Distinct(ids: seq<int>)
  {
    forall i, j :: 0 <= i < j < |ids| ==> ids[i] != ids[j]
  }

  /**
   * What every operation keeps: the local bitfield has one 0/1 entry per
   * piece, and `order` lists each key of the dict exactly once. Remote
   * bitfields have no fixed length: a BITFIELD message replaces them wholesale.
   */
  ghost predicate Valid(s: State)
  {
    && |s.bitfield| == s.total
    && (forall i :: 0 <= i < |s.bitfield| ==> 0 <= s.bitfield[i] <= 1)
    && Distinct(s.order)
    && (forall id :: id in s.peers <==> id in s.order)
  }

  /** Every downloaded index is a piece index whose local bit is set. */
  ghost predicate DownloadsRecorded(s: State)
  {
    && s.downloaded <= RangeSet(s.total)
    && forall i :: i in s.downloaded ==> 0 <= i < |s.bitfield| && s.bitfield[i] == 1
  }

  /** `PeerManager.__init__`: no peers, an all-zero bitfield, nothing downloaded. */
  function Init(localId: int, total: nat): (r: State)
    ensures Valid(r) && DownloadsRecorded(r)
    ensures r.peers == map[] && r.downloaded == {}
    ensures |r.bitfield| == total && forall i :: 0 <= i < total ==> r.bitfield[i] == 0
  {
    State(localId, total, map[], [], BitField.Initialize(false, total), {})
  }

  /** `initialize_peer_bitfield`. */
  function InitializeBitfield(s: State, complete: bool): (r: State)
    ensures Valid(s) ==> Valid(r)
  {
    s.(bitfield := BitField.Initialize(complete, s.total))
  }

  /** The entry `add_peer` creates: all-zero bitfield, choked, not interested. */
  function NewEntry(socket: Option<Socket>, total: nat): PeerEntry
  {
    PeerEntry(socket, BitField.Initialize(false, total), true, false)
  }

  /** `add_peer`: a no-op when the id is already present. */
  function AddPeer(s: State, id: int, socket: Option<Socket>): (r: State)
    ensures Valid(s) ==> Valid(r)
  {
    if id in s.peers then s
    else s.(peers := s.peers[id := NewEntry(socket, s.total)], order := s.order + [id])
  }

  /** `ids` without `id`, order kept. */
  function RemoveId(ids: seq<int>, id: int): (r: seq<int>)
    ensures forall p :: p in r <==> p in ids && p != id
  {
    if ids == [] then []
    else (if ids[0] == id then [] else [ids[0]]) + RemoveId(ids[1..], id)
  }

  lemma {:induction false} RemoveIdDistinct(ids: seq<int>, id: int)
    requires Distinct(ids)
    ensures Distinct(RemoveId(ids, id))
  {
    if ids != [] {
      var tail := ids[1..];
      assert Distinct(tail) by {
        forall i, j | 0 <= i < j < |tail| ensures tail[i] != tail[j] {
          assert tail[i] == ids[i + 1] && tail[j] == ids[j + 1];
        }
      }
      RemoveIdDistinct(tail, id);
      var rest := RemoveId(tail, id);
      assert ids[0] !in tail by {
        forall k | 0 <= k < |tail| ensures tail[k] != ids[0] {
          assert tail[k] == ids[k + 1];
        }
      }
      assert ids[0] !in rest;
      var head: seq<int> := if ids[0] == id then [] else [ids[0]];
      var r := head + rest;
      forall i, j | 0 <= i < j < |r| ensures r[i] != r[j] {
        if i < |head| {
          assert r[i] == ids[0] && r[j] == rest[j - |head|];
        } else {
          assert r[i] == rest[i - |head|] && r[j] == rest[j - |head|];
        }
      }
    }
  }

  /** `remove_peer`: deletes the entry; a no-op for an absent id. */
  function RemovePeer(s: State, id: int): (r: State)
    ensures Valid(s) ==> Valid(r)
  {
    if id !in s.peers then s
    else
      var r := s.(peers := s.peers - {id}, order := RemoveId(s.order, id));
      if Distinct(s.order) then RemoveIdDistinct(s.order, id); r else r
  }

  /**
   * `update_peer_bitfield`: sets one bit of a known peer for an index in
   * [0, total); otherwise a no-op. A stored bitfield shorter than the index
   * (one a BITFIELD message replaced) raises IndexError.
   */
  function UpdatePeerBitfield(s: State, id: int, i: int): (r: Result<State, Fault>)
    ensures r.Err? <==> id in s.peers && 0 <= i < s.total && i >= |s.peers[id].bitfield|
    ensures r.Ok? && Valid(s) ==> Valid(r.value)
  {
    if id in s.peers && 0 <= i < s.total then
      var e := s.peers[id];
      if i < |e.bitfield| then Ok(s.(peers := s.peers[id := e.(bitfield := BitField.Updated(e.bitfield, i))]))
      else Err(IndexError)
    else Ok(s)
  }

  /** `mark_piece_downloaded`: an in-range index gets its local bit and joins the downloaded set. */
  function MarkPieceDownloaded(s: State, i: int): (r: State)
    requires Valid(s)
    ensures Valid(r)
    ensures DownloadsRecorded(s) ==> DownloadsRecorded(r)
  {
    if 0 <= i < s.total then s.(bitfield := BitField.Updated(s.bitfield, i), downloaded := s.downloaded + {i})
    else s
  }

  /** `mark_peer_choked` (b) and `mark_peer_unchoked` (!b): a no-op for an unknown id. */
  function SetChoked(s: State, id: int, b: bool): (r: State)
    ensures Valid(s) ==> Valid(r)
  {
    if id in s.peers then s.(peers := s.peers[id := s.peers[id].(choked := b)]) else s
  }

  /** `mark_peer_interested` (b) and `mark_peer_not_interested` (!b): a no-op for an unknown id. */
  function SetInterested(s: State, id: int, b: bool): (r: State)
    ensures Valid(s) ==> Valid(r)
  {
    if id in s.peers then s.(peers := s.peers[id := s.peers[id].(interested := b)]) else s
  }

  /**
   * A BITFIELD handler's direct write `connected_peers[id]["bitfield"] = list(payload)`;
   * the KeyError of an unknown id is caught, so that is a no-op.
   */
  function ReplacePeerBitfield(s: State, id: int, bits: seq<int>): (r: State)
    ensures Valid(s) ==> Valid(r)
  {
    if id in s.peers then s.(peers := s.peers[id := s.peers[id].(bitfield := bits)]) else s
  }

  /** `is_peer_choked`: an unknown id counts as choked. */
  function IsPeerChoked(s: State, id: int): bool
  {
    id !in s.peers || s.peers[id].choked
  }

  /** `get_bitfield`: the local bitfield (a value, so no later update can reach it). */
  function GetBitfield(s: State): seq<int>
  {
    s.bitfield
  }

  /** `all_pieces_downloaded`. */
  function AllPiecesDownloaded(s: State): bool
  {
    |s.downloaded| == s.total
  }

  /**
   * The ids among `ids`, in order, whose bitfield has a 1 at i; IndexError
   * when some listed bitfield is too short to index.
   */
  function Holders(peers: map<int, PeerEntry>, ids: seq<int>, i: nat): (r: Result<seq<int>, Fault>)
    requires forall p :: p in ids ==> p in peers
    ensures r.Ok? <==> forall p :: p in ids ==> i < |peers[p].bitfield|
    ensures r.Err? ==> r.error == IndexError
    ensures r.Ok? ==> forall p :: p in r.value <==> p in ids && peers[p].bitfield[i] == 1
  {
    if ids == [] then Ok([])
    else
      var last := ids[|ids| - 1];
      var front := ids[..|ids| - 1];
      assert last in ids;
      assert forall p :: p in ids <==> p in front || p == last;
      var e := peers[last];
      match Holders(peers, front, i)
      case Err(f) => Err(f)
      case Ok(acc) =>
        if i >= |e.bitfield| then Err(IndexError)
        else Ok(if e.bitfield[i] == 1 then acc + [last] else acc)
  }

  /** `get_peers_with_piece`: the ids, in dict order, of peers holding piece i. */
  function PeersWithPiece(s: State, i: int): (r: Result<seq<int>, Fault>)
    requires Valid(s)
    ensures !(0 <= i < s.total) ==> r == Ok([])
    ensures 0 <= i < s.total ==> (r.Ok? <==> forall p :: p in s.peers ==> i < |s.peers[p].bitfield|)
    ensures 0 <= i < s.total && r.Ok? ==>
              forall p :: p in r.value <==> p in s.peers && s.peers[p].bitfield[i] == 1
  {
    if 0 <= i < s.total then Holders(s.peers, s.order, i) else Ok([])
  }

  /** The ids among `ids`, in order, whose entry is choked. */
  function ChokedIn(peers: map<int, PeerEntry>, ids: seq<int>): (r: seq<int>)
    requires forall p :: p in ids ==> p in peers
    ensures forall p :: p in r <==> p in ids && peers[p].choked
  {
    if ids == [] then []
    else
      var last := ids[|ids| - 1];
      var front := ids[..|ids| - 1];
      assert last in ids;
      assert forall p :: p in ids <==> p in front || p == last;
      ChokedIn(peers, front) + (if peers[last].choked then [last] else [])
  }

  /** `get_choked_peers`: the choked ids in dict order (the local id included). */
  function ChokedPeers(s: State): (r: seq<int>)
    requires Valid(s)
    ensures forall p :: p in r <==> p in s.peers && s.peers[p].choked
  {
    ChokedIn(s.peers, s.order)
  }

  /** The ids `optimistic_unchoking` chooses among: choked, and not the local id. */
  function UnchokeCandidates(s: State): (r: seq<int>)
    requires Valid(s)
    ensures forall p :: p in r <==> p in s.peers && s.peers[p].choked && p != s.localId
  {
    RemoveId(ChokedPeers(s), s.localId)
  }

  datatype Unchoked = Unchoked(state: State, picked: Option<int>)

  /**
   * `optimistic_unchoking` with `random.choice` replaced by the caller's
   * `choice`: unchokes one candidate, or does nothing when there is none.
   */
  function OptimisticUnchoke(s: State, choice: nat): (r: Unchoked)
    requires Valid(s)
    ensures Valid(r.state)
  {
    var candidates := UnchokeCandidates(s);
    if candidates == [] then Unchoked(s, None)
    else
      var q := candidates[choice % |candidates|];
      Unchoked(SetChoked(s, q, false), Some(q))
  }

  // ---------------------------------------------------------------------
  // Properties of the operations
  // ---------------------------------------------------------------------

  /** `initialize_peer_bitfield` gives all ones or all zeros, of length `total_pieces`. */
  lemma InitializeBitfieldContents(s: State, complete: bool)
    ensures var r := InitializeBitfield(s, complete);
            |r.bitfield| == s.total
            && (forall i :: 0 <= i < s.total ==> r.bitfield[i] == if complete then 1 else 0)
            && r.peers == s.peers && r.downloaded == s.downloaded
  {
  }

  /**
   * Downloads stay recorded across `initialize_peer_bitfield` when it sets all
   * bits or nothing was downloaded yet (it is only called at start-up).
   */
  lemma InitializeBitfieldRecords(s: State, complete: bool)
    requires Valid(s) && DownloadsRecorded(s)
    requires complete || s.downloaded == {}
    ensures DownloadsRecorded(InitializeBitfield(s, complete))
  {
  }

  /** `add_peer` on a new id appends an entry with the default flags and an all-zero bitfield. */
  lemma AddPeerInserts(s: State, id: int, socket: Option<Socket>)
    requires id !in s.peers
    ensures var r := AddPeer(s, id, socket);
            && r.peers.Keys == s.peers.Keys + {id}
            && (forall p :: p in s.peers ==> r.peers[p] == s.peers[p])
            && r.peers[id].socket == socket && r.peers[id].choked && !r.peers[id].interested
            && |r.peers[id].bitfield| == s.total
            && (forall i :: 0 <= i < s.total ==> r.peers[id].bitfield[i] == 0)
            && r.order == s.order + [id]
            && r.bitfield == s.bitfield && r.downloaded == s.downloaded
  {
  }

  /** A second `add_peer` of the same id changes nothing; the id is listed exactly once. */
  lemma AddPeerTwice(s: State, id: int, a: Option<Socket>, b: Option<Socket>)
    requires Valid(s)
    ensures var r := AddPeer(s, id, a);
            && AddPeer(r, id, b) == r
            && id in r.peers
            && exists k :: 0 <= k < |r.order| && r.order[k] == id
                           && forall j :: 0 <= j < |r.order| && r.order[j] == id ==> j == k
  {
    var r := AddPeer(s, id, a);
    assert Valid(r);
    assert id in r.order;
    var k :| 0 <= k < |r.order| && r.order[k] == id;
    assert forall j :: 0 <= j < |r.order| && r.order[j] == id ==> j == k;
  }

  /** `remove_peer` deletes exactly that id; an absent id leaves the state as it was. */
  lemma RemovePeerDeletes(s: State, id: int)
    requires Valid(s)
    ensures var r := RemovePeer(s, id);
            && r.peers.Keys == s.peers.Keys - {id}
            && (forall p :: p in r.peers ==> r.peers[p] == s.peers[p])
            && (forall p :: p in r.order <==> p in r.peers)
            && r.bitfield == s.bitfield && r.downloaded == s.downloaded
            && (id !in s.peers ==> r == s)
  {
  }

  /**
   * `update_peer_bitfield` sets exactly bit i of peer id when id is known and
   * 0 <= i < total; otherwise the state is unchanged.
   */
  lemma UpdatePeerBitfieldSetsOneBit(s: State, id: int, i: int)
    ensures var r := UpdatePeerBitfield(s, id, i);
            && (!(id in s.peers && 0 <= i < s.total) ==> r == Ok(s))
            && (r.Ok? && id in s.peers && 0 <= i < s.total ==>
                  var e := s.peers[id];
                  var e' := r.value.peers[id];
                  && r.value.peers.Keys == s.peers.Keys
                  && (forall p :: p in s.peers && p != id ==> r.value.peers[p] == s.peers[p])
                  && |e'.bitfield| == |e.bitfield| && e'.bitfield[i] == 1
                  && (forall j :: 0 <= j < |e.bitfield| && j != i ==> e'.bitfield[j] == e.bitfield[j])
                  && e'.socket == e.socket && e'.choked == e.choked && e'.interested == e.interested
                  && r.value.order == s.order && r.value.bitfield == s.bitfield
                  && r.value.downloaded == s.downloaded)
  {
  }

  /** `mark_piece_downloaded` sets the bit and records the index, or ignores an out-of-range one. */
  lemma MarkPieceDownloadedEffect(s: State, i: int)
    requires Valid(s)
    ensures var r := MarkPieceDownloaded(s, i);
            && (0 <= i < s.total ==>
                  && r.bitfield[i] == 1 && r.downloaded == s.downloaded + {i}
                  && (forall j :: 0 <= j < s.total && j != i ==> r.bitfield[j] == s.bitfield[j]))
            && (!(0 <= i < s.total) ==> r == s)
            && r.peers == s.peers && r.order == s.order
  {
  }

  /** Marking a piece downloaded twice is the same as marking it once. */
  lemma MarkPieceDownloadedIdempotent(s: State, i: int)
    requires Valid(s)
    ensures MarkPieceDownloaded(MarkPieceDownloaded(s, i), i) == MarkPieceDownloaded(s, i)
  {
    if 0 <= i < s.total {
      BitField.UpdatedIdempotent(s.bitfield, i);
      assert s.downloaded + {i} + {i} == s.downloaded + {i};
    }
  }

  /** The download is complete exactly when every piece index has been downloaded. */
  lemma AllPiecesDownloadedIff(s: State)
    requires Valid(s) && DownloadsRecorded(s)
    ensures AllPiecesDownloaded(s) <==> s.downloaded == RangeSet(s.total)
  {
    FullSubsetOfRange(s.downloaded, s.total);
  }

  /** Once the download is complete, every local bit is set. */
  lemma CompleteBitfieldFull(s: State)
    requires Valid(s) && DownloadsRecorded(s) && AllPiecesDownloaded(s)
    ensures forall i :: 0 <= i < s.total ==> s.bitfield[i] == 1
  {
    AllPiecesDownloadedIff(s);
    forall i | 0 <= i < s.total ensures s.bitfield[i] == 1 {
      assert i in RangeSet(s.total);
    }
  }

  /** Each flag setter changes only that flag of a known peer, and nothing for an unknown id. */
  lemma FlagSettersTouchOneFlag(s: State, id: int, b: bool)
    ensures var c := SetChoked(s, id, b);
            var n := SetInterested(s, id, b);
            && (id !in s.peers ==> c == s && n == s)
            && (id in s.peers ==>
                  && c.peers == s.peers[id := s.peers[id].(choked := b)]
                  && n.peers == s.peers[id := s.peers[id].(interested := b)]
                  && c.(peers := s.peers) == s && n.(peers := s.peers) == s)
  {
  }

  /** `is_peer_choked` is true for an unknown id, and otherwise reads the stored flag. */
  lemma IsPeerChokedDefault(s: State, id: int)
    ensures id !in s.peers ==> IsPeerChoked(s, id)
    ensures IsPeerChoked(SetChoked(s, id, true), id)
    ensures id in s.peers ==> !IsPeerChoked(SetChoked(s, id, false), id)
  {
  }

  /** With no choked peer other than the local id, optimistic unchoking changes nothing. */
  lemma OptimisticUnchokeNoCandidate(s: State, choice: nat)
    requires Valid(s)
    requires forall p :: p in s.peers && p != s.localId ==> !s.peers[p].choked
    ensures OptimisticUnchoke(s, choice) == Unchoked(s, None)
  {
  }

  /**
   * Otherwise it picks a choked peer q other than the local id, and afterwards
   * q is unchoked and nothing else has changed.
   */
  lemma OptimisticUnchokePicksChoked(s: State, choice: nat)
    requires Valid(s)
    requires exists p :: p in s.peers && p != s.localId && s.peers[p].choked
    ensures var r := OptimisticUnchoke(s, choice);
            && r.picked.Some?
            && var q := r.picked.value;
               && q in s.peers && q != s.localId && s.peers[q].choked
               && r.state == SetChoked(s, q, false) && !r.state.peers[q].choked
  {
    var p :| p in s.peers && p != s.localId && s.peers[p].choked;
    assert p in UnchokeCandidates(s);
    var c := UnchokeCandidates(s);
    assert c[choice % |c|] in c;
  }
}
