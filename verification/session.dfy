/**
 * What ServerListener and ClientListener share: sending the local bitfield
 * after the handshake, and broadcasting HAVE over the registered peers.
 */
module Session {
  import opened Wrappers
  import opened Bytes
  import opened Message
  import opened Wire
  import R = Registry

  /** A registry state after a handler, with what the handler wrote. */
  datatype Step = Step(state: R.State, sent: seq<Sent>)

  /**
   * `send_bitfield`: when the local bitfield is non-empty, one BITFIELD
   * frame on `conn` whose payload is `bytearray(bitfield)`.
   */
  function BitfieldSends(s: R.State, conn: Socket): (r: seq<Sent>)
    requires R.Valid(s)
    ensures s.bitfield == [] ==> r == []
    ensures |r| <= 1 && forall k :: 0 <= k < |r| ==> r[k].socket == conn
    ensures s.bitfield != [] && s.total + 1 < Pow256(4) ==>
              |r| == 1 && r[0].socket == conn
              && ParseMessage(r[0].frame).Ok?
              && ParseMessage(r[0].frame).value.msgType == BITFIELD
              && ParseMessage(r[0].frame).value.payload == s.bitfield
  {
    if s.bitfield == [] then []
    else
      var payload: seq<byte> := s.bitfield;
      SendMessage(Live(conn), BITFIELD, payload)
  }

  /**
   * The ids, in dict order, that a HAVE broadcast reaches: those with a
   * socket, other than `exclude` when one is given.
   */
  function HaveTargets(peers: map<int, R.PeerEntry>, ids: seq<int>, exclude: Option<int>): (r: seq<int>)
    requires forall p :: p in ids ==> p in peers
    ensures forall p :: p in r <==> p in ids && peers[p].socket.Some? && exclude != Some(p)
    ensures forall k :: 0 <= k < |r| ==> r[k] in peers && peers[r[k]].socket.Some?
  {
    if ids == [] then []
    else
      var last := ids[|ids| - 1];
      var front := ids[..|ids| - 1];
      assert last in ids;
      assert forall p :: p in ids <==> p in front || p == last;
      HaveTargets(peers, front, exclude)
      + (if peers[last].socket.Some? && exclude != Some(last) then [last] else [])
  }

  /** `r` is `s` with some elements deleted and the others kept in their order. */
  predicate Subsequence(r: seq<int>, s: seq<int>)
    decreases |s|
  {
    if s == [] then r == []
    else (r != [] && r[|r| - 1] == s[|s| - 1] && Subsequence(r[..|r| - 1], s[..|s| - 1]))
         || Subsequence(r, s[..|s| - 1])
  }

  lemma {:induction false} SubsequenceMembers(r: seq<int>, s: seq<int>)
    requires Subsequence(r, s)
    ensures forall p :: p in r ==> p in s
    decreases |s|
  {
    if s != [] {
      var front := s[..|s| - 1];
      if r != [] && r[|r| - 1] == s[|s| - 1] && Subsequence(r[..|r| - 1], front) {
        SubsequenceMembers(r[..|r| - 1], front);
        assert r == r[..|r| - 1] + [r[|r| - 1]];
      } else {
        SubsequenceMembers(r, front);
      }
      assert s == front + [s[|s| - 1]];
    }
  }

  lemma DistinctFront(s: seq<int>)
    requires s != [] && R.Distinct(s)
    ensures R.Distinct(s[..|s| - 1]) && s[|s| - 1] !in s[..|s| - 1]
  {
  }

  /**
   * Of a sequence without repetitions, a subsequence is fixed by the
   * elements it keeps.
   */
  lemma {:induction false} SubsequenceUnique(r1: seq<int>, r2: seq<int>, s: seq<int>)
    requires R.Distinct(s) && Subsequence(r1, s) && Subsequence(r2, s)
    requires forall p :: p in r1 <==> p in r2
    ensures r1 == r2
    decreases |s|
  {
    if s != [] {
      var front := s[..|s| - 1];
      var x := s[|s| - 1];
      DistinctFront(s);
      var ends1 := r1 != [] && r1[|r1| - 1] == x && Subsequence(r1[..|r1| - 1], front);
      var ends2 := r2 != [] && r2[|r2| - 1] == x && Subsequence(r2[..|r2| - 1], front);
      if ends1 && ends2 {
        var f1, f2 := r1[..|r1| - 1], r2[..|r2| - 1];
        SubsequenceMembers(f1, front);
        SubsequenceMembers(f2, front);
        assert r1 == f1 + [x] && r2 == f2 + [x];
        assert x !in f1 && x !in f2;
        forall p
          ensures p in f1 <==> p in f2
        {
          assert p in r1 <==> p in f1 || p == x;
          assert p in r2 <==> p in f2 || p == x;
        }
        SubsequenceUnique(f1, f2, front);
      } else if !ends1 && !ends2 {
        SubsequenceUnique(r1, r2, front);
      } else if ends1 {
        SubsequenceMembers(r2, front);
        assert false;
      } else {
        SubsequenceMembers(r1, front);
        assert false;
      }
    }
  }

  /**
   * The broadcast targets keep the dict order, and reach each peer at most
   * once when the ids have no repetition.
   */
  lemma {:induction false} HaveTargetsInOrder(peers: map<int, R.PeerEntry>, ids: seq<int>, exclude: Option<int>)
    requires forall p :: p in ids ==> p in peers
    ensures Subsequence(HaveTargets(peers, ids, exclude), ids)
    ensures R.Distinct(ids) ==> R.Distinct(HaveTargets(peers, ids, exclude))
    decreases |ids|
  {
    if ids != [] {
      var front := ids[..|ids| - 1];
      var last := ids[|ids| - 1];
      assert forall p :: p in front ==> p in ids;
      HaveTargetsInOrder(peers, front, exclude);
      var r := HaveTargets(peers, ids, exclude);
      var rf := HaveTargets(peers, front, exclude);
      if peers[last].socket.Some? && exclude != Some(last) {
        assert r == rf + [last];
        assert r[..|r| - 1] == rf;
        if R.Distinct(ids) {
          DistinctFront(ids);
          assert last !in rf;
        }
      } else {
        assert r == rf;
        if R.Distinct(ids) {
          DistinctFront(ids);
        }
      }
    }
  }

  /**
   * Hence the targets are the one list that keeps the dict order, repeats
   * no id and holds exactly the peers with a socket that are not excluded.
   */
  lemma HaveTargetsExactly(peers: map<int, R.PeerEntry>, ids: seq<int>, exclude: Option<int>, r: seq<int>)
    requires forall p :: p in ids ==> p in peers
    requires R.Distinct(ids) && Subsequence(r, ids)
    requires forall p :: p in r <==> p in ids && peers[p].socket.Some? && exclude != Some(p)
    ensures r == HaveTargets(peers, ids, exclude)
  {
    HaveTargetsInOrder(peers, ids, exclude);
    SubsequenceUnique(r, HaveTargets(peers, ids, exclude), ids);
  }

  /** One HAVE frame with `payload` on the socket of each target, in order. */
  function Broadcast(peers: map<int, R.PeerEntry>, targets: seq<int>, payload: seq<byte>): (r: seq<Sent>)
    requires forall k :: 0 <= k < |targets| ==> targets[k] in peers && peers[targets[k]].socket.Some?
    requires |payload| + 1 < Pow256(4)
    ensures |r| == |targets|
    ensures forall k :: 0 <= k < |targets| ==>
              r[k] == Sent(peers[targets[k]].socket.value, CreateMessage(HAVE, payload).value)
  {
    if targets == [] then []
    else
      var last := targets[|targets| - 1];
      Broadcast(peers, targets[..|targets| - 1], payload)
      + SendMessage(Live(peers[last].socket.value), HAVE, payload)
  }

  /** One more id examined by the broadcast loop. */
  lemma HaveTargetsSnoc(peers: map<int, R.PeerEntry>, ids: seq<int>, exclude: Option<int>, k: nat)
    requires forall p :: p in ids ==> p in peers
    requires k < |ids|
    ensures ids[k] in peers
    ensures HaveTargets(peers, ids[..k + 1], exclude)
            == HaveTargets(peers, ids[..k], exclude)
               + (if peers[ids[k]].socket.Some? && exclude != Some(ids[k]) then [ids[k]] else [])
  {
    assert ids[k] in ids;
    var prefix := ids[..k + 1];
    assert prefix[..|prefix| - 1] == ids[..k] && prefix[|prefix| - 1] == ids[k];
    assert forall p :: p in prefix ==> p in peers;
  }

  /** One more target reached by the broadcast loop. */
  lemma BroadcastSnoc(peers: map<int, R.PeerEntry>, targets: seq<int>, id: int, payload: seq<byte>)
    requires forall k :: 0 <= k < |targets| ==> targets[k] in peers && peers[targets[k]].socket.Some?
    requires id in peers && peers[id].socket.Some?
    requires |payload| + 1 < Pow256(4)
    ensures Broadcast(peers, targets + [id], payload)
            == Broadcast(peers, targets, payload) + SendMessage(Live(peers[id].socket.value), HAVE, payload)
  {
    assert (targets + [id])[..|targets|] == targets;
  }

  /** One iteration of the broadcast loop: id k is examined and, when it is a target, reached. */
  lemma BroadcastStep(peers: map<int, R.PeerEntry>, ids: seq<int>, exclude: Option<int>, k: nat, payload: seq<byte>)
    requires forall p :: p in ids ==> p in peers
    requires k < |ids| && |payload| + 1 < Pow256(4)
    ensures ids[k] in peers
    ensures Broadcast(peers, HaveTargets(peers, ids[..k + 1], exclude), payload)
            == Broadcast(peers, HaveTargets(peers, ids[..k], exclude), payload)
               + if peers[ids[k]].socket.Some? && exclude != Some(ids[k])
                 then SendMessage(Live(peers[ids[k]].socket.value), HAVE, payload)
                 else []
  {
    HaveTargetsSnoc(peers, ids, exclude, k);
    var before := HaveTargets(peers, ids[..k], exclude);
    if peers[ids[k]].socket.Some? && exclude != Some(ids[k]) {
      BroadcastSnoc(peers, before, ids[k], payload);
    } else {
      assert before + [] == before;
    }
  }

  /**
   * `trigger_have`'s sends for piece `index`: `index.to_bytes(4)` raises
   * OverflowError (None) outside [0, 2^32); otherwise one HAVE per target.
   */
  function HaveSends(s: R.State, exclude: Option<int>, index: int): (r: Option<seq<Sent>>)
    requires R.Valid(s)
    ensures r.Some? <==> 0 <= index < Pow256(4)
  {
    if 0 <= index < Pow256(4) then
      Some(Broadcast(s.peers, HaveTargets(s.peers, s.order, exclude), ToBytes(index, 4)))
    else None
  }

  /**
   * A HAVE broadcast writes one frame per peer that has a socket (and is not
   * excluded), each the frame `Have.create(index)` builds.
   */
  lemma HaveSendsExact(s: R.State, exclude: Option<int>, index: int)
    requires R.Valid(s) && 0 <= index < Pow256(4)
    ensures var targets := HaveTargets(s.peers, s.order, exclude);
            var r := HaveSends(s, exclude, index).value;
            && (forall p :: p in targets <==> p in s.peers && s.peers[p].socket.Some? && exclude != Some(p))
            && Subsequence(targets, s.order) && R.Distinct(targets)
            && |r| == |targets|
            && forall k :: 0 <= k < |r| ==>
                 r[k] == Sent(s.peers[targets[k]].socket.value, Have(index).value)
  {
    var payload := ToBytes(index, 4);
    assert |payload| == 4;
    assert Have(index) == CreateMessage(HAVE, payload);
    var targets := HaveTargets(s.peers, s.order, exclude);
    HaveTargetsInOrder(s.peers, s.order, exclude);
    assert HaveSends(s, exclude, index).value == Broadcast(s.peers, targets, payload);
  }
}
