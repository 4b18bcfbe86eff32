/**
 * FileManager's in-memory piece table: `save_piece` with its range check,
 * `initialize_pieces` slicing a buffer of 'X' bytes, and `reconstruct_file`
 * joining the pieces in index order. The on-disk copy is not modelled.
 */
module Storage {
  import opened Wrappers
  import opened Bytes
  import opened Indices

  /** The byte 'X' that fills a seeder's buffer. */
  const FILLER: byte := 88

  /** `save_piece`'s "Invalid piece index" and `reconstruct_file`'s "Missing or invalid pieces". */
  datatype StorageError = InvalidPieceIndex | MissingOrInvalidPieces

  type Pieces = map<int, seq<byte>>

  /** `save_piece` on the table: rejects an index outside [0, total). */
  function Save(pieces: Pieces, total: nat, i: int, d: seq<byte>): (r: Result<Pieces, StorageError>)
    ensures r.Err? <==> !(0 <= i < total)
    ensures r.Err? ==> r.error == InvalidPieceIndex
    ensures r.Ok? ==> && r.value.Keys == pieces.Keys + {i} && r.value[i] == d
                      && forall k :: k in pieces && k != i ==> r.value[k] == pieces[k]
  {
    if 0 <= i < total then Ok(pieces[i := d]) else Err(InvalidPieceIndex)
  }

  /** `b"".join(pieces[i] for i in range(n))`. */
  function Join(pieces: Pieces, n: nat): seq<byte>
    requires forall i :: 0 <= i < n ==> i in pieces
  {
    if n == 0 then [] else Join(pieces, n - 1) + pieces[n - 1]
  }

  /**
   * `reconstruct_file`: the keys, sorted, must be exactly 0..total-1, which
   * for a set of distinct integers means the key set is [0, total).
   */
  function Reconstruct(pieces: Pieces, total: nat): (r: Result<seq<byte>, StorageError>)
    ensures r.Ok? <==> pieces.Keys == RangeSet(total)
    ensures r.Err? ==> r.error == MissingOrInvalidPieces
  {
    if pieces.Keys == RangeSet(total) then Ok(Join(pieces, total)) else Err(MissingOrInvalidPieces)
  }

  /** `b"X" * n`. */
  function Filled(n: nat): (r: seq<byte>)
    ensures |r| == n && forall k :: 0 <= k < n ==> r[k] == FILLER
  {
    seq(n, _ => FILLER)
  }

  /** Piece k of a buffer cut into `pieceSize` slices: `buffer[k*ps : k*ps + ps]`. */
  function PieceOf(buffer: seq<byte>, pieceSize: nat, k: nat): seq<byte>
  {
    Slice(buffer, k * pieceSize, k * pieceSize + pieceSize)
  }

  /** The table `initialize_pieces(True)` has built after its first n iterations. */
  function SeededPieces(buffer: seq<byte>, pieceSize: nat, n: nat): (r: Pieces)
    ensures forall k :: k in r <==> 0 <= k < n
  {
    if n == 0 then map[]
    else SeededPieces(buffer, pieceSize, n - 1)[n - 1 := PieceOf(buffer, pieceSize, n - 1)]
  }

  lemma {:induction false} PieceWithin(k: nat, total: nat, pieceSize: nat)
    requires k < total
    ensures k * pieceSize + pieceSize <= total * pieceSize
  {
    if k < total - 1 {
      PieceWithin(k, total - 1, pieceSize);
    }
    assert (total - 1) * pieceSize + pieceSize == total * pieceSize;
  }

  /** One iteration of the seeding loop: saving piece `index` extends the seeded table by it. */
  lemma SeedStep(start: Pieces, buffer: seq<byte>, pieceSize: nat, index: nat)
    ensures (start + SeededPieces(buffer, pieceSize, index))[index := PieceOf(buffer, pieceSize, index)]
            == start + SeededPieces(buffer, pieceSize, index + 1)
  {
  }

  /** Each seeded piece is the k-th `pieceSize` slice of the buffer. */
  lemma {:induction false} SeededPieceAt(buffer: seq<byte>, pieceSize: nat, n: nat, k: nat)
    requires k < n
    ensures SeededPieces(buffer, pieceSize, n)[k] == Slice(buffer, k * pieceSize, k * pieceSize + pieceSize)
  {
    if k < n - 1 {
      SeededPieceAt(buffer, pieceSize, n - 1, k);
    }
  }

  /** Joining the first n slices of a buffer gives its first n * pieceSize bytes. */
  lemma {:induction false} JoinSlices(pieces: Pieces, buffer: seq<byte>, pieceSize: nat, n: nat)
    requires n * pieceSize <= |buffer|
    requires forall k :: 0 <= k < n ==> k in pieces
    requires forall k :: 0 <= k < n ==> k * pieceSize + pieceSize <= |buffer|
                                        && pieces[k] == buffer[k * pieceSize..k * pieceSize + pieceSize]
    ensures Join(pieces, n) == buffer[..n * pieceSize]
  {
    if n > 0 {
      var m := n - 1;
      assert m * pieceSize + pieceSize == n * pieceSize;
      assert m * pieceSize <= n * pieceSize;
      JoinSlices(pieces, buffer, pieceSize, m);
      assert buffer[..m * pieceSize] + buffer[m * pieceSize..n * pieceSize] == buffer[..n * pieceSize];
    }
  }

  /** A slice of the 'X' buffer is itself all 'X'. */
  lemma FilledSlice(n: nat, lo: nat, len: nat)
    requires lo + len <= n
    ensures Filled(n)[lo..lo + len] == Filled(len)
  {
  }

  /**
   * `initialize_pieces(True)` gives every piece `pieceSize` copies of 'X', and
   * reconstructing the file gives back the whole 'X' buffer.
   */
  lemma SeededReconstruct(pieceSize: nat, total: nat)
    ensures var buffer := Filled(pieceSize * total);
            var pieces := SeededPieces(buffer, pieceSize, total);
            && (forall k :: 0 <= k < total ==> pieces[k] == Filled(pieceSize))
            && Reconstruct(pieces, total) == Ok(buffer)
  {
    SeededAllFilled(pieceSize, total);
    SeededJoin(pieceSize, total);
    SeededKeys(Filled(pieceSize * total), pieceSize, total);
  }

  lemma SeededAllFilled(pieceSize: nat, total: nat)
    ensures forall k :: 0 <= k < total ==>
              SeededPieces(Filled(pieceSize * total), pieceSize, total)[k] == Filled(pieceSize)
  {
    var n := pieceSize * total;
    assert total * pieceSize == n;
    SlicesFit(total, pieceSize);
    SeededSlices(Filled(n), pieceSize, total);
    forall k | 0 <= k < total
      ensures SeededPieces(Filled(n), pieceSize, total)[k] == Filled(pieceSize)
    {
      var lo := k * pieceSize;
      assert lo + pieceSize <= n;
      FilledSlice(n, lo, pieceSize);
    }
  }

  lemma SeededJoin(pieceSize: nat, total: nat)
    ensures Join(SeededPieces(Filled(pieceSize * total), pieceSize, total), total) == Filled(pieceSize * total)
  {
    var n := pieceSize * total;
    var buffer := Filled(n);
    assert total * pieceSize == n;
    SlicesFit(total, pieceSize);
    SeededSlices(buffer, pieceSize, total);
    JoinSlices(SeededPieces(buffer, pieceSize, total), buffer, pieceSize, total);
    assert buffer[..n] == buffer;
  }

  /** Every one of `total` slices of `pieceSize` bytes ends within total * pieceSize. */
  lemma SlicesFit(total: nat, pieceSize: nat)
    ensures forall k: nat :: k < total ==> k * pieceSize + pieceSize <= total * pieceSize
  {
    forall k: nat | k < total
      ensures k * pieceSize + pieceSize <= total * pieceSize
    {
      PieceWithin(k, total, pieceSize);
    }
  }

  /** When the slices fit in the buffer, seeded piece k is the k-th slice. */
  lemma SeededSlices(buffer: seq<byte>, pieceSize: nat, total: nat)
    requires forall k: nat :: k < total ==> k * pieceSize + pieceSize <= |buffer|
    ensures forall k: nat :: k < total ==>
              SeededPieces(buffer, pieceSize, total)[k] == buffer[k * pieceSize..k * pieceSize + pieceSize]
  {
    forall k: nat | k < total
      ensures SeededPieces(buffer, pieceSize, total)[k] == buffer[k * pieceSize..k * pieceSize + pieceSize]
    {
      SeededPieceAt(buffer, pieceSize, total, k);
    }
  }

  /** The seeded table's keys are exactly [0, n). */
  lemma SeededKeys(buffer: seq<byte>, pieceSize: nat, n: nat)
    ensures SeededPieces(buffer, pieceSize, n).Keys == RangeSet(n)
  {
  }

  /** Reconstruction puts piece k at offset k * pieceSize when every piece has that size. */
  lemma {:induction false} JoinLayout(pieces: Pieces, pieceSize: nat, n: nat, k: nat)
    requires forall i :: 0 <= i < n ==> i in pieces && |pieces[i]| == pieceSize
    requires k < n
    ensures |Join(pieces, n)| == n * pieceSize
    ensures k * pieceSize + pieceSize <= n * pieceSize
    ensures Join(pieces, n)[k * pieceSize..k * pieceSize + pieceSize] == pieces[k]
  {
    PieceWithin(k, n, pieceSize);
    JoinLength(pieces, pieceSize, n);
    var m := n - 1;
    assert m * pieceSize + pieceSize == n * pieceSize;
    JoinLength(pieces, pieceSize, m);
    if k < m {
      JoinLayout(pieces, pieceSize, m, k);
      PieceWithin(k, m, pieceSize);
      assert Join(pieces, n)[..m * pieceSize] == Join(pieces, m);
    } else {
      assert Join(pieces, n)[m * pieceSize..] == pieces[m];
    }
  }

  lemma {:induction false} JoinLength(pieces: Pieces, pieceSize: nat, n: nat)
    requires forall i :: 0 <= i < n ==> i in pieces && |pieces[i]| == pieceSize
    ensures |Join(pieces, n)| == n * pieceSize
  {
    if n > 0 {
      JoinLength(pieces, pieceSize, n - 1);
      assert (n - 1) * pieceSize + pieceSize == n * pieceSize;
    }
  }

  /** The FileManager: its identity and sizes, and the `pieces` dictionary it updates. */
  class FileManager {
    const peerId: int
    const pieceSize: nat
    const totalPieces: nat
    var pieces: Pieces

    /** Every stored piece has an index in [0, total). */
    ghost predicate Valid()
      reads this
    {
      forall k :: k in pieces ==> 0 <= k < totalPieces
    }

    constructor (peerId: int, pieceSize: nat, totalPieces: nat)
      ensures this.peerId == peerId && this.pieceSize == pieceSize && this.totalPieces == totalPieces
      ensures pieces == map[] && Valid()
    {
      this.peerId := peerId;
      this.pieceSize := pieceSize;
      this.totalPieces := totalPieces;
      pieces := map[];
    }

    /** `save_piece`: `ok` is false exactly when it raises, and then nothing changed. */
    method SavePiece(pieceIndex: int, pieceData: seq<byte>) returns (ok: bool)
      modifies this
      ensures old(Valid()) ==> Valid()
      ensures Save(old(pieces), totalPieces, pieceIndex, pieceData) ==
              (if ok then Ok(pieces) else Err(InvalidPieceIndex))
      ensures pieces == if ok then old(pieces)[pieceIndex := pieceData] else old(pieces)
    {
      if !(0 <= pieceIndex < totalPieces) {
        return false;
      }
      pieces := pieces[pieceIndex := pieceData];
      return true;
    }

    /** `reconstruct_file`. */
    method ReconstructFile() returns (r: Result<seq<byte>, StorageError>)
      ensures r == Reconstruct(pieces, totalPieces)
    {
      if pieces.Keys != RangeSet(totalPieces) {
        return Err(MissingOrInvalidPieces);
      }
      var data: seq<byte> := [];
      var i := 0;
      while i < totalPieces
        invariant 0 <= i <= totalPieces
        invariant data == Join(pieces, i)
      {
        data := data + pieces[i];
        i := i + 1;
      }
      return Ok(data);
    }

    /**
     * `initialize_pieces`: with the complete file, saves slice
     * [index*ps, index*ps + ps) of an 'X' buffer under every index;
     * otherwise empties the table.
     */
    method InitializePieces(hasCompleteFile: bool)
      modifies this
      ensures hasCompleteFile ==>
                pieces == old(pieces) + SeededPieces(Filled(pieceSize * totalPieces), pieceSize, totalPieces)
      ensures !hasCompleteFile ==> pieces == map[]
      ensures old(Valid()) ==> Valid()
      ensures old(Valid()) && hasCompleteFile ==>
                pieces == SeededPieces(Filled(pieceSize * totalPieces), pieceSize, totalPieces)
    {
      if !hasCompleteFile {
        pieces := map[];
        return;
      }
      if Valid() {
        SeedingReplacesTable(pieces, pieceSize, totalPieces);
      }
      var fileData := Filled(pieceSize * totalPieces);
      SavePieces(fileData);
    }

    /** The loop of `initialize_pieces(True)`: saves every `pieceSize` slice of `fileData`. */
    method SavePieces(fileData: seq<byte>)
      modifies this
      ensures pieces == old(pieces) + SeededPieces(fileData, pieceSize, totalPieces)
    {
      ghost var start0 := pieces;
      for index := 0 to totalPieces
        invariant pieces == start0 + SeededPieces(fileData, pieceSize, index)
      {
        var start := index * pieceSize;
        var end := start + pieceSize;
        var pieceData := Slice(fileData, start, end);
        assert pieceData == PieceOf(fileData, pieceSize, index);
        SeedStep(start0, fileData, pieceSize, index);
        var ok := SavePiece(index, pieceData);
      }
    }
  }

  /** On a valid table, seeding overwrites every key, so the old pieces are gone. */
  lemma SeedingReplacesTable(old_: Pieces, pieceSize: nat, total: nat)
    requires old_.Keys <= RangeSet(total)
    ensures old_ + SeededPieces(Filled(pieceSize * total), pieceSize, total)
            == SeededPieces(Filled(pieceSize * total), pieceSize, total)
  {
  }
}
