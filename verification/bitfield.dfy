/** Piece bit-vectors: one int per piece, 1 when the piece is held. */
module BitField {

  /** `BitField.initialize`: all ones for a peer with the complete file, all zeros otherwise. */
  function Initialize(hasCompleteFile: bool, totalPieces: nat): (r: seq<int>)
    ensures |r| == totalPieces
    ensures forall i :: 0 <= i < |r| ==> r[i] == (if hasCompleteFile then 1 else 0)
  {
    seq(totalPieces, _ => if hasCompleteFile then 1 else 0)
  }

  /** The list position a Python index names: negative indices count from the end. */
  function Position(length: nat, i: int): (p: int)
    ensures -(length as int) <= i < length ==> 0 <= p < length
    ensures 0 <= i ==> p == i
  {
    if i < 0 then length + i else i
  }

  /** The list after `bitfield[i] = 1`. */
  function Updated(b: seq<int>, i: int): (r: seq<int>)
    requires -|b| <= i < |b|
    ensures |r| == |b|
    ensures r[Position(|b|, i)] == 1
    ensures forall j :: 0 <= j < |b| && j != Position(|b|, i) ==> r[j] == b[j]
  {
    b[Position(|b|, i) := 1]
  }

  /** Setting the same bit twice is the same as setting it once. */
  lemma UpdatedIdempotent(b: seq<int>, i: int)
    requires -|b| <= i < |b|
    ensures Updated(Updated(b, i), i) == Updated(b, i)
  {
  }

  /**
   * `BitField.update`, in place. An index outside [-len, len) raises
   * IndexError (ok == false) and leaves the list as it was.
   */
  method Update(bitfield: array<int>, pieceIndex: int) returns (ok: bool)
    modifies bitfield
    ensures ok <==> -bitfield.Length <= pieceIndex < bitfield.Length
    ensures ok ==> bitfield[..] == Updated(old(bitfield[..]), pieceIndex)
    ensures !ok ==> bitfield[..] == old(bitfield[..])
  {
    ok := -bitfield.Length <= pieceIndex < bitfield.Length;
    if ok {
      bitfield[Position(bitfield.Length, pieceIndex)] := 1;
    }
  }
}
