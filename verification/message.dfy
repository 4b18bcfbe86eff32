/**
 * The wire codec: length-prefixed frames, the HAVE / REQUEST / PIECE
 * constructors and the fixed 32-byte handshake.
 */
module Message {
  import opened Wrappers
  import opened Bytes

  /** Message type codes. */
  const CHOKE: byte := 0
  const UNCHOKE: byte := 1
  const INTERESTED: byte := 2
  const NOT_INTERESTED: byte := 3
  const HAVE: byte := 4
  const BITFIELD: byte := 5
  const REQUEST: byte := 6
  const PIECE: byte := 7

  /** The exceptions the codec raises. */
  datatype CodecError = InvalidMessageError | ValueError | OverflowError

  /** What `parse_message` returns: the type byte and the payload. */
  datatype Parsed = Parsed(msgType: int, payload: seq<byte>)

  /**
   * `create_message`: a 4-byte big-endian length (payload size + 1), the
   * type byte, then the payload. `to_bytes` raises when the length does not
   * fit in 4 bytes or the type does not fit in 1.
   */
  function CreateMessage(msgType: int, payload: seq<byte>): (r: Result<seq<byte>, CodecError>)
    ensures r.Ok? <==> 0 <= msgType < 256 && |payload| + 1 < Pow256(4)
    ensures r.Err? ==> r.error == OverflowError
    ensures r.Ok? ==> |r.value| == |payload| + 5 && FromBytes(r.value[..4]) == |payload| + 1
                      && r.value[4] == msgType && r.value[5..] == payload
  {
    var length := |payload| + 1;
    if length >= Pow256(4) then Err(OverflowError)
    else if !(0 <= msgType < 256) then Err(OverflowError)
    else
      var frame := ToBytes(length, 4) + [msgType] + payload;
      FromToBytes(length, 4);
      assert frame[..4] == ToBytes(length, 4);
      Ok(frame)
  }

  /**
   * `parse_message`: too short (under 5 bytes) or a length field that does not
   * match the number of bytes after the type byte raises InvalidMessageError.
   */
  function ParseMessage(data: seq<byte>): (r: Result<Parsed, CodecError>)
    ensures |data| < 5 ==> r == Err(InvalidMessageError)
    ensures r.Err? ==> r.error == InvalidMessageError
    ensures r.Ok? <==> |data| >= 5 && |data| - 5 == FromBytes(data[..4]) - 1
    ensures r.Ok? ==> r.value.msgType == data[4] && r.value.payload == data[5..]
  {
    if |data| < 5 then Err(InvalidMessageError)
    else
      var length := FromBytes(data[..4]);
      var payload := data[5..];
      if |payload| != length - 1 then Err(InvalidMessageError)
      else Ok(Parsed(data[4], payload))
  }

  /** Parsing a created frame gives back its type and payload. */
  lemma ParseCreate(msgType: int, payload: seq<byte>)
    requires CreateMessage(msgType, payload).Ok?
    ensures ParseMessage(CreateMessage(msgType, payload).value) == Ok(Parsed(msgType, payload))
  {
  }

  /** Every frame that parses is exactly the frame `create_message` builds from what it parsed to. */
  lemma {:induction false} CreateParse(data: seq<byte>)
    requires ParseMessage(data).Ok?
    ensures CreateMessage(ParseMessage(data).value.msgType, ParseMessage(data).value.payload) == Ok(data)
  {
    var m := ParseMessage(data).value;
    var header := data[..4];
    ToFromBytes(header);
    assert FromBytes(header) == |m.payload| + 1;
    assert data == header + [data[4]] + data[5..];
  }

  /** `Have.create`: a negative index raises ValueError, one beyond 4 bytes OverflowError. */
  function Have(pieceIndex: int): (r: Result<seq<byte>, CodecError>)
    ensures pieceIndex < 0 ==> r == Err(ValueError)
    ensures pieceIndex >= Pow256(4) ==> r == Err(OverflowError)
    ensures r.Ok? <==> 0 <= pieceIndex < Pow256(4)
    ensures r.Ok? ==> |r.value| == 9
                      && ParseMessage(r.value) == Ok(Parsed(HAVE, ToBytes(pieceIndex, 4)))
  {
    if pieceIndex < 0 then Err(ValueError)
    else if pieceIndex >= Pow256(4) then Err(OverflowError)
    else CreateMessage(HAVE, ToBytes(pieceIndex, 4))
  }

  /** `Have.create(5)` is the nine bytes 00 00 00 05 04 00 00 00 05. */
  lemma HaveFiveBytes()
    ensures Have(5) == Ok([0, 0, 0, 5, 4, 0, 0, 0, 5])
  {
    assert Pow256(4) == 0x1_0000_0000;
    var index := ToBytes(5, 4);
    assert index == [0, 0, 0, 5];
    assert ToBytes(|index| + 1, 4) == index;
    assert Have(5) == Ok(index + [HAVE] + index);
    assert index + [HAVE] + index == [0, 0, 0, 5, 4, 0, 0, 0, 5];
  }

  /** A message without payload (CHOKE, UNCHOKE, INTERESTED, ...) is the five bytes 00 00 00 01 t. */
  lemma EmptyFrame(msgType: byte)
    ensures CreateMessage(msgType, []) == Ok([0, 0, 0, 1, msgType])
  {
    assert Pow256(4) == 0x1_0000_0000;
    assert ToBytes(1, 4) == [0, 0, 0, 1];
    assert CreateMessage(msgType, []) == Ok(ToBytes(1, 4) + [msgType] + []);
    assert ToBytes(1, 4) + [msgType] + [] == [0, 0, 0, 1, msgType];
  }

  /**
   * `Request.create`: the payload is an extra 0x06 byte followed by the
   * 4-byte index, so the length field says 6.
   */
  function Request(pieceIndex: int): (r: Result<seq<byte>, CodecError>)
    ensures pieceIndex < 0 ==> r == Err(ValueError)
    ensures pieceIndex >= Pow256(4) ==> r == Err(OverflowError)
    ensures r.Ok? <==> 0 <= pieceIndex < Pow256(4)
    ensures r.Ok? ==> |r.value| == 10 && FromBytes(r.value[..4]) == 6
                      && ParseMessage(r.value) == Ok(Parsed(REQUEST, [REQUEST] + ToBytes(pieceIndex, 4)))
  {
    if pieceIndex < 0 then Err(ValueError)
    else if pieceIndex >= Pow256(4) then Err(OverflowError)
    else CreateMessage(REQUEST, [REQUEST] + ToBytes(pieceIndex, 4))
  }

  /** `Piece.create`: the payload is the 4-byte index followed by the piece data. */
  function Piece(pieceIndex: int, data: seq<byte>): (r: Result<seq<byte>, CodecError>)
    ensures pieceIndex < 0 ==> r == Err(ValueError)
    ensures r.Ok? <==> 0 <= pieceIndex < Pow256(4) && |data| + 5 < Pow256(4)
    ensures r.Ok? ==> |r.value| == |data| + 9
                      && ParseMessage(r.value) == Ok(Parsed(PIECE, ToBytes(pieceIndex, 4) + data))
  {
    if pieceIndex < 0 then Err(ValueError)
    else if pieceIndex >= Pow256(4) then Err(OverflowError)
    else CreateMessage(PIECE, ToBytes(pieceIndex, 4) + data)
  }

  /** `Handshake.HEADER`, the 28 ASCII bytes of "P2PFILESHARINGPROJ0000000000". */
  const HEADER: seq<byte> := [80, 50, 80, 70, 73, 76, 69, 83, 72, 65, 82, 73, 78, 71,
                              80, 82, 79, 74, 48, 48, 48, 48, 48, 48, 48, 48, 48, 48]

  /** `create_handshake`: HEADER then the 4-byte big-endian peer id; ids outside [0, 2^32) raise. */
  function CreateHandshake(peerId: int): (r: Result<seq<byte>, CodecError>)
    ensures r.Ok? <==> 0 <= peerId < Pow256(4)
    ensures r.Err? ==> r.error == ValueError
    ensures r.Ok? ==> |r.value| == 32 && r.value[..28] == HEADER && FromBytes(r.value[28..]) == peerId
  {
    if !(0 <= peerId < Pow256(4)) then Err(ValueError)
    else
      var h := HEADER + ToBytes(peerId, 4);
      FromToBytes(peerId, 4);
      assert h[28..] == ToBytes(peerId, 4);
      Ok(h)
  }

  /** `parse_handshake`: anything but 32 bytes starting with HEADER raises ValueError. */
  function ParseHandshake(handshake: seq<byte>): (r: Result<nat, CodecError>)
    ensures r.Ok? <==> |handshake| == 32 && handshake[..28] == HEADER
    ensures r.Err? ==> r.error == ValueError
    ensures r.Ok? ==> r.value < Pow256(4)
  {
    if |handshake| != 32 then Err(ValueError)
    else if handshake[..28] != HEADER then Err(ValueError)
    else Ok(FromBytes(handshake[28..]))
  }

  /** A created handshake parses back to the peer id it carries. */
  lemma HandshakeRoundTrip(peerId: int)
    requires 0 <= peerId < Pow256(4)
    ensures ParseHandshake(CreateHandshake(peerId).value) == Ok(peerId)
  {
  }

  /** Every handshake that parses is the one `create_handshake` builds for its id. */
  lemma {:induction false} HandshakeParseCreate(handshake: seq<byte>)
    requires ParseHandshake(handshake).Ok?
    ensures CreateHandshake(ParseHandshake(handshake).value) == Ok(handshake)
  {
    var tail := handshake[28..];
    ToFromBytes(tail);
    assert handshake == HEADER + tail;
  }
}
