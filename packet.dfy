/**
  The RCON wire format: a frame is
    [length: i32 LE][id: i32 LE][type: i32 LE][body][0x00][0x00]
  where length counts everything after the length field itself,
  i.e. |body| + 10.
 */
module PacketCodec {

  import opened Wrappers
  import opened LittleEndian

  /** The four packet kinds. ExecCommand and AuthResponse share one wire value. */
  datatype PacketType = ResponseValue | ExecCommand | AuthResponse | Auth

  /** `Into<i32> for &RconPacketType`. */
  function ToWire(t: PacketType): (v: i32)
    ensures v == 0 || v == 2 || v == 3
  {
    match t
    case ResponseValue => 0
    case ExecCommand => 2
    case AuthResponse => 2
    case Auth => 3
  }

  /**
    `TryFrom<i32> for RconPacketType`: defined on exactly the wire values,
    and a right inverse of ToWire that reads the shared value 2 as ExecCommand.
   */
  function FromWire(v: i32): (r: Option<PacketType>)
    ensures r.Some? <==> v == 0 || v == 2 || v == 3
    ensures r.Some? ==> ToWire(r.value) == v && r.value != AuthResponse
  {
    match v
    case 0 => Some(ResponseValue)
    case 2 => Some(ExecCommand)
    case 3 => Some(Auth)
    case _ => None
  }

  /** The kind a packet of kind `t` has after a trip over the wire. */
  function WireKind(t: PacketType): PacketType {
    if t == AuthResponse then ExecCommand else t
  }

  /** Every kind survives a trip over the wire, except AuthResponse, which comes back as ExecCommand. */
  lemma FromWireToWire(t: PacketType)
    ensures FromWire(ToWire(t)) == Some(WireKind(t))
    ensures t != AuthResponse ==> FromWire(ToWire(t)) == Some(t)
  {
  }

  /** `RconPacket`; the body is kept as the bytes of its UTF-8 text. */
  datatype RconPacket = RconPacket(id: i32, kind: PacketType, body: seq<byte>)

  /** The frame length field of `p` fits in an `i32`. */
  predicate Serializable(p: RconPacket) {
    |p.body| + 10 <= I32_MAX
  }

  /** `RconPacket::serialize`. */
  function Serialize(p: RconPacket): (r: seq<byte>)
    requires Serializable(p)
    ensures |r| == |p.body| + 14
    ensures r[0..4] == EncodeI32(|p.body| + 10)
    ensures r[4..8] == EncodeI32(p.id)
    ensures r[8..12] == EncodeI32(ToWire(p.kind))
    ensures r[12..|p.body| + 12] == p.body
    ensures r[|p.body| + 12] == 0 && r[|p.body| + 13] == 0
  {
    EncodeI32(|p.body| + 10) + EncodeI32(p.id) + EncodeI32(ToWire(p.kind)) + p.body + [0, 0]
  }

  /** The length field at the front of a buffer holding at least four bytes. */
  function DeclaredLength(data: seq<byte>): i32
    requires |data| >= 4
  {
    DecodeI32(data[0..4])
  }

  /**
    The buffers `deserialize` handles without panicking: at least four bytes
    (the slice of the length field), a declared length whose `as usize + 4`
    does not overflow, and, when the frame is complete, a declared length of at
    least 10 (the slice of the body). `|data| <= ISIZE_MAX` holds of every Vec<u8>.
   */
  predicate Deserializable(data: seq<byte>) {
    && 4 <= |data| <= ISIZE_MAX
    && !(-4 <= DeclaredLength(data) < 0)
    && (AsUsize(DeclaredLength(data)) + 4 <= |data| ==> 10 <= DeclaredLength(data))
  }

  /** The frame at the front of the buffer is all there. */
  predicate Complete(data: seq<byte>)
    requires |data| >= 4
  {
    AsUsize(DeclaredLength(data)) + 4 <= |data|
  }

  /** What one call of `deserialize` returns, and the buffer it leaves. */
  datatype Decoded = Decoded(packet: Option<RconPacket>, rest: seq<byte>)

  /**
    The effect of `RconPacket::deserialize` on a buffer holding `data`: either
    nothing is consumed, or exactly one whole frame is, and a packet that comes
    out has a body exactly 14 bytes shorter than the frame it came from.
   */
  function Decode(data: seq<byte>): (d: Decoded)
    requires Deserializable(data)
    ensures d.rest == data || (Complete(data) && d.rest == data[DeclaredLength(data) + 4..])
    ensures !Complete(data) ==> d == Decoded(None, data)
    ensures d.packet.Some? ==> Serializable(d.packet.value)
    ensures d.packet.Some? ==> |d.packet.value.body| + 14 == |data| - |d.rest|
  {
    var length := AsUsize(DeclaredLength(data));
    if length + 4 > |data| then Decoded(None, data)
    else
      var id := DecodeI32(data[4..8]);
      var wireType := DecodeI32(data[8..12]);
      var body := data[12..12 + length - 10];
      var rest := data[length + 4..];
      match FromWire(wireType)
      case None => Decoded(None, rest)
      case Some(kind) => Decoded(Some(RconPacket(id, kind, body)), rest)
  }

  /** The growable receive buffer `deserialize` reads from and drains. */
  class Buffer {
    var data: seq<byte>

    constructor (initial: seq<byte>)
      ensures data == initial
    {
      data := initial;
    }
  }

  /** `RconPacket::deserialize`: takes one frame off the front of `buf`. */
  method Deserialize(buf: Buffer) returns (r: Option<RconPacket>)
    requires Deserializable(buf.data)
    modifies buf
    ensures Decoded(r, buf.data) == Decode(old(buf.data))
  {
    var length := AsUsize(DecodeI32(buf.data[0..4]));
    if length + 4 > |buf.data| {
      return None;
    }
    var id := DecodeI32(buf.data[4..8]);
    var wireType := DecodeI32(buf.data[8..12]);
    var body := buf.data[12..12 + length - 10];
    buf.data := buf.data[length + 4..];
    var kind := FromWire(wireType);
    if kind.None? {
      return None;
    }
    r := Some(RconPacket(id, kind.value, body));
  }

  // -----------------------------------------------------------------------
  // Properties of Decode
  // -----------------------------------------------------------------------

  /** A frame that is not all there yields nothing and leaves the buffer as it was. */
  lemma DecodeIncomplete(data: seq<byte>)
    requires Deserializable(data) && !Complete(data)
    ensures Decode(data) == Decoded(None, data)
  {
  }

  /** A negative declared length reads as an enormous `usize`, so the frame is never complete. */
  lemma NegativeLengthIncomplete(data: seq<byte>)
    requires Deserializable(data) && DeclaredLength(data) < 0
    ensures Decode(data) == Decoded(None, data)
  {
  }

  /**
    A complete frame is always removed from the buffer; the body is bytes
    [12, length + 2), and a packet comes out exactly when the type is a wire value.
   */
  lemma DecodeComplete(data: seq<byte>)
    requires Deserializable(data) && Complete(data)
    ensures var length := DeclaredLength(data);
      && 10 <= length
      && Decode(data).rest == data[length + 4..]
      && (Decode(data).packet.Some? <==> FromWire(DecodeI32(data[8..12])).Some?)
      && (Decode(data).packet.Some? ==>
            Decode(data).packet.value
              == RconPacket(DecodeI32(data[4..8]), FromWire(DecodeI32(data[8..12])).value, data[12..length + 2]))
  {
  }

  /** A complete frame of unknown type yields nothing but is still drained, keeping the stream aligned. */
  lemma DecodeUnknownTypeDrains(data: seq<byte>)
    requires Deserializable(data) && Complete(data)
    requires DecodeI32(data[8..12]) !in {0, 2, 3}
    ensures Decode(data) == Decoded(None, data[DeclaredLength(data) + 4..])
  {
  }

  /** The front of `Serialize(p) + rest` is the frame of `p`. */
  lemma SerializedHeader(p: RconPacket, rest: seq<byte>)
    requires Serializable(p)
    ensures var data := Serialize(p) + rest;
      && |data| >= 12
      && DeclaredLength(data) == |p.body| + 10
      && DecodeI32(data[4..8]) == p.id
      && DecodeI32(data[8..12]) == ToWire(p.kind)
  {
  }

  /**
    Round trip: decoding a serialized packet followed by any further bytes gives
    back the packet (AuthResponse read as ExecCommand) and leaves exactly the
    further bytes in the buffer.
   */
  lemma {:induction false} DecodeSerialize(p: RconPacket, rest: seq<byte>)
    requires Serializable(p)
    requires |Serialize(p) + rest| <= ISIZE_MAX
    ensures Deserializable(Serialize(p) + rest)
    ensures Decode(Serialize(p) + rest)
         == Decoded(Some(RconPacket(p.id, WireKind(p.kind), p.body)), rest)
  {
    var frame := Serialize(p);
    var data := frame + rest;
    SerializedHeader(p, rest);
    FromWireToWire(p.kind);
    assert data[12..|p.body| + 12] == frame[12..|p.body| + 12];
    assert data[|p.body| + 14..] == rest;
  }

  /**
    The converse round trip: the frame a packet was decoded from is that
    packet's serialization exactly when its two trailing bytes are zero; the
    decoder never looks at them.
   */
  lemma {:induction false} DecodedFrame(data: seq<byte>)
    requires Deserializable(data) && Decode(data).packet.Some?
    ensures var d := Decode(data);
      var end := |data| - |d.rest|;
      && 14 <= end
      && Serializable(d.packet.value)
      && (data[end - 2] == 0 && data[end - 1] == 0 <==> data == Serialize(d.packet.value) + d.rest)
  {
    var d := Decode(data);
    var p := d.packet.value;
    var end := DeclaredLength(data) as int + 4;
    EncodeDecode(data[0..4]);
    EncodeDecode(data[4..8]);
    EncodeDecode(data[8..12]);
    assert p.body == data[12..end - 2];
    var frame := data[0..4] + data[4..8] + data[8..12] + p.body + data[end - 2..end];
    assert data == frame + d.rest;
    if data[end - 2] == 0 && data[end - 1] == 0 {
      assert data[end - 2..end] == [0, 0];
      assert frame == Serialize(p);
    }
    if data == Serialize(p) + d.rest {
      assert data[end - 2] == Serialize(p)[|p.body| + 12];
      assert data[end - 1] == Serialize(p)[|p.body| + 13];
    }
  }

  /** Any proper prefix of a frame that holds the length field yields nothing and is left in place. */
  lemma {:induction false} DecodePartialFrame(p: RconPacket, k: nat)
    requires Serializable(p)
    requires 4 <= k < |Serialize(p)|
    ensures Deserializable(Serialize(p)[..k])
    ensures Decode(Serialize(p)[..k]) == Decoded(None, Serialize(p)[..k])
  {
  }

  /** Two frames sent back to back come out one after the other, leaving an empty buffer. */
  lemma {:induction false} DecodeTwoFrames(p1: RconPacket, p2: RconPacket)
    requires Serializable(p1) && Serializable(p2)
    requires |Serialize(p1) + Serialize(p2)| <= ISIZE_MAX
    ensures Deserializable(Serialize(p1) + Serialize(p2))
    ensures var first := Decode(Serialize(p1) + Serialize(p2));
      && first == Decoded(Some(RconPacket(p1.id, WireKind(p1.kind), p1.body)), Serialize(p2))
      && Deserializable(first.rest)
      && Decode(first.rest) == Decoded(Some(RconPacket(p2.id, WireKind(p2.kind), p2.body)), [])
  {
    DecodeSerialize(p1, Serialize(p2));
    DecodeSerialize(p2, []);
    assert Serialize(p2) + [] == Serialize(p2);
  }

}
