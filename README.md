# RCON demo server: packet codec and console session

This project models the two components of a small Rust server that speaks the
Source RCON remote-console protocol and pretends to be a Minecraft console:

- **The packet codec** (`src/packet.rs`). A frame is a little-endian `i32`
  length, then `i32` id, then `i32` type, then the body bytes, then two zero
  bytes. The length counts everything after itself, so it is `|body| + 10`.
  Packet kinds map to wire values: ResponseValue 0, ExecCommand 2,
  AuthResponse 2, Auth 3. Reading 2 always gives ExecCommand.
  `serialize` builds a frame. `deserialize` reads one frame from the front of
  a mutable buffer and drains it. The model has three parts:
  - `PacketCodec.Serialize` is a function.
  - `PacketCodec.Deserialize` is a method. It takes a `Buffer` object whose
    `data` field it reassigns.
  - `PacketCodec.Decode` is a function that specifies the method. The
    properties are proved about it: the round trip, incomplete frames, unknown
    types, partial frames and two frames back to back.
- **The console session** (`src/rcon_minecraft.rs`). `RconMinecraft.Minecraft`
  is a class with the three fields of the Rust struct: the online roster, the
  whitelist and the whitelist flag. `HandleRconPacket` answers one request
  packet and updates the fields the way the Rust method does. Its class
  invariant `Valid()` says two things: the whitelist has no duplicates, and
  the roster always equals the whitelist. The constructor establishes it and
  every call keeps it. The if-chain that reads a command body is captured by
  `Parse`. Its inverse, `Render`, shows that the grammar is unambiguous.

The model keeps all text as UTF-8 bytes (`seq<byte>`). In Rust, `==` on
`String` compares bytes, `starts_with` tests a byte prefix, `&body[14..]`
slices bytes, and `format!` and `join` concatenate. The fixed texts of the
source are 7-bit and are written with `Text.Ascii`. The `{}` of a count is
`Text.Decimal`, and `Vec::retain(|x| *x != n)` is `Text.RemoveAll`.

The player lookup `get_player_name` makes an HTTP request. The model replaces
it with a parameter `resolve: Name -> Option<Name>`. A lookup error is `None`,
just as `.ok()` folds it in the source.

## Model

| member | source | states |
|---|---|---|
| `LittleEndian.AsUsize` | src/packet.rs:55 | `i32 as usize` on a 64-bit target leaves non-negative values alone and sends negative values above `isize::MAX` |
| `LittleEndian.EncodeI32` | src/packet.rs:44-46 | `to_le_bytes` gives four bytes: the base-256 digits of the two's-complement value, least significant first. The last byte has its top bit set exactly when the value is negative |
| `LittleEndian.DecodeI32` | src/packet.rs:55-62 | `from_le_bytes` reads four bytes as base-256 digits of the two's-complement value, least significant first. The result is negative exactly when the last byte's top bit is set |
| `LittleEndian.DecodeEncode` | src/packet.rs:44-46 | reading back the four little-endian bytes of an `i32` gives the same `i32` |
| `LittleEndian.EncodeDecode` | src/packet.rs:61-62 | any four bytes are the encoding of the `i32` they decode to, so the header fields are a bijection |
| `PacketCodec.ToWire` | src/packet.rs:9-18 | each packet kind has wire value 0, 2 or 3 |
| `PacketCodec.FromWire` | src/packet.rs:20-31 | the conversion succeeds exactly on 0, 2 and 3; what it returns has that wire value and is never AuthResponse |
| `PacketCodec.FromWireToWire` | src/packet.rs:9-31 | every kind except AuthResponse comes back from its wire value; AuthResponse comes back as ExecCommand |
| `PacketCodec.Serialize` | src/packet.rs:41-52 | a frame is `|body| + 14` bytes: LE(`|body|+10`), LE(id), LE(wire type), the body, then two zero bytes |
| `PacketCodec.Deserialize` | src/packet.rs:54-72 | the packet returned and the buffer left behind are those that `Decode` gives for the old buffer |
| `PacketCodec.Decode` | src/packet.rs:54-72 | one call consumes nothing or one whole frame of `length + 4` bytes. An incomplete frame gives nothing and leaves the buffer unchanged. A packet that comes out has a body 14 bytes shorter than its frame and can be serialized again |
| `PacketCodec.DecodeIncomplete` | src/packet.rs:55-59 | if the declared length plus 4 exceeds the buffer, the result is nothing and the buffer is unchanged |
| `PacketCodec.NegativeLengthIncomplete` | src/packet.rs:55-58 | a negative declared length becomes a huge `usize`, so it is treated as an incomplete frame and the buffer is unchanged |
| `PacketCodec.DecodeComplete` | src/packet.rs:61-71 | on a complete frame the first `length + 4` bytes are removed. The body is bytes `[12, length + 2)`. A packet with the id and type fields comes out exactly when the type is a wire value |
| `PacketCodec.DecodeUnknownTypeDrains` | src/packet.rs:62-70 | a complete frame whose type is not 0, 2 or 3 yields nothing, but its `length + 4` bytes are still drained |
| `PacketCodec.SerializedHeader` | src/packet.rs:44-46 | the header fields of a serialized packet read back as `|body| + 10`, the id and the wire type, whatever bytes follow |
| `PacketCodec.DecodeSerialize` | src/packet.rs:41-72 | decoding `Serialize(p) + rest` gives p's id, body and type (AuthResponse read as ExecCommand) and leaves exactly `rest` |
| `PacketCodec.DecodedFrame` | src/packet.rs:41-72 | the converse round trip: the frame a packet was decoded from equals the serialization of that packet exactly when the frame's two trailing bytes are zero. The decoder never reads those bytes |
| `PacketCodec.DecodePartialFrame` | src/packet.rs:55-59 | every proper prefix of a frame with at least 4 bytes gives nothing and is left in place |
| `PacketCodec.DecodeTwoFrames` | src/packet.rs:41-72 | two frames back to back decode to the two packets in order, then an empty buffer |
| `Text.Decimal` | src/rcon_minecraft.rs:55-58 | a count is printed as a non-empty string of decimal digits with no leading zero |
| `Text.DecimalValueOfDecimal` | src/rcon_minecraft.rs:55-58 | the printed digits denote the count |
| `Text.DecimalInjective` | src/rcon_minecraft.rs:109-112 | different counts print differently |
| `Text.StartsWith` | src/rcon_minecraft.rs:119 | `starts_with(p)` holds exactly when the text is `p` followed by some further text |
| `Text.Join` | src/rcon_minecraft.rs:58 | `join(sep)` of no elements is empty; otherwise it is as long as all the elements plus one separator per neighbouring pair |
| `Text.JoinSegments` | src/rcon_minecraft.rs:58 | the joined text is the elements in order: element i occupies its own segment at its offset, and exactly one separator fills the gap before the next element |
| `Text.JoinMentionsAll` | src/rcon_minecraft.rs:112 | every element of the list occurs in the joined text |
| `Text.RemoveAll` | src/rcon_minecraft.rs:152-153 | `retain(\|x\| *x != n)` keeps exactly the elements other than n and never grows the list |
| `Text.RemoveAllConcat` | src/rcon_minecraft.rs:152-153 | `retain` works piecewise on a concatenation, so kept elements keep their relative order |
| `Text.RemoveAllAbsent` | src/rcon_minecraft.rs:152-153 | `retain` of an absent name changes nothing |
| `Text.RemoveAllNoDuplicates` | src/rcon_minecraft.rs:151-153 | `retain` keeps a duplicate-free list duplicate-free, and removes exactly one element when n is present |
| `RconMinecraft.Parse` | src/rcon_minecraft.rs:51-183 | an ExecCommand body is read by the dispatcher's if-chain. An add command is the 14-byte prefix plus its raw name. A remove command is the 17-byte prefix plus its raw name. An unknown command keeps the whole body |
| `RconMinecraft.RenderParse` | src/rcon_minecraft.rs:51-183 | every body is the text of the command parsed from it |
| `RconMinecraft.ParseRender` | src/rcon_minecraft.rs:51-183 | every known command parses back from its own text, so no earlier test shadows a later one |
| `RconMinecraft.CountedList` | src/rcon_minecraft.rs:55-59 | the shared "There are {n}…{names}" format: the digits right after "There are " denote the number of names, and every name occurs in the text |
| `RconMinecraft.ListReply` | src/rcon_minecraft.rs:55-59 | the "list" reply states the number of online players and names every one of them |
| `RconMinecraft.WhitelistListReply` | src/rcon_minecraft.rs:98-116 | the reply is "There are no whitelisted players" exactly when the whitelist is empty. Otherwise it states the number of entries and names every one of them |
| `RconMinecraft.Minecraft.Valid` | src/rcon_minecraft.rs:123-153 | the class invariant: add pushes to both lists only when the name is not yet whitelisted, and remove filters both lists the same way. So the whitelist has no duplicates and the roster equals it, and hence the roster never lists a player twice |
| `RconMinecraft.Minecraft.constructor` | src/rcon_minecraft.rs:29-35 | a new session has an empty roster, an empty whitelist and the whitelist off, and satisfies the invariant |
| `RconMinecraft.Minecraft.HandleRconPacket` | src/rcon_minecraft.rs:37-195 | Auth gets an AuthResponse with empty body, and id -1 exactly when the body is "no". A reply kind as request gets no reply. Every command gets a ResponseValue with the request id. Each command's reply text and state change are stated separately. Nothing else changes, and the whitelist invariant is kept |
| `RconMinecraft.WhitelistOfOne` | src/rcon_minecraft.rs:106-116 | with one whitelisted player, the list reply is "There are 1 whitelisted player(s): " followed by the name |
| `RconMinecraft.AddListRemoveList` | src/rcon_minecraft.rs:98-172 | in a new session: adding a known player replies "Added …". Adding them again is refused. Listing shows exactly that player. Removing them replies "Removed …". Listing again reports no whitelisted players |

## Left out

- `src/main.rs` is not part of this model. It holds the TCP listener, the per-connection task, socket reads and writes, and logging. It calls `deserialize` once per read.
- The HTTP and JSON lookup in `get_player_name` is not modelled. It becomes the `resolve` parameter, and `async`/`await` is dropped. Each call of `HandleRconPacket` looks up a name at most once, as the source does.
- `String::from_utf8_lossy` on the body is not modelled. Bodies stay byte sequences. The lossy decoding is the identity on valid UTF-8. For invalid bytes the source would put U+FFFD where the model keeps the raw bytes.
- PacketCodec.Deserialize: inputs on which the source panics are excluded by the precondition `Deserializable`, not modelled. These are a buffer shorter than 4 bytes, a declared length of -4 to -1 (where `length + 4` overflows a `usize`), and a complete frame whose declared length is below 10 (where the body slice is out of order). A 64-bit target is assumed for `as usize`.
- PacketCodec.Serialize: requires `|body| + 10` to fit in an `i32`. The source's `as i32` cast and addition would overflow otherwise.
- Lengths of Rust vectors are bounded by `isize::MAX`. The model's sequences are unbounded, so `Deserializable` states that bound.
