/**
  The per-connection command dispatcher: a Minecraft-like console that answers
  authentication and a handful of commands over an online-player roster and a
  whitelist.
 */
module RconMinecraft {

  import opened Wrappers
  import opened LittleEndian
  import opened Text
  import opened PacketCodec

  /** A player name, as the UTF-8 bytes of its text. */
  type Name = seq<byte>

  /**
    The player directory: maps a raw name to its canonical spelling. A failed
    lookup and an error of the lookup itself are both None.
   */
  type Resolver = Name -> Option<Name>

  // -----------------------------------------------------------------------
  // Command texts and reply texts
  // -----------------------------------------------------------------------

  const AUTH_REFUSED: seq<byte> := Ascii("no")

  const CMD_LIST: seq<byte> := Ascii("list")
  const CMD_WHITELIST_ON: seq<byte> := Ascii("whitelist on")
  const CMD_WHITELIST_OFF: seq<byte> := Ascii("whitelist off")
  const CMD_WHITELIST_LIST: seq<byte> := Ascii("whitelist list")
  const CMD_WHITELIST_ADD: seq<byte> := Ascii("whitelist add ")
  const CMD_WHITELIST_REMOVE: seq<byte> := Ascii("whitelist remove ")
  const CMD_WHITELIST_RELOAD: seq<byte> := Ascii("whitelist reload")

  const ALREADY_ON: seq<byte> := Ascii("Whitelist is already turned on")
  const NOW_ON: seq<byte> := Ascii("Whitelist is now turned on")
  const NOW_OFF: seq<byte> := Ascii("Whitelist is now turned off")
  const ALREADY_OFF: seq<byte> := Ascii("Whitelist is already turned off")
  const NO_WHITELISTED: seq<byte> := Ascii("There are no whitelisted players")
  const ALREADY_WHITELISTED: seq<byte> := Ascii("Player is already whitelisted")
  const NOT_WHITELISTED: seq<byte> := Ascii("Player is not whitelisted")
  const NO_SUCH_PLAYER: seq<byte> := Ascii("That player does not exist")
  const SEPARATOR: seq<byte> := Ascii(", ")

  /**
    "There are {n}{middle}{names}", the shape of both list replies: the digits
    after "There are " denote the number of names, the first of them is a
    digit, and every name is in the text.
   */
  function CountedList(middle: seq<byte>, names: seq<Name>): (r: seq<byte>)
    ensures var n := |Decimal(|names|)|;
      10 + n <= |r| && Denotes(r[10..10 + n], |names|)
    ensures IsDigit(r[10])
    ensures forall i | 0 <= i < |names| :: Mentions(r, names[i])
  {
    var front := Ascii("There are ") + Decimal(|names|) + middle;
    var joined := Join(names, SEPARATOR);
    DecimalBetween(Ascii("There are "), |names|, middle + joined);
    assert front + joined == Ascii("There are ") + Decimal(|names|) + (middle + joined);
    assert (front + joined)[10] == Decimal(|names|)[0];
    JoinMentionsAll(names, SEPARATOR);
    MentionsAllAfter(front, joined, names);
    front + joined
  }

  /**
    "There are {n} of a max of 20 players online: {names}": the digits after
    "There are " denote the number of players, and every player is named.
   */
  function ListReply(online: seq<Name>): (r: seq<byte>)
    ensures var n := |Decimal(|online|)|;
      10 + n <= |r| && Denotes(r[10..10 + n], |online|)
    ensures forall i | 0 <= i < |online| :: Mentions(r, online[i])
  {
    CountedList(Ascii(" of a max of 20 players online: "), online)
  }

  /**
    The reply to "whitelist list": the fixed "no whitelisted players" text
    exactly when the whitelist is empty; otherwise the digits after
    "There are " denote the number of entries, and every entry is named.
   */
  function WhitelistListReply(whitelist: seq<Name>): (r: seq<byte>)
    ensures r == NO_WHITELISTED <==> whitelist == []
    ensures whitelist != [] ==> var n := |Decimal(|whitelist|)|;
      10 + n <= |r| && Denotes(r[10..10 + n], |whitelist|)
    ensures forall i | 0 <= i < |whitelist| :: Mentions(r, whitelist[i])
  {
    if whitelist == [] then NO_WHITELISTED
    else
      var r := CountedList(Ascii(" whitelisted player(s): "), whitelist);
      assert NO_WHITELISTED[10] == 'n' as int;
      r
  }

  function AddedReply(name: Name): seq<byte> {
    Ascii("Added ") + name + Ascii(" to the whitelist")
  }

  function RemovedReply(name: Name): seq<byte> {
    Ascii("Removed ") + name + Ascii(" from the whitelist")
  }

  function UnknownReply(body: seq<byte>): seq<byte> {
    AsciiConcat("Unknown or incomplete command, ", "see below for error");
    assert "Unknown or incomplete command, " + "see below for error"
        == "Unknown or incomplete command, see below for error";
    Ascii("Unknown or incomplete command, see below for error") + body + Ascii("<--[HERE]")
  }

  // -----------------------------------------------------------------------
  // The command grammar
  // -----------------------------------------------------------------------

  /** The commands the dispatcher tells apart, with the raw name argument where there is one. */
  datatype Command =
    | List
    | WhitelistOn
    | WhitelistOff
    | WhitelistList
    | WhitelistAdd(raw: Name)
    | WhitelistRemove(raw: Name)
    | WhitelistReload
    | Unknown(text: seq<byte>)

  /**
    How the dispatcher reads an ExecCommand body: exact comparisons and two
    prefixes, tried in the dispatcher's order; the argument after a prefix is
    everything past its 14 or 17 bytes.
   */
  function Parse(body: seq<byte>): (c: Command)
    ensures c.WhitelistAdd? ==> body == CMD_WHITELIST_ADD + c.raw
    ensures c.WhitelistRemove? ==> body == CMD_WHITELIST_REMOVE + c.raw
    ensures c.Unknown? ==> c.text == body
  {
    if body == CMD_LIST then List
    else if body == CMD_WHITELIST_ON then WhitelistOn
    else if body == CMD_WHITELIST_OFF then WhitelistOff
    else if body == CMD_WHITELIST_LIST then WhitelistList
    else if StartsWith(body, CMD_WHITELIST_ADD) then WhitelistAdd(body[14..])
    else if StartsWith(body, CMD_WHITELIST_REMOVE) then WhitelistRemove(body[17..])
    else if body == CMD_WHITELIST_RELOAD then WhitelistReload
    else Unknown(body)
  }

  /** The text of a command: the inverse of Parse. */
  function Render(c: Command): seq<byte> {
    match c
    case List => CMD_LIST
    case WhitelistOn => CMD_WHITELIST_ON
    case WhitelistOff => CMD_WHITELIST_OFF
    case WhitelistList => CMD_WHITELIST_LIST
    case WhitelistAdd(raw) => CMD_WHITELIST_ADD + raw
    case WhitelistRemove(raw) => CMD_WHITELIST_REMOVE + raw
    case WhitelistReload => CMD_WHITELIST_RELOAD
    case Unknown(text) => text
  }

  /** Parsing loses nothing: every body is the text of the command read from it. */
  lemma RenderParse(body: seq<byte>)
    ensures Render(Parse(body)) == body
  {
  }

  /**
    The grammar is unambiguous: every command other than Unknown is read back
    from its own text, so no earlier test of the dispatcher shadows a later one.
   */
  lemma ParseRender(c: Command)
    requires !c.Unknown?
    ensures Parse(Render(c)) == c
  {
    var t := Render(c);
    match c
    case WhitelistAdd(raw) =>
      assert t[10] == 'a' as int != CMD_WHITELIST_LIST[10];
      assert t[..14] == CMD_WHITELIST_ADD;
    case WhitelistRemove(raw) =>
      assert t[10] == 'r' as int != CMD_WHITELIST_ADD[10];
      assert t[..17] == CMD_WHITELIST_REMOVE;
    case WhitelistReload =>
      assert t[10] == 'r' as int != CMD_WHITELIST_ADD[10];
    case _ =>
  }

  // -----------------------------------------------------------------------
  // The session
  // -----------------------------------------------------------------------

  /** `Minecraft`: the state of one connection's console. */
  class Minecraft {
    var onlinePlayers: seq<Name>
    var whitelistPlayers: seq<Name>
    var whitelistEnabled: bool

    /** The whitelist never names a player twice, and the roster is always the whitelist. */
    ghost predicate Valid()
      reads this
      ensures Valid() ==> NoDuplicates(onlinePlayers)
    {
      NoDuplicates(whitelistPlayers) && onlinePlayers == whitelistPlayers
    }

    /** `Minecraft::new`. */
    constructor ()
      ensures Valid()
      ensures onlinePlayers == [] && whitelistPlayers == [] && !whitelistEnabled
    {
      onlinePlayers := [];
      whitelistPlayers := [];
      whitelistEnabled := false;
    }

    /**
      `Minecraft::handle_rcon_packet`: answers one request packet, with
      `resolve` standing for the player directory.
     */
    method HandleRconPacket(request: RconPacket, resolve: Resolver) returns (reply: Option<RconPacket>)
      requires Valid()
      modifies this
      ensures Valid()
      // authentication always succeeds, except for the password "no"
      ensures request.kind == Auth ==>
        && unchanged(this)
        && reply == Some(RconPacket(if request.body == AUTH_REFUSED then -1 else request.id, AuthResponse, []))
      // reply kinds arriving as requests are dropped
      ensures (request.kind == ResponseValue || request.kind == AuthResponse) ==>
        unchanged(this) && reply == None
      // every command is answered with a response carrying the request's id
      ensures request.kind == ExecCommand ==>
        reply.Some? && reply.value.id == request.id && reply.value.kind == ResponseValue
      ensures request.kind == ExecCommand && Parse(request.body) == List ==>
        unchanged(this) && reply.value.body == ListReply(onlinePlayers)
      ensures request.kind == ExecCommand && Parse(request.body) == WhitelistOn ==>
        && whitelistEnabled
        && onlinePlayers == old(onlinePlayers) && whitelistPlayers == old(whitelistPlayers)
        && reply.value.body == (if old(whitelistEnabled) then ALREADY_ON else NOW_ON)
      ensures request.kind == ExecCommand && Parse(request.body) == WhitelistOff ==>
        && !whitelistEnabled
        && onlinePlayers == old(onlinePlayers) && whitelistPlayers == old(whitelistPlayers)
        && reply.value.body == (if old(whitelistEnabled) then NOW_OFF else ALREADY_OFF)
      ensures request.kind == ExecCommand && Parse(request.body) == WhitelistList ==>
        unchanged(this) && reply.value.body == WhitelistListReply(whitelistPlayers)
      ensures request.kind == ExecCommand && Parse(request.body).WhitelistAdd? ==>
        match resolve(Parse(request.body).raw)
        case None =>
          unchanged(this) && reply.value.body == NO_SUCH_PLAYER
        case Some(name) =>
          if name in old(whitelistPlayers) then
            unchanged(this) && reply.value.body == ALREADY_WHITELISTED
          else
            && onlinePlayers == old(onlinePlayers) + [name]
            && whitelistPlayers == old(whitelistPlayers) + [name]
            && whitelistEnabled == old(whitelistEnabled)
            && reply.value.body == AddedReply(name)
      ensures request.kind == ExecCommand && Parse(request.body).WhitelistRemove? ==>
        match resolve(Parse(request.body).raw)
        case None =>
          unchanged(this) && reply.value.body == NO_SUCH_PLAYER
        case Some(name) =>
          if name in old(whitelistPlayers) then
            && onlinePlayers == RemoveAll(old(onlinePlayers), name)
            && whitelistPlayers == RemoveAll(old(whitelistPlayers), name)
            && whitelistEnabled == old(whitelistEnabled)
            && reply.value.body == RemovedReply(name)
          else
            unchanged(this) && reply.value.body == NOT_WHITELISTED
      ensures request.kind == ExecCommand && Parse(request.body) == WhitelistReload ==>
        unchanged(this) && reply.value.body == []
      ensures request.kind == ExecCommand && Parse(request.body).Unknown? ==>
        unchanged(this) && reply.value.body == UnknownReply(request.body)
    {
      if request.kind == Auth {
        var id := if request.body == AUTH_REFUSED then -1 else request.id;
        return Some(RconPacket(id, AuthResponse, []));
      }

      if request.kind == ExecCommand {
        var body := request.body;
        if body == CMD_LIST {
          return Some(RconPacket(request.id, ResponseValue, ListReply(onlinePlayers)));
        }

        if body == CMD_WHITELIST_ON {
          if whitelistEnabled {
            return Some(RconPacket(request.id, ResponseValue, ALREADY_ON));
          } else {
            whitelistEnabled := true;
            return Some(RconPacket(request.id, ResponseValue, NOW_ON));
          }
        }

        if body == CMD_WHITELIST_OFF {
          if whitelistEnabled {
            whitelistEnabled := false;
            return Some(RconPacket(request.id, ResponseValue, NOW_OFF));
          } else {
            return Some(RconPacket(request.id, ResponseValue, ALREADY_OFF));
          }
        }

        if body == CMD_WHITELIST_LIST {
          if whitelistPlayers == [] {
            return Some(RconPacket(request.id, ResponseValue, NO_WHITELISTED));
          } else {
            return Some(RconPacket(request.id, ResponseValue, WhitelistListReply(whitelistPlayers)));
          }
        }

        if StartsWith(body, CMD_WHITELIST_ADD) {
          var raw := body[14..];
          var resolved := resolve(raw);
          if resolved.Some? {
            var name := resolved.value;
            if name in whitelistPlayers {
              return Some(RconPacket(request.id, ResponseValue, ALREADY_WHITELISTED));
            } else {
              onlinePlayers := onlinePlayers + [name];
              whitelistPlayers := whitelistPlayers + [name];
              return Some(RconPacket(request.id, ResponseValue, AddedReply(name)));
            }
          } else {
            return Some(RconPacket(request.id, ResponseValue, NO_SUCH_PLAYER));
          }
        }

        if StartsWith(body, CMD_WHITELIST_REMOVE) {
          var raw := body[17..];
          var resolved := resolve(raw);
          if resolved.Some? {
            var name := resolved.value;
            if name in whitelistPlayers {
              RemoveAllNoDuplicates(whitelistPlayers, name);
              onlinePlayers := RemoveAll(onlinePlayers, name);
              whitelistPlayers := RemoveAll(whitelistPlayers, name);
              return Some(RconPacket(request.id, ResponseValue, RemovedReply(name)));
            } else {
              return Some(RconPacket(request.id, ResponseValue, NOT_WHITELISTED));
            }
          } else {
            return Some(RconPacket(request.id, ResponseValue, NO_SUCH_PLAYER));
          }
        }

        if body == CMD_WHITELIST_RELOAD {
          return Some(RconPacket(request.id, ResponseValue, []));
        }

        return Some(RconPacket(request.id, ResponseValue, UnknownReply(body)));
      }

      return None;
    }
  }

  // -----------------------------------------------------------------------
  // A session seen from a client
  // -----------------------------------------------------------------------

  /** The "whitelist list" reply for a single player. */
  lemma WhitelistOfOne(name: Name)
    ensures WhitelistListReply([name]) == Ascii("There are 1 whitelisted player(s): ") + name
  {
  }

  /**
    A fresh session whose directory knows `raw`: adding the player lists them
    as the one whitelisted player, adding them again is refused, and removing
    them empties the whitelist again.
   */
  method AddListRemoveList(raw: Name, resolve: Resolver)
    returns (added: seq<byte>, addedAgain: seq<byte>, listed: seq<byte>, removed: seq<byte>, listedAfter: seq<byte>)
    requires resolve(raw).Some?
    ensures added == AddedReply(resolve(raw).value)
    ensures addedAgain == ALREADY_WHITELISTED
    ensures listed == Ascii("There are 1 whitelisted player(s): ") + resolve(raw).value
    ensures removed == RemovedReply(resolve(raw).value)
    ensures listedAfter == NO_WHITELISTED
  {
    var name := resolve(raw).value;
    var add := RconPacket(1, ExecCommand, Render(WhitelistAdd(raw)));
    var list := RconPacket(2, ExecCommand, Render(WhitelistList));
    var remove := RconPacket(3, ExecCommand, Render(WhitelistRemove(raw)));
    ParseRender(WhitelistAdd(raw));
    ParseRender(WhitelistList);
    ParseRender(WhitelistRemove(raw));

    var console := new Minecraft();
    var reply := console.HandleRconPacket(add, resolve);
    assert console.whitelistPlayers == [name];
    added := reply.value.body;
    reply := console.HandleRconPacket(add, resolve);
    assert console.whitelistPlayers == [name];
    addedAgain := reply.value.body;
    reply := console.HandleRconPacket(list, resolve);
    WhitelistOfOne(name);
    listed := reply.value.body;
    reply := console.HandleRconPacket(remove, resolve);
    assert console.whitelistPlayers == [];
    removed := reply.value.body;
    reply := console.HandleRconPacket(list, resolve);
    listedAfter := reply.value.body;
  }

}
