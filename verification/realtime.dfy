/**
 * The realtime room server: the handshake guard that admits a socket, the
 * connection handler that puts it in its project's room, the
 * `project-message` router that relays chat and answers `@savana`, and the
 * silent leave on disconnect. Rooms are a map from room id to member
 * sockets; every emit is recorded with its recipient set.
 */
module Realtime {
  import opened Wrappers
  import Text
  import opened Jwt
  import opened Protocol
  import opened ProjectModel
  import UserModel
  import AuthMiddleware

  type SocketId = string
  type RoomId = string

  // ---------------------------------------------------------------------
  // handshake admission
  // ---------------------------------------------------------------------

  /** What the handshake carries: `auth.token`, the `Authorization` header and the `projectId` query parameter. */
  datatype Handshake = Handshake(authToken: Option<string>, authorization: Option<string>, projectId: Option<string>)

  const InvalidProjectMessage := "Invalid projectId"
  const NoTokenMessage := "Authentication Error"
  const FalsyDecodeMessage := "Authentication error"

  /**
   * `handshake.auth?.token || handshake.headers.authorization?.split(' ')[1]`:
   * unlike the HTTP gate, a missing header gives `undefined` instead of throwing.
   */
  function HandshakeToken(h: Handshake): (t: Option<string>)
    ensures Text.Present(h.authToken) ==> t == h.authToken
    ensures !Text.Present(h.authToken) && h.authorization.None? ==> t.None?
    ensures !Text.Present(h.authToken) && h.authorization.Some? ==> t == Text.Piece(h.authorization.value, ' ', 1)
  {
    if Text.Present(h.authToken) then h.authToken
    else if h.authorization.None? then None
    else Text.Piece(h.authorization.value, ' ', 1)
  }

  /** The outcome of the guard: the error passed to `next`, or the fields of an admitted socket. */
  datatype Admission = Refused(message: string) | Admitted(project: Option<Project>, user: Claims)

  /**
   * The `io.use` guard: the project id is checked first, then the project is
   * looked up (its absence is not an error), then the token must be truthy
   * and must verify to a truthy payload. No blacklist is consulted.
   */
  function Admit(h: Handshake, isValidId: string -> bool, findById: string -> Option<Project>,
                 verify: string -> Verification): (r: Admission)
    ensures h.projectId.None? || !isValidId(h.projectId.value) ==> r == Refused(InvalidProjectMessage)
    ensures h.projectId.Some? && isValidId(h.projectId.value) ==>
      var t := HandshakeToken(h);
      && (!Text.Present(t) ==> r == Refused(NoTokenMessage))
      && (Text.Present(t) && verify(t.value).Threw? ==> r == Refused(verify(t.value).message))
      && (Text.Present(t) && verify(t.value) == Returned(None) ==> r == Refused(FalsyDecodeMessage))
    ensures r.Admitted? <==>
      && h.projectId.Some? && isValidId(h.projectId.value)
      && Text.Present(HandshakeToken(h))
      && verify(HandshakeToken(h).value).Returned? && verify(HandshakeToken(h).value).decoded.Some?
    ensures r.Admitted? ==>
      r.project == findById(h.projectId.value) && r.user == verify(HandshakeToken(h).value).decoded.value
  {
    if h.projectId.None? || !isValidId(h.projectId.value) then Refused(InvalidProjectMessage)
    else
      var project := findById(h.projectId.value);
      var t := HandshakeToken(h);
      if !Text.Present(t) then Refused(NoTokenMessage)
      else match verify(t.value)
        case Threw(m) => Refused(m)
        case Returned(None) => Refused(FalsyDecodeMessage)
        case Returned(Some(c)) => Admitted(project, c)
  }

  /** Whether the project exists makes no difference to admission, nor to the refusal message. */
  lemma AdmissionIgnoresProjectExistence(h: Handshake, isValidId: string -> bool,
                                         found: string -> Option<Project>, absent: string -> Option<Project>,
                                         verify: string -> Verification)
    requires forall id :: absent(id) == None
    ensures Admit(h, isValidId, found, verify).Admitted? <==> Admit(h, isValidId, absent, verify).Admitted?
    ensures Admit(h, isValidId, found, verify).Refused? ==>
      Admit(h, isValidId, found, verify) == Admit(h, isValidId, absent, verify)
    ensures Admit(h, isValidId, absent, verify).Admitted? ==> Admit(h, isValidId, absent, verify).project.None?
  {
  }

  /**
   * A token made by `generateJWT` and then logged out is refused by the HTTP
   * gate but still admitted by the socket handshake, sent as `auth.token` or
   * as the second word of the `Authorization` header.
   */
  lemma LoggedOutTokenIsStillAdmitted(u: UserModel.User, sign: SignRequest -> string, verify: string -> Verification,
                                      blacklist: set<string>, scheme: string, projectId: string,
                                      isValidId: string -> bool, findById: string -> Option<Project>)
    requires SignedTokensVerify(sign, verify)
    requires ' ' !in UserModel.GenerateJwt(u, sign) && ' ' !in scheme
    requires isValidId(projectId)
    ensures var token := UserModel.GenerateJwt(u, sign);
            var out := AuthMiddleware.Request(Some(token), None);
            var revoked := AuthMiddleware.Logout(blacklist, out).value;
            && AuthMiddleware.Logout(blacklist, out).Success?
            && AuthMiddleware.CallNext !in AuthMiddleware.Gate(out, revoked, verify)
            && Admit(Handshake(Some(token), None, Some(projectId)), isValidId, findById, verify)
               == Admitted(findById(projectId), Claims(u.email))
            && Admit(Handshake(None, Some(scheme + " " + token), Some(projectId)), isValidId, findById, verify)
               == Admitted(findById(projectId), Claims(u.email))
  {
    var token := UserModel.GenerateJwt(u, sign);
    var out := AuthMiddleware.Request(Some(token), None);
    UserModel.GeneratedTokenVerifies(u, sign, verify);
    AuthMiddleware.LoggedOutTokenIsRefused(blacklist, out, out, verify);
    Text.BearerPiece(scheme, token);
  }

  // ---------------------------------------------------------------------
  // rooms
  // ---------------------------------------------------------------------

  /** The room registry: each room id with its member sockets. */
  type Rooms = map<RoomId, set<SocketId>>

  /** The sockets in a room; a room nobody is in has no members. */
  function Members(rooms: Rooms, room: RoomId): set<SocketId> {
    if room in rooms then rooms[room] else {}
  }

  /** The registry keeps no empty room. */
  ghost predicate NoEmptyRooms(rooms: Rooms) {
    forall room :: room in rooms ==> rooms[room] != {}
  }

  /** `socket.join(room)`. */
  function Join(rooms: Rooms, room: RoomId, sid: SocketId): (r: Rooms)
    ensures Members(r, room) == Members(rooms, room) + {sid}
    ensures forall other :: other != room ==> Members(r, other) == Members(rooms, other)
    ensures NoEmptyRooms(rooms) ==> NoEmptyRooms(r)
  {
    rooms[room := Members(rooms, room) + {sid}]
  }

  /** `socket.leave(room)`: the socket is removed, and a room left empty is deleted. */
  function Leave(rooms: Rooms, room: RoomId, sid: SocketId): (r: Rooms)
    ensures Members(r, room) == Members(rooms, room) - {sid}
    ensures forall other :: other != room ==> Members(r, other) == Members(rooms, other)
    ensures NoEmptyRooms(rooms) ==> NoEmptyRooms(r)
  {
    if room !in rooms then rooms
    else if rooms[room] - {sid} == {} then rooms - {room}
    else rooms[room := rooms[room] - {sid}]
  }

  /** Joining a room twice is joining it once. */
  lemma JoinIdempotent(rooms: Rooms, room: RoomId, sid: SocketId)
    ensures Join(Join(rooms, room, sid), room, sid) == Join(rooms, room, sid)
  {
    var once := Join(rooms, room, sid);
    assert Members(once, room) + {sid} == Members(once, room);
  }

  /** Leaving a room one is not in changes nothing. */
  lemma LeaveNonMember(rooms: Rooms, room: RoomId, sid: SocketId)
    requires NoEmptyRooms(rooms) && sid !in Members(rooms, room)
    ensures Leave(rooms, room, sid) == rooms
  {
    if room in rooms {
      assert rooms[room] - {sid} == rooms[room];
    }
  }

  /** Leaving a room one had just joined restores the registry exactly. */
  lemma LeaveUndoesJoin(rooms: Rooms, room: RoomId, sid: SocketId)
    requires NoEmptyRooms(rooms) && sid !in Members(rooms, room)
    ensures Leave(Join(rooms, room, sid), room, sid) == rooms
  {
    var r := Leave(Join(rooms, room, sid), room, sid);
    assert Members(r, room) == Members(rooms, room);
    forall other | other in rooms
      ensures other in r && r[other] == rooms[other]
    {
      assert Members(r, other) == Members(rooms, other);
    }
    forall other | other in r
      ensures other in rooms
    {
      assert Members(r, other) == Members(rooms, other);
    }
  }

  // ---------------------------------------------------------------------
  // message routing
  // ---------------------------------------------------------------------

  /** One `emit('project-message', payload)` to a set of sockets. */
  datatype Emit = Emit(recipients: set<SocketId>, payload: ChatMessage)

  /** The prompt sent for generation: the text with its first `@savana` removed. */
  function Prompt(m: string): (p: string)
    ensures !Text.Includes(m, Marker) ==> p == m
    ensures Text.Includes(m, Marker) ==> |p| == |m| - |Marker|
  {
    Text.ReplaceFirst(m, Marker, "")
  }

  /** The prompt is the text around the first marker, and a later marker survives in it. */
  lemma PromptCutsFirstMarker(m: string, i: int, j: int)
    requires Text.IsFirstOccurrence(m, Marker, i)
    ensures Prompt(m) == m[..i] + m[i + |Marker|..]
    ensures Text.OccursAt(m, Marker, j) && i + |Marker| <= j ==> Text.Includes(Prompt(m), Marker)
  {
    Text.ReplaceFirstAt(m, Marker, "", i);
    assert m[..i] + "" + m[i + |Marker|..] == m[..i] + m[i + |Marker|..];
    if Text.OccursAt(m, Marker, j) && i + |Marker| <= j {
      Text.ReplaceFirstKeepsLaterOccurrence(m, Marker, i, j);
    }
  }

  /**
   * The `project-message` handler for a sender in a room with the given
   * members: `includes` throws on a missing text before anything is sent;
   * otherwise the message is relayed unchanged to every member but the
   * sender and, when it mentions `@savana` and generation succeeds, one
   * assistant reply goes to every member, the sender included.
   */
  function Route(members: set<SocketId>, sender: SocketId, data: ChatMessage,
                 generate: string -> Option<string>): (out: seq<Emit>)
    ensures data.newmessage.None? ==> out == []
    ensures data.newmessage.Some? ==> 1 <= |out| <= 2 && out[0] == Emit(members - {sender}, data)
    ensures |out| == 2 <==>
      data.newmessage.Some? && Text.Includes(data.newmessage.value, Marker)
      && generate(Prompt(data.newmessage.value)).Some?
    ensures |out| == 2 ==>
      out[1] == Emit(members, AssistantReply(generate(Prompt(data.newmessage.value)).value))
  {
    match data.newmessage
    case None => []
    case Some(m) =>
      var relay := [Emit(members - {sender}, data)];
      if !Text.Includes(m, Marker) then relay
      else
        match generate(Prompt(m))
        case None => relay
        case Some(result) => relay + [Emit(members, AssistantReply(result))]
  }

  /** The payloads a socket receives from a sequence of emits, in order. */
  function DeliveredTo(out: seq<Emit>, sid: SocketId): (msgs: seq<ChatMessage>)
    ensures |msgs| <= |out|
    ensures msgs == [] <==> forall i :: 0 <= i < |out| ==> sid !in out[i].recipients
  {
    if out == [] then []
    else (if sid in out[0].recipients then [out[0].payload] else []) + DeliveredTo(out[1..], sid)
  }

  lemma {:induction false} DeliveredToAppend(a: seq<Emit>, b: seq<Emit>, sid: SocketId)
    ensures DeliveredTo(a + b, sid) == DeliveredTo(a, sid) + DeliveredTo(b, sid)
  {
    if a == [] {
      assert a + b == b;
    } else {
      var head := if sid in a[0].recipients then [a[0].payload] else [];
      assert (a + b)[0] == a[0] && (a + b)[1..] == a[1..] + b;
      assert DeliveredTo(a + b, sid) == head + DeliveredTo(a[1..] + b, sid);
      DeliveredToAppend(a[1..], b, sid);
      assert DeliveredTo(a, sid) == head + DeliveredTo(a[1..], sid);
    }
  }

  /** The sender never gets its own message back; it gets the assistant reply, if there is one. */
  lemma SenderGetsOnlyTheReply(members: set<SocketId>, sender: SocketId, data: ChatMessage,
                               generate: string -> Option<string>)
    requires sender in members
    ensures var out := Route(members, sender, data, generate);
            DeliveredTo(out, sender) == if |out| == 2 then [out[1].payload] else []
  {
    var out := Route(members, sender, data, generate);
    if |out| == 2 {
      assert out[1..][1..] == [];
    } else if |out| == 1 {
      assert out[1..] == [];
    }
  }

  /** Every other member gets the message unchanged, then the assistant reply, if there is one. */
  lemma PeerGetsRelayThenReply(members: set<SocketId>, sender: SocketId, peer: SocketId, data: ChatMessage,
                               generate: string -> Option<string>)
    requires peer in members && peer != sender && data.newmessage.Some?
    ensures var out := Route(members, sender, data, generate);
            DeliveredTo(out, peer) == [data] + if |out| == 2 then [out[1].payload] else []
  {
    var out := Route(members, sender, data, generate);
    if |out| == 2 {
      assert out[1..][1..] == [];
    }
  }

  /** A socket outside the room receives nothing. */
  lemma OutsiderGetsNothing(members: set<SocketId>, sender: SocketId, outsider: SocketId, data: ChatMessage,
                            generate: string -> Option<string>)
    requires outsider !in members
    ensures DeliveredTo(Route(members, sender, data, generate), outsider) == []
  {
    var out := Route(members, sender, data, generate);
    if |out| == 2 {
      assert out[1..][1..] == [];
    }
  }

  // ---------------------------------------------------------------------
  // the sockets and the server
  // ---------------------------------------------------------------------

  /** A connecting socket and the fields the handlers give it. */
  class Socket {
    const id: SocketId
    const handshake: Handshake
    /** `socket.project`: `None` until looked up, and when no project has the id. */
    var project: Option<Project>
    /** `socket.user`: the decoded token payload. */
    var user: Option<Claims>
    /** `socket.roomId`, set by the connection handler. */
    var roomId: Option<RoomId>

    constructor (id: SocketId, handshake: Handshake)
      ensures this.id == id && this.handshake == handshake
      ensures project.None? && user.None? && roomId.None?
    {
      this.id := id;
      this.handshake := handshake;
      project := None;
      user := None;
      roomId := None;
    }

    /**
     * The `io.use` guard run on this socket: `None` admits it, `Some(message)`
     * is the error given to `next`. The project is assigned as soon as the id
     * is valid, even when the token is refused afterwards.
     */
    method RunHandshake(isValidId: string -> bool, findById: string -> Option<Project>, verify: string -> Verification)
      returns (err: Option<string>)
      modifies this
      ensures err.None? <==> Admit(handshake, isValidId, findById, verify).Admitted?
      ensures err.Some? ==> Admit(handshake, isValidId, findById, verify) == Refused(err.value)
      ensures err.None? ==> (project == Admit(handshake, isValidId, findById, verify).project
                             && user == Some(Admit(handshake, isValidId, findById, verify).user))
      ensures handshake.projectId.Some? && isValidId(handshake.projectId.value) ==>
                project == findById(handshake.projectId.value)
      ensures handshake.projectId.None? || !isValidId(handshake.projectId.value) ==> project == old(project)
      ensures err.Some? ==> user == old(user)
      ensures roomId == old(roomId)
    {
      var token := HandshakeToken(handshake);
      var projectId := handshake.projectId;
      if projectId.None? || !isValidId(projectId.value) {
        return Some(InvalidProjectMessage);
      }
      project := findById(projectId.value);
      if !Text.Present(token) {
        return Some(NoTokenMessage);
      }
      var decoded := verify(token.value);
      if decoded.Threw? {
        return Some(decoded.message);
      }
      if decoded.decoded.None? {
        return Some(FalsyDecodeMessage);
      }
      user := decoded.decoded;
      return None;
    }
  }

  /** The server: the room registry and every emit made so far. */
  class RealtimeServer {
    var rooms: Rooms
    var outbox: seq<Emit>

    ghost predicate Valid()
      reads this
    {
      NoEmptyRooms(rooms)
    }

    constructor ()
      ensures Valid() && rooms == map[] && outbox == []
    {
      rooms := map[];
      outbox := [];
    }

    /**
     * The `connection` handler: the room id is the project's id and the
     * socket joins that room. With no project, reading its id throws, the
     * socket joins nothing and no message handlers are registered.
     */
    method OnConnection(s: Socket) returns (joined: bool)
      requires Valid()
      modifies this, s
      ensures Valid()
      ensures joined <==> s.project.Some?
      ensures joined ==> s.roomId == Some(s.project.value.id) && rooms == Join(old(rooms), s.project.value.id, s.id)
      ensures !joined ==> rooms == old(rooms) && s.roomId == old(s.roomId)
      ensures s.project == old(s.project) && s.user == old(s.user)
      ensures outbox == old(outbox)
    {
      if s.project.None? {
        return false;
      }
      s.roomId := Some(s.project.value.id);
      rooms := Join(rooms, s.roomId.value, s.id);
      return true;
    }

    /**
     * A socket arriving: the `io.use` guard runs first, and only a socket it
     * admits reaches the `connection` handler; a refused socket joins no room.
     */
    method Connect(s: Socket, isValidId: string -> bool, findById: string -> Option<Project>,
                   verify: string -> Verification) returns (err: Option<string>, joined: bool)
      requires Valid()
      modifies this, s
      ensures Valid()
      ensures err.None? <==> Admit(s.handshake, isValidId, findById, verify).Admitted?
      ensures err.Some? ==> !joined && rooms == old(rooms) && s.roomId == old(s.roomId)
      ensures err.None? ==>
        var project := Admit(s.handshake, isValidId, findById, verify).project;
        && (joined <==> project.Some?)
        && (joined ==> s.roomId == Some(project.value.id) && rooms == Join(old(rooms), project.value.id, s.id))
      ensures outbox == old(outbox)
    {
      err := s.RunHandshake(isValidId, findById, verify);
      if err.Some? {
        return err, false;
      }
      joined := OnConnection(s);
    }

    /** A `project-message` from a connected socket; a socket whose connection handler failed has no handler. */
    method OnProjectMessage(s: Socket, data: ChatMessage, generate: string -> Option<string>)
      requires Valid()
      modifies this
      ensures Valid()
      ensures rooms == old(rooms)
      ensures outbox == old(outbox) + if s.roomId.Some? then Route(Members(rooms, s.roomId.value), s.id, data, generate) else []
    {
      if s.roomId.None? {
        return;
      }
      var members := Members(rooms, s.roomId.value);
      if data.newmessage.None? {
        return;
      }
      var message := data.newmessage.value;
      var mentioned := Text.Includes(message, Marker);
      outbox := outbox + [Emit(members - {s.id}, data)];
      if mentioned {
        var prompt := Text.ReplaceFirst(message, Marker, "");
        var result := generate(prompt);
        if result.None? {
          return;
        }
        outbox := outbox + [Emit(members, AssistantReply(result.value))];
      }
    }

    /** `disconnect`: the socket leaves its room; nothing is sent. */
    method OnDisconnect(s: Socket)
      requires Valid()
      modifies this
      ensures Valid()
      ensures rooms == if s.roomId.Some? then Leave(old(rooms), s.roomId.value, s.id) else old(rooms)
      ensures outbox == old(outbox)
    {
      if s.roomId.Some? {
        rooms := Leave(rooms, s.roomId.value, s.id);
      }
    }
  }
}
