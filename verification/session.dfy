/** One client's thread after its alias is bound: the idle loop of
    `handleClient`, which waits for CONNECT or EXIT, the entry into the chat
    room, and the turns of `chatting`.

    What `chatting` relays is the raw receive buffer, i.e. the line exactly
    as the client sent it; the text `msgParser` builds for a received line
    (server.cpp:319) is computed and dropped, and only its read of
    `clientList[sender]` has an effect. The text it builds on entry is the
    join announcement. */
module Session {
  import opened Base
  import opened Registry
  import opened Router
  import opened Format
  import opened Delivery

  /** What the idle loop does with a line. */
  datatype Idle = Join | Exit | Ignore

  /** `message.substr(0, 7) == "CONNECT"` joins the room; a line that is
      exactly "EXIT" ends the thread; anything else is acknowledged and
      ignored. */
  function IdleAction(m: string): (r: Idle)
    ensures r == Join <==> StartsWith(m, "CONNECT")
    ensures r == Exit <==> m == "EXIT"
  {
    if |m| >= 7 && m[..7] == "CONNECT" then Join
    else if m == "EXIT" then Exit
    else Ignore
  }

  /** The idle loop and the router agree on what a CONNECT is, but "EXIT",
      which ends the idle loop, is an ordinary broadcast once in the room. */
  lemma IdleMatchesRouter(room: ChatRoom, m: string)
    ensures IdleAction(m) == Join <==> CommandHandler(room, m).kind == Connect
    ensures IdleAction(m) == Exit ==> CommandHandler(room, m).kind == Broadcast
  {
    if m == "EXIT" {
      ExitAndEmptyAreBroadcast(room);
    }
  }

  /** The state after entering the room: the announcement and who got it. */
  datatype Entered = Entered(room: ChatRoom, clients: ClientList, announcement: string, sent: seq<int>)

  /** `chatRoom[clientList[sock]] = sock` followed by the join announcement,
      sent to every socket of the room, the newcomer's own included. */
  method Enter(room: ChatRoom, clients: ClientList, sock: int) returns (e: Entered)
    ensures var joined := JoinRoom(room, clients, sock);
      e.room == joined.room && e.clients == joined.clients
    ensures e.announcement == AliasOf(clients, sock).alias + JoinedSuffix
    ensures sock in e.sent
    ensures forall k :: k in e.room ==> e.room[k] in e.sent
    ensures |e.sent| == |e.room|
    ensures forall order :: Enumerates(order, e.room) ==> e.sent == GlobalTargets(e.room, order)
  {
    var joined := JoinRoom(room, clients, sock);
    var text := MsgParser(Connect, [], joined.clients, sock);
    var sent := GlobalChat(joined.room);
    e := Entered(joined.room, text.clients, text.text, sent);
    assert e.room[AliasOf(clients, sock).alias] == sock;
  }

  /** One turn of `chatting`: the routed kind, the line relayed, the sockets
      it went to, the notice returned to the sender, the client list after
      `msgParser` read the sender's alias, the room, and whether the loop
      ends. */
  datatype Turn = Turn(kind: Kind, relayed: string, sent: seq<int>, notice: Option<string>,
                       clients: ClientList, room: ChatRoom, leaves: bool)

  /** `chatting`, one iteration: route the line, then broadcast it to
      everyone but the sender, send it to the named aliases and tell the
      sender which were missing, or relay it to the whole room and leave.
      A CONNECT line in the room is routed and then nothing is sent. */
  method ChatTurn(room: ChatRoom, clients: ClientList, sender: int, m: string) returns (t: Turn)
    ensures var routed := CommandHandler(room, m);
      && t.kind == routed.kind
      && (t.kind == Private ==> t.sent == routed.sockets && t.notice == Some(NotPresentMsg(routed.notFound)))
    ensures t.relayed == m
    ensures t.clients == AliasOf(clients, sender).clients
    ensures t.room == room
    ensures t.leaves <==> t.kind == Disconnect
    ensures t.notice.Some? <==> t.kind == Private
    ensures t.kind == Broadcast ==> forall s :: s in t.sent <==> s != sender && InRoom(room, s)
    ensures t.kind == Broadcast ==>
      forall order :: Enumerates(order, room) ==> t.sent == BroadcastTargets(room, order, sender)
    ensures t.kind == Disconnect ==> |t.sent| == |room| && forall k :: k in room ==> room[k] in t.sent
    ensures t.kind == Disconnect ==>
      forall order :: Enumerates(order, room) ==> t.sent == GlobalTargets(room, order)
    ensures t.kind == Connect ==> t.sent == []
  {
    var routed := CommandHandler(room, m);
    var formatted := MsgParser(routed.kind, routed.message, clients, sender);
    match routed.kind {
      case Broadcast =>
        var sent := Delivery.Broadcast(room, sender);
        t := Turn(Broadcast, m, sent, None, formatted.clients, room, false);
      case Private =>
        t := Turn(Private, m, routed.sockets, Some(NotPresentMsg(routed.notFound)), formatted.clients, room, false);
      case Disconnect =>
        var sent := GlobalChat(room);
        t := Turn(Disconnect, m, sent, None, formatted.clients, room, true);
      case Connect =>
        t := Turn(Connect, m, [], None, formatted.clients, room, false);
    }
  }

  /** A DISCONNECT ends the turn loop but the sender's alias stays in the
      room: later broadcasts still reach its socket. */
  method LeaveKeepsAlias(room: ChatRoom, clients: ClientList, sender: int, other: int)
      returns (after: Turn, next: Turn)
    requires other != sender
    requires exists k :: k in room && room[k] == sender
    ensures after.kind == Disconnect && after.leaves
    ensures next.kind == Broadcast && sender in next.sent
  {
    after := ChatTurn(room, clients, sender, "DISCONNECT");
    next := ChatTurn(after.room, after.clients, other, "hi");
  }

  /** How many lines the turn loop consumes: up to and including the first
      DISCONNECT, or all of them while none comes. */
  function TurnsTaken(room: ChatRoom, lines: seq<string>): (n: nat)
    ensures n <= |lines|
    ensures forall i :: 0 <= i < n - 1 ==> CommandHandler(room, lines[i]).kind != Disconnect
    ensures n < |lines| ==> n > 0 && CommandHandler(room, lines[n - 1]).kind == Disconnect
  {
    if lines == [] then 0
    else if CommandHandler(room, lines[0]).kind == Disconnect then 1
    else 1 + TurnsTaken(room, lines[1..])
  }
}
