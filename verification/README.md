# Chat relay server: a Dafny model of its routing core

The server accepts TCP clients (at most five at a time) and gives each one
a thread. The thread first negotiates an alias. It then waits in an idle
loop until the client sends `CONNECT`, which enters the chat room, or
`EXIT`, which ends the thread.

Inside the room, every line the client sends goes through the router
(`commandHandler`), which sorts it into one of four kinds:

- a line starting with `@` is PRIVATE: it names recipients as `@alias`
  tokens, and the sender is told which aliases were not found;
- a line starting with `DISCONNECT` is relayed to the whole room and ends
  the chat loop;
- a line starting with `CONNECT` is routed and then dropped;
- anything else is broadcast to every room member except the sender.

The server keeps two global `std::map`s. `clientList` maps a socket to its
alias. `chatRoom` maps an alias to its socket.

This project models that core as pure functions over immutable values:

- `base.dfy`: `Option`, prefix and suffix tests on strings, and the
  lexicographic order in which `std::map<std::string, _>` visits its keys.
- `registry.dfy`: the two maps, the inserting read `clientList[sock]`,
  alias negotiation, and the room join.
- `router.dfy`: `commandHandler` and `privateMsgParser`. The parser is
  given twice: as a functional definition, and as the server's
  index-walking loop, which is proved equal to it.
- `format.dfy`: `msgParser` and `notPresentMsg`.
- `delivery.dfy`: who receives a broadcast and who receives a global
  relay, in `std::map` iteration order.
- `session.dfy`: the idle loop of `handleClient`, entering the room, and
  one turn of `chatting`.
- `admission.dfy`: the client counter that `main` and `handleClient`
  share.

The model follows the code as written, including these behaviours:

- The router has no EXIT kind. `EXIT` is only a whole-line comparison in
  the idle loop. Inside the room, `EXIT` is an ordinary broadcast.
- A broadcast is tagged `[alias` + `is Broadcasting] `, with no space
  before "is".
- A connection that arrives while five clients are served gets no reply.
  The server only skips it.
- A taken alias is reported ("Alias already taken.") but bound anyway (see
  Findings).
- `DISCONNECT` never removes the alias from `chatRoom`. Later broadcasts
  still reach the departed socket.
- What `chatting` relays is the raw receive buffer, that is, the line as
  the client sent it. The text `msgParser` builds for a received line
  (server.cpp:319) is discarded. Only its read of `clientList[sender]` has
  an effect, because `operator[]` inserts a missing key.
- An empty line is a BROADCAST. For an empty `std::string`, `message[0]`
  is the terminating `'\0'` (C++11), which is not `'@'`.

## Model

| member | source | states |
|---|---|---|
| Registry.AliasOf | server.cpp:136 | Reading `clientList[sock]` yields the socket's alias. An unknown socket yields an empty alias and is then present with it. No other entry changes. |
| Registry.BindAlias | server.cpp:354-363 | The socket is bound to the requested name, and every other socket keeps its alias. One "taken" notice is sent per socket already holding the name, so a notice is sent exactly when the name is taken. |
| Registry.BindAliasAdmitsDuplicate | server.cpp:344-363 | Starting from unique aliases, binding a second socket to "alice" leaves two sockets holding the same alias. |
| Registry.NegotiateAlias | server.cpp:344-363 | Corrected negotiation: a name is accepted exactly when no notice would be sent. It is then bound as the server binds it, and alias uniqueness is preserved. |
| Registry.JoinRoom | server.cpp:399 | After the join, the sender's alias (empty if it had none) maps to the sender's socket, replacing any earlier socket. The alias is added to the keys, and every other alias is unchanged. |
| Registry.JoinRoomIdempotent | server.cpp:399 | Joining twice from the same socket gives the same room and client list as joining once. |
| Router.TakeToken | server.cpp:170-174 | The token is a prefix of the rest of the line, contains no space, and stops at the line's end or at a space. |
| Router.ParseAddressing | server.cpp:165-195 | A line yields at least one token exactly when it starts with `@`. The payload is never longer than the line. |
| Router.ParseAddressingShape | server.cpp:165-195 | Every token is free of spaces. The payload is a suffix of the line and does not start with `@`. |
| Router.ParseAddressingReassembles | server.cpp:165-195 | The line equals its `@t ` groups followed by the payload, or, when the last token runs to the end, the groups minus their final space. |
| Router.ParseAddressingOfAddressing | server.cpp:165-195 | Round trip: space-free tokens followed by a payload not starting with `@` parse back to exactly those tokens and that payload. |
| Router.Resolve | server.cpp:176-184 | Each token lands in exactly one of the two lists, so their lengths add up to the token count. |
| Router.ResolveMembers | server.cpp:176-184 | A name is reported missing exactly when it was addressed and is not in the room. Every addressed alias in the room contributes its socket, and every socket comes from one. |
| Router.ResolveAppend | server.cpp:166-186 | Resolution keeps parse order: resolving two runs of tokens in sequence concatenates their socket lists and their missing-name lists. |
| Router.CommandHandler | server.cpp:199-220 | PRIVATE exactly when the first character is `@`. CONNECT exactly when the line starts with "CONNECT". DISCONNECT exactly when it starts with "DISCONNECT". Other kinds leave the line unchanged with empty lists. A private line's message becomes a suffix of it, and its recipients and missing names together number its tokens. |
| Router.CommandKindStable | server.cpp:203-218 | Text appended after a command prefix leaves the command kind unchanged. |
| Router.ExitAndEmptyAreBroadcast | server.cpp:201-219 | "EXIT" and the empty line are both routed as BROADCAST. |
| Router.ReadUsername | server.cpp:168-174 | The inner loop collects exactly the characters from the start index up to the first space or the line's end. |
| Router.PrivateMsgParser | server.cpp:163-197 | The index-walking loop leaves the same payload as `ParseAddressing`, and the same socket and missing-name lists, in the same order, as resolving its tokens. |
| Format.MsgParser | server.cpp:133-161 | Join and leave texts are the alias followed by the fixed suffix. Private and broadcast texts start with their tags, end with the message, and have the tag's length plus the message's. The sender's alias is read with insertion. |
| Format.MsgParserInjective | server.cpp:137-158 | For one sender, equal texts come from the same kind. For private and broadcast texts, they also come from the same message. |
| Format.NotPresentMsg | server.cpp:268-280 | The notice always ends with "were not found in the Chat Room." and starts with the first missing name. With no missing names, it is just that tail. |
| Format.NotPresentMsgLists | server.cpp:268-280 | When no later name repeats the first, the notice is the names separated by ", ", then the tail. |
| Format.NotPresentMsgRepeatedFirst | server.cpp:271-275 | A repeat of the first name gets no separator: ["bob","bob"] gives "bobbobwere not found in the Chat Room.". |
| Delivery.AliasOrder | server.cpp:239 | Iterating the room visits every alias exactly once, in strictly ascending string order. |
| Delivery.ListingUnique | server.cpp:256 | The iteration order is determined by the set of aliases alone: two ascending listings of the same set are equal. |
| Delivery.GlobalTargets | server.cpp:253-265 | A global relay sends once per alias, to that alias's socket, in iteration order. |
| Delivery.BroadcastTargets | server.cpp:236-251 | A broadcast reaches a socket exactly when the socket belongs to a listed alias and is not the sender's. |
| Delivery.BroadcastIsGlobalWithoutSender | server.cpp:236-265 | A broadcast's recipient sequence is the global relay's with every occurrence of the sender's socket removed. |
| Delivery.RoomTargets | server.cpp:239-258 | Over the room's iteration order, a broadcast reaches exactly the room's sockets other than the sender's. A global relay reaches every alias's socket. |
| Delivery.Broadcast | server.cpp:236-251 | The recipients are exactly the room's sockets other than the sender's, and they equal the list built from any ascending listing of the room. |
| Delivery.GlobalChat | server.cpp:253-265 | One send per alias, reaching every alias's socket, equal to the list built from any ascending listing of the room. |
| Delivery.JoinRoomDelivery | server.cpp:399 | After a join, a global relay over the new room reaches the joining socket and otherwise exactly the sockets of the other aliases; a socket the join displaced keeps receiving only through another alias it holds. |
| Session.IdleAction | server.cpp:394-405 | The idle loop joins exactly when the line starts with "CONNECT", and ends exactly when the line is "EXIT". |
| Session.IdleMatchesRouter | server.cpp:395-402 | The idle loop's join test agrees with the router's CONNECT kind. A line that ends the idle loop is a BROADCAST for the router. |
| Session.Enter | server.cpp:304-305 | Entering joins the room and announces "alias has joined the ChatRoom". The announcement goes to every socket of the room, the newcomer's included, once per alias, in the sequence `globalChat` sends them. |
| Session.ChatTurn | server.cpp:309-334 | A turn relays the line as received and never changes the room. BROADCAST reaches exactly the other room members, in the sequence `broadcast` sends them. PRIVATE reaches the resolved sockets and always returns a not-found notice. DISCONNECT reaches every alias's socket, in the sequence `globalChat` sends them, and ends the loop. CONNECT sends nothing. |
| Session.LeaveKeepsAlias | server.cpp:329-332 | After the sender disconnects, a broadcast by another member still reaches the sender's socket. |
| Session.TurnsTaken | server.cpp:308-334 | The chat loop consumes lines up to and including the first DISCONNECT. No earlier line is a DISCONNECT, and if lines remain, the last consumed one was. |
| Admission.Accept | server.cpp:448-456 | A connection is admitted exactly when fewer than five clients are counted. Admission raises the count by one. Refusal changes nothing. |
| Admission.Release | server.cpp:409-411 | A finishing thread lowers the count by one. Only a running thread can finish. |
| Admission.RunSound | server.cpp:448-456 | From a sound state, every run of arrivals and exits keeps the count between 0 and 5 and equal to the number of admitted handlers that have not yet finished. |
| Admission.SixthRefused | server.cpp:449-454 | Five arrivals fill the server. A sixth is refused, and the count stays at five. |
| Admission.ReleaseReopens | server.cpp:409-411 | At the cap, one finishing thread makes room for the next arrival. |

## Left out

- Sockets, `read`/`write`, the receive and send helpers, and their error
  returns: only the text of a received line is modelled. A failed receive
  (`continue`) is not modelled.
- How a line is read. `recieveMessage` reads at most `sizeof(buffer)`
  bytes per call (the size of a pointer, not the 256-byte buffer), and the
  line ends at the first NUL byte. The model takes a line to be whatever
  string one read yields.
- The loops of `chatting` and `handleClient` are modelled only as far as
  which lines the chat loop consumes (`Session.TurnsTaken`). The idle
  loop's repetition is left out. So is the order between a private turn's
  copies (server.cpp:326) and the not-found notice sent after them (327):
  `Turn` keeps the two apart.
- Threads and the two mutexes: each update of `clientList`, `chatRoom` and
  `clientCount` is one atomic step. Interleavings with other clients'
  threads are not modelled. The server locks only the room join and the
  join announcement (`chatRoomMutex`, locked at server.cpp:398 and
  released at 306) and the counter (`clientCountMutex`). Its other map accesses are unsynchronised: alias
  negotiation iterates and writes `clientList` (354-363), `msgParser`
  reads it with insertion (136), and `broadcast`, `globalChat` and
  `privateMsgParser` read `chatRoom` (239, 256, 176-178). The model
  treats these unguarded accesses as atomic too, so it says nothing about
  data races between threads.
- Logging to standard output, the colour constants, port parsing, and the
  exits of `main` on setup failures.
- The acknowledgement "Recieved Message" that the idle loop sends for
  every line, and the "Enter Alias: " prompt.
- `close`, `free`, and `pthread_exit` at the end of `handleClient`.
- The `live` field of the admission state counts running threads. It is
  bookkeeping of the model, not a variable of the program.
- Admission.RunSound: every admitted connection is assumed to start a
  thread. `main` ignores the result of `pthread_create`, so a failed spawn
  would leave the count one above the running threads with a slot never
  freed; that failure is not modelled. The bound 0..5 holds either way.
- Session.ChatTurn: the recipients of one turn are computed against the
  room as it is at that turn. Aliases that other threads add between turns
  are not modelled.
- `client.cpp` is not part of this model.

## Findings

| source | as written | input that shows it | evidently intended | confidence | as-written member | corrected member |
|---|---|---|---|---|---|---|
| server.cpp:344-363 | `aliasAssigned` is set to true on every pass, so a name some socket already holds is reported as taken and then bound anyway. | clientList = {1: "alice"}; socket 2 asks for "alice". Afterwards sockets 1 and 2 both hold "alice". | A taken name is refused and the client is prompted again, so aliases stay unique. | not executed | Registry.BindAliasAdmitsDuplicate | Registry.NegotiateAlias |
