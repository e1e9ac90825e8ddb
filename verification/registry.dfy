/** The two global maps of the server: `clientList` (socket to alias) and
    `chatRoom` (alias to socket), and the updates the server makes to them
    while negotiating an alias and while joining the room. Each update is
    treated as one atomic step. The server itself holds `chatRoomMutex` only
    from the room join (server.cpp:398-399) through the join announcement
    (server.cpp:304-306); its other accesses to the two maps, the alias
    negotiation and the read inside `msgParser` among them, take no lock. */
module Registry {
  import opened Base

  type ClientList = map<int, string>
  type ChatRoom = map<string, int>

  /** The alias read by `clientList[sock]`, and the map after the read. */
  datatype Read = Read(alias: string, clients: ClientList)

  /** `clientList[sock]`: std::map::operator[] inserts an empty alias for a
      socket it does not know, and then yields that empty alias. */
  function AliasOf(clients: ClientList, sock: int): (r: Read)
    ensures r.clients.Keys == clients.Keys + {sock}
    ensures sock in r.clients && r.clients[sock] == r.alias
    ensures forall k :: k in clients ==> r.clients[k] == clients[k]
    ensures sock !in clients ==> r.alias == []
  {
    if sock in clients then Read(clients[sock], clients)
    else Read([], clients[sock := []])
  }

  /** The sockets whose alias is `name`. */
  function Holders(clients: ClientList, name: string): set<int> {
    set k | k in clients && clients[k] == name
  }

  /** Some socket already holds `name`. */
  predicate Taken(clients: ClientList, name: string) {
    exists k :: k in clients && clients[k] == name
  }

  /** No alias is held by two sockets. */
  predicate AliasesUnique(clients: ClientList) {
    forall a, b :: a in clients && b in clients && a != b ==> clients[a] != clients[b]
  }

  /** The outcome of alias negotiation: the new client list and how many
      "Alias already taken." notices were written to the socket. */
  datatype Binding = Binding(clients: ClientList, notices: nat)

  /** `clientAlias` as written: one notice per existing entry holding the
      requested name, and then the name is bound anyway. */
  function BindAlias(clients: ClientList, sock: int, name: string): (r: Binding)
    ensures sock in r.clients && r.clients[sock] == name
    ensures r.clients.Keys == clients.Keys + {sock}
    ensures forall k :: k in clients && k != sock ==> r.clients[k] == clients[k]
    ensures r.notices == |Holders(clients, name)|
    ensures r.notices > 0 <==> Taken(clients, name)
  {
    HoldersMatchTaken(clients, name);
    Binding(clients[sock := name], |Holders(clients, name)|)
  }

  /** Some socket holds `name` exactly when `name` is among the aliases. */
  lemma HoldersMatchTaken(clients: ClientList, name: string)
    ensures |Holders(clients, name)| > 0 <==> Taken(clients, name)
  {
    if Taken(clients, name) {
      var k :| k in clients && clients[k] == name;
      assert k in Holders(clients, name);
    }
    if !Taken(clients, name) {
      assert forall k :: k !in Holders(clients, name);
      assert Holders(clients, name) == {};
    }
  }

  /** Negotiating a name another socket already holds leaves two sockets
      with the same alias. */
  lemma BindAliasAdmitsDuplicate()
    ensures AliasesUnique(map[1 := "alice"])
    ensures !AliasesUnique(BindAlias(map[1 := "alice"], 2, "alice").clients)
  {
    var after := BindAlias(map[1 := "alice"], 2, "alice").clients;
    assert after[1] == after[2];
  }

  /** Alias negotiation as the re-prompting loop evidently intends it: a name
      that is already taken is refused (the caller prompts again), any other
      name is bound exactly as `BindAlias` binds it. */
  function NegotiateAlias(clients: ClientList, sock: int, name: string): (r: Option<ClientList>)
    ensures r.Some? <==> BindAlias(clients, sock, name).notices == 0
    ensures r.Some? ==> r.value == BindAlias(clients, sock, name).clients
    ensures r.Some? && AliasesUnique(clients) ==> AliasesUnique(r.value)
  {
    if Taken(clients, name) then None
    else Some(clients[sock := name])
  }

  /** The room and client list after a room join. */
  datatype Joined = Joined(room: ChatRoom, clients: ClientList)

  /** `chatRoom[clientList[sock]] = sock`: the sender's alias (an empty one,
      inserted, when the socket has none) now maps to `sock`, whatever socket
      it mapped to before; every other alias is untouched. */
  function JoinRoom(room: ChatRoom, clients: ClientList, sock: int): (r: Joined)
    ensures var a := AliasOf(clients, sock).alias;
      && a in r.room && r.room[a] == sock
      && r.room.Keys == room.Keys + {a}
      && (forall k :: k in room && k != a ==> r.room[k] == room[k])
    ensures r.clients == AliasOf(clients, sock).clients
  {
    var read := AliasOf(clients, sock);
    Joined(room[read.alias := sock], read.clients)
  }

  /** Joining twice is joining once. */
  lemma JoinRoomIdempotent(room: ChatRoom, clients: ClientList, sock: int)
    ensures var once := JoinRoom(room, clients, sock);
      JoinRoom(once.room, once.clients, sock) == once
  {
  }
}
