/** Who receives what `broadcast` and `globalChat` send. Both walk the
    chat room, a std::map keyed by alias, so sockets are visited in
    ascending alias order; the model takes that order as a sequence that
    lists the room's aliases in strictly ascending order. */
module Delivery {
  import opened Base
  import opened Registry

  /** Strictly ascending under the std::string order. */
  predicate Ascending(order: seq<string>) {
    forall i, j :: 0 <= i < j < |order| ==> Below(order[i], order[j])
  }

  /** `order` lists exactly the strings of `keys`, ascending. */
  ghost predicate Lists(order: seq<string>, keys: set<string>) {
    Ascending(order) && forall k :: k in order <==> k in keys
  }

  /** `order` is the order in which iterating the room visits its aliases. */
  ghost predicate Enumerates(order: seq<string>, room: ChatRoom) {
    Lists(order, room.Keys)
  }

  /** `s` is the socket of some alias in the room. */
  predicate InRoom(room: ChatRoom, s: int) {
    exists k :: k in room && room[k] == s
  }

  /** The least string of a non-empty set. */
  method Least(keys: set<string>) returns (least: string)
    requires keys != {}
    ensures least in keys
    ensures forall k :: k in keys && k != least ==> Below(least, k)
  {
    Inhabited(keys);
    least :| least in keys;
    var todo := keys - {least};
    while todo != {}
      invariant todo <= keys && least in keys && least !in todo
      invariant forall k :: k in keys - todo && k != least ==> Below(least, k)
      decreases todo
    {
      Inhabited(todo);
      var k :| k in todo;
      BelowTotal(least, k);
      if Below(k, least) {
        forall j | j in keys - todo && j != k
          ensures Below(k, j)
        {
          if j != least {
            BelowTransitive(k, least, j);
          }
        }
        least := k;
      }
      todo := todo - {k};
    }
  }

  /** The aliases of the room in the order the server's loops visit them. */
  method AliasOrder(room: ChatRoom) returns (order: seq<string>)
    ensures Enumerates(order, room)
  {
    var rest := room.Keys;
    order := [];
    while rest != {}
      invariant rest <= room.Keys
      invariant Ascending(order)
      invariant forall k :: k in order <==> k in room && k !in rest
      invariant forall i, k :: 0 <= i < |order| && k in rest ==> Below(order[i], k)
      decreases rest
    {
      var least := Least(rest);
      order := order + [least];
      rest := rest - {least};
    }
  }

  /** The first string of an ascending listing is below all the others. */
  lemma HeadIsLeast(order: seq<string>, keys: set<string>)
    requires Lists(order, keys) && order != []
    ensures forall k :: k in keys && k != order[0] ==> Below(order[0], k)
  {
    forall k | k in keys && k != order[0]
      ensures Below(order[0], k)
    {
      var j :| 0 <= j < |order| && order[j] == k;
    }
  }

  /** Two strings each below every other member of a set are the same. */
  lemma LeastUnique(x: string, y: string, keys: set<string>)
    requires x in keys && y in keys
    requires forall k :: k in keys && k != x ==> Below(x, k)
    requires forall k :: k in keys && k != y ==> Below(y, k)
    ensures x == y
  {
    BelowAsymmetric(x, y);
  }

  /** A set has one ascending listing: the iteration order is determined by
      the aliases alone. */
  lemma {:induction false} ListingUnique(a: seq<string>, b: seq<string>, keys: set<string>)
    requires Lists(a, keys) && Lists(b, keys)
    ensures a == b
    decreases |a|
  {
    ListingSize(a, keys);
    ListingSize(b, keys);
    if a != [] {
      HeadIsLeast(a, keys);
      HeadIsLeast(b, keys);
      LeastUnique(a[0], b[0], keys);
      var rest := keys - {a[0]};
      forall k | k in a[1..]
        ensures k != a[0]
      {
        var j :| 1 <= j < |a| && a[j] == k;
        BelowIrreflexive(a[0]);
      }
      forall k | k in b[1..]
        ensures k != b[0]
      {
        var j :| 1 <= j < |b| && b[j] == k;
        BelowIrreflexive(b[0]);
      }
      assert Lists(a[1..], rest);
      assert Lists(b[1..], rest);
      ListingUnique(a[1..], b[1..], rest);
      assert a == [a[0]] + a[1..];
      assert b == [b[0]] + b[1..];
    }
  }

  /** `globalChat`: one send to the socket of every alias, in alias order,
      the sender's own socket included. */
  function GlobalTargets(room: ChatRoom, order: seq<string>): (r: seq<int>)
    requires forall k :: k in order ==> k in room
    ensures |r| == |order|
    ensures forall i :: 0 <= i < |order| ==> r[i] == room[order[i]]
  {
    if order == [] then []
    else [room[order[0]]] + GlobalTargets(room, order[1..])
  }

  /** `broadcast`: the sockets of the aliases in alias order, skipping every
      alias whose socket is the sender's. */
  function BroadcastTargets(room: ChatRoom, order: seq<string>, sender: int): (r: seq<int>)
    requires forall k :: k in order ==> k in room
    ensures |r| <= |order|
    ensures forall s :: s in r <==> s != sender && exists k :: k in order && room[k] == s
  {
    if order == [] then []
    else
      var rest := BroadcastTargets(room, order[1..], sender);
      if room[order[0]] != sender then [room[order[0]]] + rest else rest
  }

  /** The sockets of `xs` other than `x`, in order. */
  function Without(xs: seq<int>, x: int): seq<int> {
    if xs == [] then []
    else if xs[0] == x then Without(xs[1..], x)
    else [xs[0]] + Without(xs[1..], x)
  }

  /** A broadcast reaches what a global chat reaches, minus the sender. */
  lemma {:induction false} BroadcastIsGlobalWithoutSender(room: ChatRoom, order: seq<string>, sender: int)
    requires forall k :: k in order ==> k in room
    ensures BroadcastTargets(room, order, sender) == Without(GlobalTargets(room, order), sender)
    decreases |order|
  {
    if order != [] {
      var g := GlobalTargets(room, order);
      assert g[1..] == GlobalTargets(room, order[1..]);
      BroadcastIsGlobalWithoutSender(room, order[1..], sender);
    }
  }

  /** Over the room's own iteration order, a broadcast reaches exactly the
      room's sockets other than the sender's, and a global chat reaches
      every alias's socket. */
  lemma RoomTargets(room: ChatRoom, order: seq<string>, sender: int)
    requires Enumerates(order, room)
    ensures forall s :: s in BroadcastTargets(room, order, sender) <==> s != sender && InRoom(room, s)
    ensures forall k :: k in room ==> room[k] in GlobalTargets(room, order)
  {
    forall k | k in room
      ensures room[k] in GlobalTargets(room, order)
    {
      var i :| 0 <= i < |order| && order[i] == k;
      assert GlobalTargets(room, order)[i] == room[k];
    }
  }

  /** The loop of `broadcast`, as a recipient list: every room socket except
      the sender's, in alias order. */
  method Broadcast(room: ChatRoom, sender: int) returns (targets: seq<int>)
    ensures forall s :: s in targets <==> s != sender && InRoom(room, s)
    ensures forall order :: Enumerates(order, room) ==> targets == BroadcastTargets(room, order, sender)
  {
    var order := AliasOrder(room);
    targets := BroadcastTargets(room, order, sender);
    RoomTargets(room, order, sender);
    forall other | Enumerates(other, room)
      ensures targets == BroadcastTargets(room, other, sender)
    {
      ListingUnique(other, order, room.Keys);
    }
  }

  /** The loop of `globalChat`, as a recipient list: every alias's socket, in
      alias order. */
  method GlobalChat(room: ChatRoom) returns (targets: seq<int>)
    ensures |targets| == |room|
    ensures forall k :: k in room ==> room[k] in targets
    ensures forall order :: Enumerates(order, room) ==> targets == GlobalTargets(room, order)
  {
    var order := AliasOrder(room);
    targets := GlobalTargets(room, order);
    RoomTargets(room, order, 0);
    ListingSize(order, room.Keys);
    forall other | Enumerates(other, room)
      ensures targets == GlobalTargets(room, other)
    {
      ListingUnique(other, order, room.Keys);
    }
  }

  /** An ascending listing has one entry per member. */
  lemma {:induction false} ListingSize(order: seq<string>, keys: set<string>)
    requires Lists(order, keys)
    ensures |order| == |keys|
    decreases |order|
  {
    if order != [] {
      var rest := keys - {order[0]};
      forall k | k in order[1..]
        ensures k != order[0]
      {
        var j :| 1 <= j < |order| && order[j] == k;
        BelowIrreflexive(order[0]);
      }
      assert Lists(order[1..], rest);
      ListingSize(order[1..], rest);
    } else {
      assert forall k :: k !in keys;
    }
  }

  /** Over the room's own order, a global relay reaches exactly the sockets
      some alias maps to. */
  lemma GlobalTargetsMembers(room: ChatRoom, order: seq<string>)
    requires Enumerates(order, room)
    ensures forall s :: s in GlobalTargets(room, order) <==> InRoom(room, s)
  {
    var g := GlobalTargets(room, order);
    forall s | s in g
      ensures InRoom(room, s)
    {
      var i :| 0 <= i < |g| && g[i] == s;
      assert order[i] in room && room[order[i]] == s;
    }
    RoomTargets(room, order, 0);
  }

  /** After a join, a global relay reaches the joining socket and otherwise
      exactly the sockets of the other aliases: a socket the join displaced
      from the alias keeps receiving only if it holds another alias. */
  lemma JoinRoomDelivery(room: ChatRoom, clients: ClientList, sock: int, order: seq<string>)
    requires Enumerates(order, JoinRoom(room, clients, sock).room)
    ensures var a := AliasOf(clients, sock).alias;
      forall s :: s in GlobalTargets(JoinRoom(room, clients, sock).room, order) <==>
        s == sock || exists k :: k in room && k != a && room[k] == s
  {
    var a := AliasOf(clients, sock).alias;
    var joined := JoinRoom(room, clients, sock).room;
    GlobalTargetsMembers(joined, order);
    forall s | InRoom(joined, s)
      ensures s == sock || exists k :: k in room && k != a && room[k] == s
    {
      var k :| k in joined && joined[k] == s;
      if k != a {
        assert k in room && room[k] == s;
      }
    }
    forall s | s == sock || exists k :: k in room && k != a && room[k] == s
      ensures InRoom(joined, s)
    {
      if s == sock {
        assert joined[a] == sock;
      } else {
        var k :| k in room && k != a && room[k] == s;
        assert joined[k] == s;
      }
    }
  }
}
