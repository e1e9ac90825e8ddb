/** The text the server builds for a routed message (`msgParser`) and the
    notice it returns to the sender of a private message naming the aliases
    it could not find (`notPresentMsg`). */
module Format {
  import opened Base
  import opened Registry
  import opened Router

  /** The formatted text, and the client list after the sender's alias was
      read from it. */
  datatype Formatted = Formatted(text: string, clients: ClientList)

  const JoinedSuffix := " has joined the ChatRoom"
  const LeftSuffix := " has left the ChatRoom"

  /** `msgParser`: join and leave announcements name the sender and ignore
      the message; a private line is tagged `[alias] `; a broadcast line is
      tagged `[alias` + `is Broadcasting] ` (no space before "is"). */
  function MsgParser(kind: Kind, m: string, clients: ClientList, sock: int): (r: Formatted)
    ensures r.clients == AliasOf(clients, sock).clients
    ensures var u := AliasOf(clients, sock).alias;
      match kind
      case Connect => StartsWith(r.text, u) && r.text[|u|..] == JoinedSuffix
      case Disconnect => StartsWith(r.text, u) && r.text[|u|..] == LeftSuffix
      case Private => StartsWith(r.text, "[" + u + "] ") && EndsWith(r.text, m)
                      && |r.text| == |u| + 3 + |m|
      case Broadcast => StartsWith(r.text, "[" + u + "is Broadcasting] ") && EndsWith(r.text, m)
                        && |r.text| == |u| + 18 + |m|
  {
    var read := AliasOf(clients, sock);
    var u := read.alias;
    var text := match kind
      case Connect => u + JoinedSuffix
      case Disconnect => u + LeftSuffix
      case Private => "[" + u + "] " + m
      case Broadcast => "[" + u + "is Broadcasting] " + m;
    Formatted(text, read.clients)
  }

  /** An alias followed by a space never lines up with the same alias
      opened by `[`: at the first position where the alias is not a `[`
      (or right after it, if it is all `[`) the two texts differ. */
  lemma BracketShift(u: string, x: string, tag: string, m: string)
    requires |x| > 0 && x[0] == ' '
    ensures u + x != "[" + u + tag + m
  {
    var a := u + x;
    var b := "[" + u + tag + m;
    var i := 0;
    while i < |u| && u[i] == '['
      invariant 0 <= i <= |u|
      invariant forall k :: 0 <= k < i ==> u[k] == '['
    {
      i := i + 1;
    }
    assert b[i] == '[' by {
      if i > 0 {
        assert b[i] == u[i - 1];
      }
    }
    assert a[i] != '[';
  }

  /** The announcement texts are told apart at one position: a join says
      "joined", a leave says "left". */
  lemma JoinedNotLeft(u: string)
    ensures u + JoinedSuffix != u + LeftSuffix
  {
    assert (u + JoinedSuffix)[|u| + 5] == 'j';
    assert (u + LeftSuffix)[|u| + 5] == 'l';
  }

  /** A private tag closes the bracket right after the alias; a broadcast
      tag continues with "is". */
  lemma PrivateNotBroadcast(u: string, m1: string, m2: string)
    ensures "[" + u + "] " + m1 != "[" + u + "is Broadcasting] " + m2
  {
    assert ("[" + u + "] " + m1)[|u| + 1] == ']';
    assert ("[" + u + "is Broadcasting] " + m2)[|u| + 1] == 'i';
  }

  /** A recipient can tell from the text alone which kind of message the
      same sender sent, and for private and broadcast lines which message. */
  lemma MsgParserInjective(k1: Kind, m1: string, k2: Kind, m2: string, clients: ClientList, sock: int)
    requires MsgParser(k1, m1, clients, sock).text == MsgParser(k2, m2, clients, sock).text
    ensures k1 == k2
    ensures k1 == Private || k1 == Broadcast ==> m1 == m2
  {
    var u := AliasOf(clients, sock).alias;
    var t := MsgParser(k1, m1, clients, sock).text;
    match k1
    case Connect =>
      match k2 {
        case Connect =>
        case Disconnect => JoinedNotLeft(u);
        case Private => BracketShift(u, JoinedSuffix, "] ", m2);
        case Broadcast => BracketShift(u, JoinedSuffix, "is Broadcasting] ", m2);
      }
    case Disconnect =>
      match k2 {
        case Connect => JoinedNotLeft(u);
        case Disconnect =>
        case Private => BracketShift(u, LeftSuffix, "] ", m2);
        case Broadcast => BracketShift(u, LeftSuffix, "is Broadcasting] ", m2);
      }
    case Private =>
      match k2 {
        case Connect => BracketShift(u, JoinedSuffix, "] ", m1);
        case Disconnect => BracketShift(u, LeftSuffix, "] ", m1);
        case Private => assert m1 == t[|u| + 3..] == m2;
        case Broadcast => PrivateNotBroadcast(u, m1, m2);
      }
    case Broadcast =>
      match k2 {
        case Connect => BracketShift(u, JoinedSuffix, "is Broadcasting] ", m1);
        case Disconnect => BracketShift(u, LeftSuffix, "is Broadcasting] ", m1);
        case Private => PrivateNotBroadcast(u, m2, m1);
        case Broadcast => assert m1 == t[|u| + 18..] == m2;
      }
  }

  const NotFoundTail := "were not found in the Chat Room."

  /** The loop of `notPresentMsg` from some name on: each name is preceded
      by ", " unless it equals the list's first name. */
  function ListNames(names: seq<string>, first: string): string
  {
    if names == [] then []
    else (if names[0] != first then ", " else "") + names[0] + ListNames(names[1..], first)
  }

  /** `notPresentMsg`: the names, then the fixed tail, with no space between
      the last name and "were". */
  function NotPresentMsg(names: seq<string>): (r: string)
    ensures EndsWith(r, NotFoundTail)
    ensures |names| > 0 ==> StartsWith(r, names[0])
    ensures names == [] ==> r == NotFoundTail
  {
    var first := if names == [] then [] else names[0];
    ListNames(names, first) + NotFoundTail
  }

  /** The list the notice is meant to show: names separated by ", ". */
  function CommaList(names: seq<string>): string {
    if names == [] then []
    else if |names| == 1 then names[0]
    else names[0] + ", " + CommaList(names[1..])
  }

  lemma {:induction false} ListNamesDistinct(names: seq<string>, first: string)
    requires forall i :: 0 <= i < |names| ==> names[i] != first
    ensures names != [] ==> ListNames(names, first) == ", " + CommaList(names)
    ensures names == [] ==> ListNames(names, first) == []
    decreases |names|
  {
    if |names| > 1 {
      ListNamesDistinct(names[1..], first);
    }
  }

  /** When no later name repeats the first, the notice lists the names
      separated by ", ". */
  lemma {:induction false} NotPresentMsgLists(names: seq<string>)
    requires forall i :: 0 < i < |names| ==> names[i] != names[0]
    ensures NotPresentMsg(names) == CommaList(names) + NotFoundTail
  {
    if names != [] {
      var first, rest := names[0], names[1..];
      ListNamesDistinct(rest, first);
      assert ListNames(names, first) == first + ListNames(rest, first);
      if rest != [] {
        assert first + (", " + CommaList(rest)) == first + ", " + CommaList(rest);
      }
      assert ListNames(names, first) == CommaList(names);
    }
  }

  /** A repeated first name is glued to its repeat without a separator. */
  lemma NotPresentMsgRepeatedFirst()
    ensures NotPresentMsg(["bob", "bob"]) == "bobbob" + NotFoundTail
  {
    var names := ["bob", "bob"];
    assert names[1..] == ["bob"];
    assert ["bob"][1..] == [];
    assert ListNames(["bob"], "bob") == "bob";
  }
}
