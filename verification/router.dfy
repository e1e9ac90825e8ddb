/** The command router of the server (`commandHandler` and
    `privateMsgParser`): a received line is classified by its prefix, and a
    private line is split into its leading `@alias` tokens, resolved against
    the chat room, and the payload that follows them. */
module Router {
  import opened Base
  import opened Registry

  /** The four message kinds of the server's `msgType`. There is no EXIT
      kind: EXIT is recognised only by the session's idle loop. */
  datatype Kind = Broadcast | Connect | Disconnect | Private

  predicate NoSpace(s: string) {
    forall i :: 0 <= i < |s| ==> s[i] != ' '
  }

  /** Every token is free of spaces. */
  predicate Spaceless(tokens: seq<string>) {
    forall i :: 0 <= i < |tokens| ==> NoSpace(tokens[i])
  }

  lemma SpacelessCons(t: string, tokens: seq<string>)
    requires NoSpace(t) && Spaceless(tokens)
    ensures Spaceless([t] + tokens)
  {
  }

  /** Whatever `m[k..]` ends with, `m` ends with too. */
  lemma SuffixOfSuffix(m: string, k: nat, p: string)
    requires k <= |m| && EndsWith(m[k..], p)
    ensures EndsWith(m, p)
  {
    assert m[|m| - |p|..] == m[k..][|m[k..]| - |p|..];
  }

  /** A line whose first character differs from a prefix's does not start
      with it. */
  lemma HeadRulesOut(m: string, p: string)
    requires |m| > 0 && |p| > 0 && m[0] != p[0]
    ensures !StartsWith(m, p)
  {
    if |p| <= |m| {
      assert m[..|p|][0] == m[0];
    }
  }

  /** The maximal run of non-space characters at the start of `s`. */
  function TakeToken(s: string): (t: string)
    ensures |t| <= |s| && s[..|t|] == t
    ensures NoSpace(t)
    ensures |t| == |s| || s[|t|] == ' '
  {
    if |s| == 0 || s[0] == ' ' then []
    else [s[0]] + TakeToken(s[1..])
  }

  /** A token is determined by where its run of non-spaces stops. */
  lemma TakeTokenStopsAt(s: string, k: nat)
    requires k <= |s| && NoSpace(s[..k])
    requires k == |s| || s[k] == ' '
    ensures TakeToken(s) == s[..k]
  {
    var t := TakeToken(s);
    forall i | 0 <= i < k
      ensures s[i] != ' '
    {
      assert s[..k][i] == s[i];
    }
    forall i | 0 <= i < |t|
      ensures s[i] != ' '
    {
      assert t[i] == s[i];
    }
  }

  /** The addressing prefix of a line: its `@token` groups and what remains. */
  datatype Addressed = Addressed(tokens: seq<string>, payload: string)

  /** Strip leading `@token ` groups. A token is everything after the `@` up
      to the next space; the one character after it (a space) is skipped
      too. A token that runs to the end of the line leaves no payload. */
  function ParseAddressing(m: string): (r: Addressed)
    ensures |r.tokens| > 0 <==> |m| > 0 && m[0] == '@'
    ensures |r.payload| <= |m|
    decreases |m|
  {
    if |m| > 0 && m[0] == '@' then
      var t := TakeToken(m[1..]);
      var after := m[1 + |t|..];
      if |after| == 0 then Addressed([t], [])
      else
        var rest := ParseAddressing(after[1..]);
        Addressed([t] + rest.tokens, rest.payload)
    else Addressed([], m)
  }

  /** One `@token` group read from position `i` of `m`, the token ending at
      `j` (the line's end or a space). */
  lemma ParseAddressingStep(m: string, i: nat, j: nat)
    requires i < j <= |m| && m[i] == '@'
    requires NoSpace(m[i + 1..j]) && (j == |m| || m[j] == ' ')
    ensures j == |m| ==> ParseAddressing(m[i..]) == Addressed([m[i + 1..j]], [])
    ensures j < |m| ==>
      ParseAddressing(m[i..])
        == Addressed([m[i + 1..j]] + ParseAddressing(m[j + 1..]).tokens,
                     ParseAddressing(m[j + 1..]).payload)
  {
    var s := m[i..];
    assert s[1..] == m[i + 1..];
    assert m[i + 1..][..j - (i + 1)] == m[i + 1..j];
    TakeTokenStopsAt(s[1..], j - (i + 1));
    assert s[j - i..] == m[j..];
    if j < |m| {
      assert m[j..][1..] == m[j + 1..];
    }
  }

  /** The first `@token` group of a line and what the rest parses to. */
  lemma ParseAddressingHead(m: string)
    requires |m| > 0 && m[0] == '@'
    ensures var t := TakeToken(m[1..]);
      && 1 + |t| <= |m|
      && (1 + |t| == |m| ==> ParseAddressing(m) == Addressed([t], []))
      && (1 + |t| < |m| ==>
            ParseAddressing(m)
              == Addressed([t] + ParseAddressing(m[2 + |t|..]).tokens, ParseAddressing(m[2 + |t|..]).payload))
  {
    var t := TakeToken(m[1..]);
    if 1 + |t| < |m| {
      assert m[1 + |t|..][1..] == m[2 + |t|..];
    }
  }

  /** Every token is a run of non-spaces, and the payload is a suffix of the
      line that does not itself start with `@`. */
  lemma {:induction false} ParseAddressingShape(m: string)
    ensures var r := ParseAddressing(m);
      && Spaceless(r.tokens)
      && (r.payload == [] || r.payload[0] != '@')
      && EndsWith(m, r.payload)
    decreases |m|
  {
    if |m| > 0 && m[0] == '@' {
      var t := TakeToken(m[1..]);
      ParseAddressingHead(m);
      if 1 + |t| < |m| {
        var tail := m[2 + |t|..];
        ParseAddressingShape(tail);
        var rest := ParseAddressing(tail);
        SuffixOfSuffix(m, 2 + |t|, rest.payload);
        SpacelessCons(t, rest.tokens);
      } else {
        SpacelessCons(t, []);
      }
    } else {
      assert m[|m| - |m|..] == m;
    }
  }

  /** The addressing prefix that names `tokens`: `@t1 @t2 ... @tn `. */
  function Addressing(tokens: seq<string>): string {
    if tokens == [] then []
    else "@" + tokens[0] + " " + Addressing(tokens[1..])
  }

  lemma AddressingCons(t: string, tokens: seq<string>)
    ensures Addressing([t] + tokens) == "@" + t + " " + Addressing(tokens)
  {
    assert ([t] + tokens)[1..] == tokens;
  }

  /** Parsing loses nothing: the line is its addressing prefix followed by
      the payload, except that a last token running to the end of the line
      lacks its trailing space. */
  lemma {:induction false} ParseAddressingReassembles(m: string)
    ensures var r := ParseAddressing(m);
      || m == Addressing(r.tokens) + r.payload
      || (r.payload == [] && m + " " == Addressing(r.tokens))
    decreases |m|
  {
    if |m| > 0 && m[0] == '@' {
      var t := TakeToken(m[1..]);
      ParseAddressingHead(m);
      if 1 + |t| < |m| {
        var g, tail := "@" + t + " ", m[2 + |t|..];
        FirstGroup(m);
        ParseAddressingReassembles(tail);
        var rest := ParseAddressing(tail);
        AddressingCons(t, rest.tokens);
        if tail == Addressing(rest.tokens) + rest.payload {
          AppendAssoc(g, Addressing(rest.tokens), rest.payload);
        } else {
          AppendAssoc(g, tail, " ");
        }
      } else {
        assert m == "@" + t;
        AddressingCons(t, []);
      }
    }
  }

  /** A line whose first token is followed by a space is that group
      followed by the rest of the line. */
  lemma FirstGroup(m: string)
    requires |m| > 0 && m[0] == '@' && 1 + |TakeToken(m[1..])| < |m|
    ensures var t := TakeToken(m[1..]);
      m == "@" + t + " " + m[2 + |t|..]
  {
    var t := TakeToken(m[1..]);
    assert m[1..][..|t|] == m[1..1 + |t|];
  }

  /** A line that starts with one `@t ` group parses as that token followed
      by whatever the rest of the line parses to. */
  lemma ParseGroup(t: string, tail: string)
    requires NoSpace(t)
    ensures ParseAddressing("@" + t + " " + tail)
      == Addressed([t] + ParseAddressing(tail).tokens, ParseAddressing(tail).payload)
  {
    var m := "@" + t + " " + tail;
    var s := m[1..];
    assert s == t + " " + tail;
    assert s[..|t|] == t;
    TakeTokenStopsAt(s, |t|);
    assert m[1 + |t|..] == " " + tail;
  }

  /** Where the first group of an addressing prefix sits. */
  lemma AddressingSplit(tokens: seq<string>, payload: string)
    requires tokens != []
    ensures Addressing(tokens) + payload == "@" + tokens[0] + " " + (Addressing(tokens[1..]) + payload)
  {
    var g := "@" + tokens[0] + " ";
    assert Addressing(tokens) == g + Addressing(tokens[1..]);
    assert (g + Addressing(tokens[1..])) + payload == g + (Addressing(tokens[1..]) + payload);
  }

  /** Parsing inverts `Addressing`: tokens without spaces, followed by a
      payload that does not itself start with `@`, parse back exactly. */
  lemma {:induction false} ParseAddressingOfAddressing(tokens: seq<string>, payload: string)
    requires Spaceless(tokens)
    requires payload == [] || payload[0] != '@'
    ensures ParseAddressing(Addressing(tokens) + payload) == Addressed(tokens, payload)
    decreases |tokens|
  {
    if tokens != [] {
      var t := tokens[0];
      var tail := Addressing(tokens[1..]) + payload;
      AddressingSplit(tokens, payload);
      ParseAddressingOfAddressing(tokens[1..], payload);
      ParseGroup(t, tail);
      assert [t] + tokens[1..] == tokens;
    } else {
      assert Addressing(tokens) + payload == payload;
    }
  }

  /** Tokens split into the sockets of the aliases found in the room and the
      names that are not there, each list in the order the tokens came. */
  datatype Resolution = Resolution(sockets: seq<int>, notFound: seq<string>)

  function Resolve(room: ChatRoom, tokens: seq<string>): (r: Resolution)
    ensures |r.sockets| + |r.notFound| == |tokens|
    decreases |tokens|
  {
    if tokens == [] then Resolution([], [])
    else
      var r := Resolve(room, tokens[1..]);
      var t := tokens[0];
      if t in room then Resolution([room[t]] + r.sockets, r.notFound)
      else Resolution(r.sockets, [t] + r.notFound)
  }

  /** Resolution keeps parse order: resolving two runs of tokens one after
      the other is resolving each and concatenating. */
  lemma {:induction false} ResolveAppend(room: ChatRoom, a: seq<string>, b: seq<string>)
    ensures Resolve(room, a + b)
      == Resolution(Resolve(room, a).sockets + Resolve(room, b).sockets,
                    Resolve(room, a).notFound + Resolve(room, b).notFound)
    decreases |a|
  {
    if a == [] {
      assert a + b == b;
    } else {
      var t, ra, rb := a[0], Resolve(room, a[1..]), Resolve(room, b);
      ConsAppend(a, b);
      ResolveAppend(room, a[1..], b);
      if t in room {
        AppendAssoc([room[t]], ra.sockets, rb.sockets);
      } else {
        AppendAssoc([t], ra.notFound, rb.notFound);
      }
    }
  }

  lemma ConsAppend<T>(a: seq<T>, b: seq<T>)
    requires a != []
    ensures a + b != [] && (a + b)[0] == a[0] && (a + b)[1..] == a[1..] + b
  {
  }

  /** Resolving one more token appends to exactly one of the two lists. */
  lemma ResolveSnoc(room: ChatRoom, tokens: seq<string>, t: string)
    ensures var r := Resolve(room, tokens);
      Resolve(room, tokens + [t])
        == if t in room then Resolution(r.sockets + [room[t]], r.notFound)
           else Resolution(r.sockets, r.notFound + [t])
  {
    ResolveAppend(room, tokens, [t]);
    assert [t][1..] == [];
  }

  /** A name is reported missing exactly when it was addressed and is not in
      the room; every addressed alias in the room contributes its socket, and
      every socket comes from such an alias. */
  lemma {:induction false} ResolveMembers(room: ChatRoom, tokens: seq<string>)
    ensures var r := Resolve(room, tokens);
      && (forall n :: n in r.notFound <==> n in tokens && n !in room)
      && (forall t :: t in tokens && t in room ==> room[t] in r.sockets)
      && (forall s :: s in r.sockets ==> exists t :: t in tokens && t in room && room[t] == s)
    decreases |tokens|
  {
    if tokens != [] {
      assert tokens == [tokens[0]] + tokens[1..];
      ResolveMembers(room, tokens[1..]);
    }
  }

  /** What the router hands back: the kind, the (possibly shortened) message
      and, for a private message, the resolved sockets and unknown names. */
  datatype Routed = Routed(kind: Kind, message: string, sockets: seq<int>, notFound: seq<string>)

  /** `commandHandler`: an `@` first gives PRIVATE (an empty line has no
      first character and is not private), else a CONNECT prefix, else a
      DISCONNECT prefix, else BROADCAST. Only a private line is rewritten. */
  function CommandHandler(room: ChatRoom, m: string): (r: Routed)
    ensures r.kind == Private <==> |m| > 0 && m[0] == '@'
    ensures r.kind == Connect <==> StartsWith(m, "CONNECT")
    ensures r.kind == Disconnect <==> StartsWith(m, "DISCONNECT")
    ensures r.kind != Private ==> r.message == m && r.sockets == [] && r.notFound == []
    ensures r.kind == Private ==>
      && EndsWith(m, r.message)
      && |r.sockets| + |r.notFound| == |ParseAddressing(m).tokens| > 0
  {
    if |m| > 0 && m[0] == '@' then
      ParseAddressingShape(m);
      HeadRulesOut(m, "CONNECT");
      HeadRulesOut(m, "DISCONNECT");
      var a := ParseAddressing(m);
      var res := Resolve(room, a.tokens);
      Routed(Private, a.payload, res.sockets, res.notFound)
    else if |m| >= 7 && m[..7] == "CONNECT" then
      assert m[0] == m[..7][0];
      HeadRulesOut(m, "DISCONNECT");
      Routed(Connect, m, [], [])
    else if |m| >= 10 && m[..10] == "DISCONNECT" then
      Routed(Disconnect, m, [], [])
    else
      Routed(Broadcast, m, [], [])
  }

  /** Classification looks only at a prefix: once a line is a command,
      anything appended to it leaves it the same command. */
  lemma CommandKindStable(room: ChatRoom, m: string, extra: string)
    requires CommandHandler(room, m).kind != Broadcast
    ensures CommandHandler(room, m + extra).kind == CommandHandler(room, m).kind
  {
    var n := m + extra;
    if |m| >= 10 {
      assert n[..10] == m[..10];
    }
    if |m| >= 7 {
      assert n[..7] == m[..7];
    }
  }

  /** The router knows no EXIT command and no empty command: both are
      broadcast. */
  lemma ExitAndEmptyAreBroadcast(room: ChatRoom)
    ensures CommandHandler(room, "EXIT").kind == Broadcast
    ensures CommandHandler(room, []).kind == Broadcast
  {
  }

  /** What `privateMsgParser` knows after reading the groups `seen`, its
      index standing at `index`: the groups still to come and the payload
      are those of the rest of the line, and the two lists resolve `seen`. */
  ghost predicate Scanned(room: ChatRoom, m: string, index: nat, seen: seq<string>,
                          sockets: seq<int>, notFound: seq<string>)
  {
    && index <= |m| + 1
    && (index <= |m| ==>
          ParseAddressing(m)
            == Addressed(seen + ParseAddressing(m[index..]).tokens, ParseAddressing(m[index..]).payload))
    && (index == |m| + 1 ==> ParseAddressing(m) == Addressed(seen, []))
    && Resolve(room, seen) == Resolution(sockets, notFound)
  }

  lemma ScannedStart(room: ChatRoom, m: string)
    ensures Scanned(room, m, 0, [], [], [])
  {
    assert m[0..] == m;
  }

  /** The parse of the whole line, seen from just past one more group: the
      token `u` spanning `at + 1` to `j` joins the groups already read. */
  lemma ParsePastGroup(m: string, at: nat, j: nat, u: string, seen: seq<string>)
    requires at < j <= |m| && m[at] == '@' && u == m[at + 1..j]
    requires NoSpace(u) && (j == |m| || m[j] == ' ')
    requires ParseAddressing(m)
      == Addressed(seen + ParseAddressing(m[at..]).tokens, ParseAddressing(m[at..]).payload)
    ensures j < |m| ==>
      ParseAddressing(m)
        == Addressed((seen + [u]) + ParseAddressing(m[j + 1..]).tokens, ParseAddressing(m[j + 1..]).payload)
    ensures j == |m| ==> ParseAddressing(m) == Addressed(seen + [u], [])
  {
    ParseAddressingStep(m, at, j);
    if j < |m| {
      AppendAssoc(seen, [u], ParseAddressing(m[j + 1..]).tokens);
    }
  }

  /** Reading one more group, the token `u` spanning `at + 1` to `j`, and
      filing it in one of the two lists keeps `Scanned` with the index just
      past the space after the token. */
  lemma ScannedStep(room: ChatRoom, m: string, at: nat, j: nat, u: string,
                    seen: seq<string>, sockets: seq<int>, notFound: seq<string>,
                    next: nat, seen': seq<string>, sockets': seq<int>, notFound': seq<string>)
    requires Scanned(room, m, at, seen, sockets, notFound)
    requires next == j + 1 && seen' == seen + [u]
    requires at < j <= |m| && m[at] == '@' && u == m[at + 1..j]
    requires (forall k :: at < k < j ==> m[k] != ' ') && (j == |m| || m[j] == ' ')
    requires u in room ==> sockets' == sockets + [room[u]] && notFound' == notFound
    requires u !in room ==> sockets' == sockets && notFound' == notFound + [u]
    ensures Scanned(room, m, next, seen', sockets', notFound')
  {
    assert NoSpace(u) by {
      forall k | 0 <= k < |u| ensures u[k] != ' ' {
        assert u[k] == m[at + 1 + k];
      }
    }
    ParsePastGroup(m, at, j, u, seen);
    ResolveSnoc(room, seen, u);
  }

  /** Once no `@` stands at the index, the lists are final and the payload
      is the rest of the line from the index, or nothing past its end. */
  lemma ScannedDone(room: ChatRoom, m: string, index: nat, seen: seq<string>,
                    sockets: seq<int>, notFound: seq<string>)
    requires Scanned(room, m, index, seen, sockets, notFound)
    requires !(index < |m| && m[index] == '@')
    ensures ParseAddressing(m).payload == if index <= |m| then m[index..] else []
    ensures Resolve(room, ParseAddressing(m).tokens) == Resolution(sockets, notFound)
  {
    if index <= |m| {
      assert ParseAddressing(m[index..]) == Addressed([], m[index..]);
      assert seen + [] == seen;
    }
  }

  /** The inner loop of `privateMsgParser`: collect characters from `start`
      up to the next space or the end of the line. */
  method ReadUsername(message: string, start: nat) returns (username: string, index: nat)
    requires start <= |message|
    ensures start <= index <= |message|
    ensures username == message[start..index]
    ensures forall k :: start <= k < index ==> message[k] != ' '
    ensures index == |message| || message[index] == ' '
  {
    username, index := [], start;
    while index < |message| && message[index] != ' '
      invariant start <= index <= |message|
      invariant username == message[start..index]
      invariant forall k :: start <= k < index ==> message[k] != ' '
      decreases |message| - index
    {
      username := username + [message[index]];
      index := index + 1;
    }
  }

  /** `privateMsgParser` as the server runs it: one index walks the line,
      each `@` group is looked up as soon as it is read, and the message
      becomes the rest of the line from the final index. */
  method PrivateMsgParser(room: ChatRoom, message: string)
    returns (payload: string, sockets: seq<int>, notFound: seq<string>)
    ensures ParseAddressing(message).payload == payload
    ensures Resolve(room, ParseAddressing(message).tokens) == Resolution(sockets, notFound)
  {
    var index := 0;
    ghost var seen: seq<string> := [];
    sockets, notFound := [], [];
    ScannedStart(room, message);
    while index < |message| && message[index] == '@'
      invariant Scanned(room, message, index, seen, sockets, notFound)
      decreases |message| + 1 - index
    {
      ghost var at, seen0, sockets0, notFound0 := index, seen, sockets, notFound;
      var username;
      username, index := ReadUsername(message, index + 1);
      if username in room {
        sockets := sockets + [room[username]];
      } else {
        notFound := notFound + [username];
      }
      ghost var stop := index;
      seen := seen + [username];
      index := index + 1;
      ScannedStep(room, message, at, stop, username, seen0, sockets0, notFound0,
                  index, seen, sockets, notFound);
    }
    ScannedDone(room, message, index, seen, sockets, notFound);
    if |message| >= index {
      payload := message[index..];
    } else {
      payload := [];
    }
  }
}
