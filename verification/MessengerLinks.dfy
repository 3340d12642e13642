/**
  Who is connected, in every run of the messenger.

  The invariant Linked says that the transport server and the clients agree on who is connected.  It
  needs no assumption on names, keys or the cryptographic library.
 */
module MessengerLinks {
  import opened Common
  import opened Crypto
  import opened ChatState
  import opened MessageProtocol
  import opened MessengerModel

  ghost predicate LinkedAt(sys: System, i: nat)
    requires i < |sys.clients|
  {
    var c := sys.clients[i];
    && c.loggedIn == c.link.connected
    && (c.loggedIn ==> c.link.username == c.username && c.username in sys.handlers && sys.handlers[c.username] == i)
  }

  ghost predicate HandlerAt(sys: System, u: string)
    requires u in sys.handlers
  {
    var i := sys.handlers[u];
    i < |sys.clients| && sys.clients[i].loggedIn && sys.clients[i].username == u
  }

  ghost predicate Linked(sys: System) {
    && (forall i | 0 <= i < |sys.clients| :: LinkedAt(sys, i))
    && (forall u | u in sys.handlers :: HandlerAt(sys, u))
  }

  // A change of client i that keeps its name, with the handlers changed under that name only.
  ghost predicate Relinks(sys: System, sys': System, i: nat)
    requires i < |sys.clients|
  {
    && |sys'.clients| == |sys.clients| && sys'.clients == sys.clients[i := sys'.clients[i]]
    && sys'.clients[i].username == sys.clients[i].username
    && LinkedAt(sys', i)
    && (forall u | u != sys.clients[i].username :: u in sys.handlers <==> u in sys'.handlers)
    && (forall u | u in sys.handlers && u in sys'.handlers && u != sys.clients[i].username
          :: sys'.handlers[u] == sys.handlers[u])
    && var u := sys.clients[i].username;
       // under its own name, the client comes, goes, or leaves the holder in place
       || (u in sys'.handlers && sys'.handlers[u] == i && sys'.clients[i].loggedIn
           && (u in sys.handlers ==> sys.handlers[u] == i))
       || (u !in sys'.handlers && (u in sys.handlers ==> sys.handlers[u] == i))
       || (u in sys'.handlers && u in sys.handlers && sys'.handlers[u] == sys.handlers[u] != i)
  }

  lemma RelinksKeeps(sys: System, sys': System, i: nat)
    requires Linked(sys) && i < |sys.clients| && Relinks(sys, sys', i)
    ensures Linked(sys')
  {
    assert LinkedAt(sys, i);
    forall j | 0 <= j < |sys'.clients|
      ensures LinkedAt(sys', j)
    {
      assert LinkedAt(sys, j);
    }
    forall u | u in sys'.handlers
      ensures HandlerAt(sys', u)
    {
      assert u in sys.handlers ==> HandlerAt(sys, u);
    }
  }

  lemma RegisterRelinks(sys: System, i: nat, hash: string, newKeys: KeyPair)
    requires Linked(sys) && i < |sys.clients|
    ensures Relinks(sys, Register(sys, i, hash, newKeys).0, i)
  {
    assert LinkedAt(sys, i);
  }

  lemma LoginRelinks(sys: System, i: nat, hash: string)
    requires Linked(sys) && i < |sys.clients|
    ensures Relinks(sys, Login(sys, i, hash).0, i)
  {
    assert LinkedAt(sys, i);
    var u := sys.clients[i].username;
    assert u in sys.handlers ==> HandlerAt(sys, u);
  }

  lemma LogoutRelinks(sys: System, i: nat)
    requires Linked(sys) && i < |sys.clients|
    ensures Relinks(sys, Logout(sys, i), i)
  {
    assert LinkedAt(sys, i);
    var u := sys.clients[i].username;
    assert u in sys.handlers ==> HandlerAt(sys, u);
  }

  // What a delivery leaves alone: everything but the events of clients and the histories.
  ghost predicate SameButEvents(a: System, b: System) {
    && a.handlers == b.handlers && a.keyFiles == b.keyFiles && |a.clients| == |b.clients|
    && a.server.users == b.server.users && a.server.groups == b.server.groups
    && a.server.nextGroupId == b.server.nextGroupId
    && forall j | 0 <= j < |a.clients| :: SameClient(a.clients[j], b.clients[j])
  }

  ghost predicate SameClient(c: Client, d: Client) {
    c.(events := []) == d.(events := [])
  }

  lemma TransmitFrame(lib: Library, sys: System, i: nat, m: Message)
    requires i < |sys.clients|
    ensures var (sys', stored) := Transmit(lib, sys, i, m);
      && SameButEvents(sys, sys') && sys'.server == Store(sys.server, stored)
      && (stored == m || stored == m.(status := DELIVERED))
  {
  }

  lemma {:induction false} CopiesFrame(lib: Library, sys: System, i: nat, group: string, payload: seq<byte>,
          coins: GroupCoins, members: seq<string>)
    requires i < |sys.clients|
    ensures SameButEvents(sys, SendCopies(lib, sys, i, group, payload, coins, members).0)
  {
    if members != [] {
      var n := |members| - 1;
      CopiesFrame(lib, sys, i, group, payload, coins, members[..n]);
      var before := SendCopies(lib, sys, i, group, payload, coins, members[..n]).0;
      CopyFrame(lib, before, i, group, payload, coins.sessionKey, members[n], coins.copies(n));
      FrameTransitive(sys, before, SendCopies(lib, sys, i, group, payload, coins, members).0);
    }
  }

  lemma CopyFrame(lib: Library, sys: System, i: nat, group: string, payload: seq<byte>, sessionKey: seq<byte>,
          member: string, coins: CopyCoins)
    requires i < |sys.clients|
    ensures SameButEvents(sys, SendCopy(lib, sys, i, group, payload, sessionKey, member, coins).0)
  {
    var key := PublicKey(sys.server, member);
    TransmitFrame(lib, sys, i, GroupCopy(lib, sys.clients[i].username, member, key, group, payload, sessionKey, coins));
  }

  lemma FrameTransitive(a: System, b: System, c: System)
    requires SameButEvents(a, b) && SameButEvents(b, c)
    ensures SameButEvents(a, c)
  {
    forall j | 0 <= j < |a.clients|
      ensures SameClient(a.clients[j], c.clients[j])
    {
      assert SameClient(a.clients[j], b.clients[j]) && SameClient(b.clients[j], c.clients[j]);
    }
  }

  lemma FrameKeepsLinks(a: System, b: System)
    requires SameButEvents(a, b) && Linked(a)
    ensures Linked(b)
  {
    forall j | 0 <= j < |b.clients|
      ensures LinkedAt(b, j)
    {
      assert LinkedAt(a, j) && SameClient(a.clients[j], b.clients[j]);
    }
    forall u | u in b.handlers
      ensures HandlerAt(b, u)
    {
      assert HandlerAt(a, u) && SameClient(a.clients[a.handlers[u]], b.clients[a.handlers[u]]);
    }
  }

  lemma ServerKeepsLinks(sys: System, server: Server)
    requires Linked(sys)
    ensures Linked(sys.(server := server))
  {
    var sys' := sys.(server := server);
    assert forall j | 0 <= j < |sys.clients| :: LinkedAt(sys', j) == LinkedAt(sys, j);
    assert forall u | u in sys.handlers :: HandlerAt(sys', u) == HandlerAt(sys, u);
  }

  lemma NewClientKeepsLinks(sys: System, username: string)
    requires Linked(sys)
    ensures Linked(sys.(clients := sys.clients + [Fresh(username)]))
  {
    var sys' := sys.(clients := sys.clients + [Fresh(username)]);
    forall j | 0 <= j < |sys'.clients|
      ensures LinkedAt(sys', j)
    {
      assert j < |sys.clients| ==> LinkedAt(sys, j);
    }
    forall u | u in sys'.handlers
      ensures HandlerAt(sys', u)
    {
      assert HandlerAt(sys, u);
    }
  }

  lemma StepKeepsLinks(lib: Library, w: World, op: Op)
    requires Linked(w.sys)
    ensures Linked(Step(lib, w, op).sys)
  {
    var sys, sys' := w.sys, Step(lib, w, op).sys;
    if op.NewClient? {
      NewClientKeepsLinks(sys, op.username);
    } else if op.i < |sys.clients| {
      match op
      case RegisterOp(i, hash, newKeys) => RegisterRelinks(sys, i, hash, newKeys); RelinksKeeps(sys, sys', i);
      case LoginOp(i, hash) => LoginRelinks(sys, i, hash); RelinksKeeps(sys, sys', i);
      case LogoutOp(i) => LogoutRelinks(sys, i); RelinksKeeps(sys, sys', i);
      case SendOp(i, to, text, coins) => SendFrame(lib, sys, i, to, text, coins); FrameKeepsLinks(sys, sys');
      case GroupSendOp(i, group, text, coins) =>
        GroupSendFrame(lib, sys, i, group, Listing(Members(sys.server, group)), text, coins);
        FrameKeepsLinks(sys, sys');
      case DeleteOp(_, _) => ServerKeepsLinks(sys, sys'.server);
      case CreateGroupOp(_, _, _) => ServerKeepsLinks(sys, sys'.server);
    }
  }

  lemma SendFrame(lib: Library, sys: System, i: nat, to: string, text: seq<byte>, coins: Coins)
    requires i < |sys.clients|
    ensures SameButEvents(sys, Send(lib, sys, i, to, text, coins).0)
  {
    var c, toKey := sys.clients[i], PublicKey(sys.server, to);
    if c.loggedIn && toKey != "" {
      TransmitFrame(lib, sys, i, DirectMessage(lib, c, to, toKey, text, coins));
    }
  }

  lemma GroupSendFrame(lib: Library, sys: System, i: nat, group: string, members: seq<string>, text: seq<byte>,
          coins: GroupCoins)
    requires i < |sys.clients|
    ensures SameButEvents(sys, GroupSend(lib, sys, i, group, members, text, coins).0)
  {
    CopiesFrame(lib, sys, i, group, lib.seal(text, coins.sessionKey, coins.sealing), coins, members);
  }

  lemma {:induction false} LinksInRuns(lib: Library, ops: seq<Op>)
    ensures Linked(Run(lib, ops).sys)
  {
    if ops != [] {
      LinksInRuns(lib, ops[..|ops| - 1]);
      StepKeepsLinks(lib, Run(lib, ops[..|ops| - 1]), ops[|ops| - 1]);
    }
  }

  ghost predicate LoggedInAs(sys: System, i: int, u: string) {
    0 <= i < |sys.clients| && sys.clients[i].loggedIn && sys.clients[i].username == u
  }

  ghost predicate OneHolderOf(sys: System, u: string) {
    && (u in sys.handlers <==> exists i :: LoggedInAs(sys, i, u))
    && (forall i :: LoggedInAs(sys, i, u) ==> u in sys.handlers && sys.handlers[u] == i)
  }

  lemma LinkedMeansOneHolder(sys: System, u: string)
    requires Linked(sys)
    ensures OneHolderOf(sys, u)
  {
    forall i | LoggedInAs(sys, i, u)
      ensures u in sys.handlers && sys.handlers[u] == i
    {
      assert LinkedAt(sys, i);
    }
    if u in sys.handlers {
      assert HandlerAt(sys, u);
      assert LoggedInAs(sys, sys.handlers[u], u);
    }
  }

  // In every run, with any number of clients under one name: a client is logged in exactly when its
  // transport is connected, and the server has a handler for u exactly when a client is logged in
  // under u, which is then the only one and the one the handler belongs to.
  lemma OneHolder(lib: Library, ops: seq<Op>, u: string)
    ensures forall i | 0 <= i < |Run(lib, ops).sys.clients| ::
              Run(lib, ops).sys.clients[i].loggedIn == Run(lib, ops).sys.clients[i].link.connected
    ensures OneHolderOf(Run(lib, ops).sys, u)
  {
    LinksInRuns(lib, ops);
    var sys := Run(lib, ops).sys;
    LinkedMeansOneHolder(sys, u);
    forall i | 0 <= i < |sys.clients|
      ensures sys.clients[i].loggedIn == sys.clients[i].link.connected
    {
      assert LinkedAt(sys, i);
    }
  }

  // Whoever holds a name keeps it, connected and logged in, until it logs out itself.  In particular
  // a client that lost the race for the name cannot disconnect the holder, by logging out or otherwise.
  lemma OnlyTheHolderDisconnects(lib: Library, ops: seq<Op>, op: Op, u: string)
    requires u in Run(lib, ops).sys.handlers
    requires op != LogoutOp(Run(lib, ops).sys.handlers[u])
    ensures var k, sys' := Run(lib, ops).sys.handlers[u], Run(lib, ops + [op]).sys;
      u in sys'.handlers && sys'.handlers[u] == k && LoggedInAs(sys', k, u)
  {
    var w := Run(lib, ops);
    var sys, sys' := w.sys, Step(lib, w, op).sys;
    assert (ops + [op])[..|ops|] == ops;
    LinksInRuns(lib, ops);
    StepKeepsLinks(lib, w, op);
    assert HandlerAt(sys, u) && LinkedAt(sys, sys.handlers[u]);
    HandlerStays(lib, w, op, u);
    assert HandlerAt(sys', u);
  }

  lemma LoginKeepsHandler(sys: System, i: nat, hash: string, u: string)
    requires u in sys.handlers && i < |sys.clients|
    ensures u in Login(sys, i, hash).0.handlers && Login(sys, i, hash).0.handlers[u] == sys.handlers[u]
  {
  }

  lemma LogoutKeepsHandler(sys: System, i: nat, u: string)
    requires Linked(sys) && u in sys.handlers && i < |sys.clients| && i != sys.handlers[u]
    ensures u in Logout(sys, i).handlers && Logout(sys, i).handlers[u] == sys.handlers[u]
  {
    assert LinkedAt(sys, i);
  }

  lemma HandlerStays(lib: Library, w: World, op: Op, u: string)
    requires Linked(w.sys) && u in w.sys.handlers && op != LogoutOp(w.sys.handlers[u])
    ensures u in Step(lib, w, op).sys.handlers && Step(lib, w, op).sys.handlers[u] == w.sys.handlers[u]
  {
    var sys := w.sys;
    if !op.NewClient? && op.i < |sys.clients| {
      match op
      case LoginOp(i, hash) => LoginKeepsHandler(sys, i, hash, u);
      case LogoutOp(i) => LogoutKeepsHandler(sys, i, u);
      case SendOp(i, to, text, coins) => SendFrame(lib, sys, i, to, text, coins);
      case GroupSendOp(i, group, text, coins) =>
        GroupSendFrame(lib, sys, i, group, Listing(Members(sys.server, group)), text, coins);
      case _ =>
    }
  }
}
