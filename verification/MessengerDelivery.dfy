/**
  Who is notified of what, after every run.

  A stored message counts as delivered exactly when somebody is logged in under the receiver's name.
  Whoever is then notifies its observers exactly once, unless a '|' breaks the wire format.
 */
module MessengerDelivery {
  import opened Common
  import opened Crypto
  import opened ChatState
  import opened MessageProtocol
  import opened MessengerModel
  import opened MessengerLinks
  import opened MessengerReads

  // ---------- direct messages ----------

  // After every run: a message that sendMessage accepts is stored as delivered exactly when somebody is
  // logged in under the receiver's name.  That client then notifies its observers of exactly the text
  // that was sent, unless a '|' in a name or in the identifier breaks the wire format: then it notifies
  // nobody, although the message counts as delivered.  No other client notices anything.
  lemma DeliveryIsFaithful(lib: Library, ops: seq<Op>, i: nat, to: string, text: seq<byte>, coins: Coins, j: nat)
    requires Ideal(lib) && AllProper(lib, ops) && |coins.sessionKey| == KEY_SIZE
    requires i < |Run(lib, ops).sys.clients| && Run(lib, ops).sys.clients[i].loggedIn
    requires to in Run(lib, ops).sys.server.users && j < |Run(lib, ops).sys.clients|
    ensures var sys := Run(lib, ops).sys;
      var (sys', stored) := Send(lib, sys, i, to, text, coins);
      && stored.Some?
      && stored.value.status == (if exists k :: LoggedInAs(sys, k, to) then DELIVERED else SENT)
      && sys'.clients[j].events == sys.clients[j].events
           + if LoggedInAs(sys, j, to) && BarFree(stored.value)
             then [Event(sys.clients[i].username, text, "", coins.messageId, false)] else []
  {
    SecuredInRuns(lib, ops);
    LinksInRuns(lib, ops);
    DeliveryNow(lib, Run(lib, ops).sys, i, to, text, coins, j);
  }

  lemma DeliveryNow(lib: Library, sys: System, i: nat, to: string, text: seq<byte>, coins: Coins, j: nat)
    requires Ideal(lib) && Linked(sys) && Keyed(lib, sys) && |coins.sessionKey| == KEY_SIZE
    requires i < |sys.clients| && sys.clients[i].loggedIn && to in sys.server.users && j < |sys.clients|
    ensures var (sys', stored) := Send(lib, sys, i, to, text, coins);
      && stored.Some?
      && stored.value.status == (if exists k :: LoggedInAs(sys, k, to) then DELIVERED else SENT)
      && sys'.clients[j].events == sys.clients[j].events
           + if LoggedInAs(sys, j, to) && BarFree(stored.value)
             then [Event(sys.clients[i].username, text, "", coins.messageId, false)] else []
  {
    HasKey(lib, sys, to);
    LinkedMeansOneHolder(sys, to);
    assert LinkedAt(sys, i) && LinkedAt(sys, j);
    var m := DirectMessage(lib, sys.clients[i], to, PublicKey(sys.server, to), text, coins);
    if LoggedInAs(sys, j, to) {
      DirectIsReadable(lib, sys, i, to, text, coins, m);
      assert HoldsKey(sys, j);
      assert Reveal(lib, sys.clients[j].keys, to, m) == Some(text);
      WireRoundTrip(m);
    }
    if to in sys.handlers {
      assert HandlerAt(sys, to);
    }
  }

  // ---------- group messages ----------

  // What the observers of client j are notified of when client i sends one copy.
  ghost function Notice(lib: Library, sys: System, i: nat, j: nat, group: string, text: seq<byte>, payload: seq<byte>,
          sessionKey: seq<byte>, member: string, coins: CopyCoins): seq<Event>
    requires i < |sys.clients|
  {
    var copy := StoredCopy(lib, sys, i, group, payload, sessionKey, member, coins);
    if LoggedInAs(sys, j, member) && BarFree(copy)
    then [Event(sys.clients[i].username, text, group, copy.messageId, true)]
    else []
  }

  ghost function Notices(lib: Library, sys: System, i: nat, j: nat, group: string, text: seq<byte>,
          payload: seq<byte>, coins: GroupCoins, members: seq<string>): seq<Event>
    requires i < |sys.clients|
  {
    if members == [] then [] else
      var n := |members| - 1;
      Notices(lib, sys, i, j, group, text, payload, coins, members[..n])
      + Notice(lib, sys, i, j, group, text, payload, coins.sessionKey, members[n], coins.copies(n))
  }

  lemma CopyNotifies(lib: Library, sys: System, i: nat, j: nat, group: string, text: seq<byte>, sealing: nat,
          sessionKey: seq<byte>, member: string, coins: CopyCoins)
    requires Ideal(lib) && Linked(sys) && Keyed(lib, sys) && |sessionKey| == KEY_SIZE && member in sys.server.users
    requires i < |sys.clients| && sys.clients[i].loggedIn && j < |sys.clients|
    ensures var payload := lib.seal(text, sessionKey, sealing);
      SendCopy(lib, sys, i, group, payload, sessionKey, member, coins).0.clients[j].events
      == sys.clients[j].events + Notice(lib, sys, i, j, group, text, payload, sessionKey, member, coins)
  {
    var payload, sender := lib.seal(text, sessionKey, sealing), sys.clients[i].username;
    var copy := GroupCopy(lib, sender, member, PublicKey(sys.server, member), group, payload, sessionKey, coins);
    HasKey(lib, sys, member);
    LinkedMeansOneHolder(sys, member);
    assert LinkedAt(sys, i) && LinkedAt(sys, j);
    if LoggedInAs(sys, j, member) {
      CopyIsReadable(lib, sys, sender, member, group, text, sealing, sessionKey, coins, copy);
      assert HoldsKey(sys, j);
      assert Reveal(lib, sys.clients[j].keys, member, copy) == Some(text);
      WireRoundTrip(copy);
    }
  }

  lemma NoticeStays(lib: Library, a: System, b: System, i: nat, j: nat, group: string, text: seq<byte>,
          payload: seq<byte>, sessionKey: seq<byte>, member: string, coins: CopyCoins)
    requires SameButEvents(a, b) && i < |a.clients| && j < |a.clients|
    ensures Notice(lib, a, i, j, group, text, payload, sessionKey, member, coins)
            == Notice(lib, b, i, j, group, text, payload, sessionKey, member, coins)
  {
    StoredCopyStays(lib, a, b, i, group, payload, sessionKey, member, coins);
    assert SameClient(a.clients[i], b.clients[i]) && SameClient(a.clients[j], b.clients[j]);
  }

  // The same after earlier copies have been sent.
  lemma NextNotifies(lib: Library, sys: System, before: System, i: nat, j: nat, group: string, text: seq<byte>,
          sealing: nat, sessionKey: seq<byte>, member: string, coins: CopyCoins)
    requires Ideal(lib) && Linked(sys) && Keyed(lib, sys) && SameButEvents(sys, before) && |sessionKey| == KEY_SIZE
    requires i < |sys.clients| && sys.clients[i].loggedIn && j < |sys.clients| && member in sys.server.users
    ensures var payload := lib.seal(text, sessionKey, sealing);
      SendCopy(lib, before, i, group, payload, sessionKey, member, coins).0.clients[j].events
      == before.clients[j].events + Notice(lib, sys, i, j, group, text, payload, sessionKey, member, coins)
  {
    assert SameClient(sys.clients[i], before.clients[i]);
    FrameKeepsLinks(sys, before);
    KeyedStays(lib, sys, before);
    CopyNotifies(lib, before, i, j, group, text, sealing, sessionKey, member, coins);
    NoticeStays(lib, sys, before, i, j, group, text, lib.seal(text, sessionKey, sealing), sessionKey, member, coins);
  }

  lemma {:induction false} CopiesNotify(lib: Library, sys: System, i: nat, j: nat, group: string, text: seq<byte>,
          coins: GroupCoins, members: seq<string>)
    requires Ideal(lib) && Linked(sys) && Keyed(lib, sys) && |coins.sessionKey| == KEY_SIZE
    requires i < |sys.clients| && sys.clients[i].loggedIn && j < |sys.clients|
    requires forall m | m in members :: m in sys.server.users
    ensures var payload := lib.seal(text, coins.sessionKey, coins.sealing);
      SendCopies(lib, sys, i, group, payload, coins, members).0.clients[j].events
      == sys.clients[j].events + Notices(lib, sys, i, j, group, text, payload, coins, members)
  {
    if members != [] {
      var n, payload := |members| - 1, lib.seal(text, coins.sessionKey, coins.sealing);
      CopiesNotify(lib, sys, i, j, group, text, coins, members[..n]);
      CopiesFrame(lib, sys, i, group, payload, coins, members[..n]);
      var before := SendCopies(lib, sys, i, group, payload, coins, members[..n]).0;
      assert members[n] in members;
      NextNotifies(lib, sys, before, i, j, group, text, coins.sealing, coins.sessionKey, members[n], coins.copies(n));
      Assoc(sys.clients[j].events, Notices(lib, sys, i, j, group, text, payload, coins, members[..n]),
            Notice(lib, sys, i, j, group, text, payload, coins.sessionKey, members[n], coins.copies(n)));
    }
  }

  lemma {:induction false} NobodyNoticed(lib: Library, sys: System, i: nat, j: nat, group: string, text: seq<byte>,
          payload: seq<byte>, coins: GroupCoins, members: seq<string>)
    requires i < |sys.clients| && forall n | 0 <= n < |members| :: !LoggedInAs(sys, j, members[n])
    ensures Notices(lib, sys, i, j, group, text, payload, coins, members) == []
  {
    if members != [] {
      NobodyNoticed(lib, sys, i, j, group, text, payload, coins, members[..|members| - 1]);
      assert !LoggedInAs(sys, j, members[|members| - 1]);
    }
  }

  // A client has one name, and a member is listed once, so at most one copy reaches it.
  lemma {:induction false} NoticedOnce(lib: Library, sys: System, i: nat, j: nat, group: string, text: seq<byte>,
          payload: seq<byte>, coins: GroupCoins, members: seq<string>, k: nat)
    requires i < |sys.clients| && k < |members| && LoggedInAs(sys, j, members[k])
    requires forall n | 0 <= n < |members| && n != k :: members[n] != members[k]
    ensures Notices(lib, sys, i, j, group, text, payload, coins, members)
            == Notice(lib, sys, i, j, group, text, payload, coins.sessionKey, members[k], coins.copies(k))
  {
    var last := |members| - 1;
    if k == last {
      NobodyNoticed(lib, sys, i, j, group, text, payload, coins, members[..last]);
    } else {
      NoticedOnce(lib, sys, i, j, group, text, payload, coins, members[..last], k);
      assert !LoggedInAs(sys, j, members[last]);
    }
  }

  // The copies of a group send by client i, and what client j hears of it.
  ghost predicate GroupDelivered(lib: Library, sys: System, i: nat, j: nat, group: string, text: seq<byte>,
          coins: GroupCoins)
    requires i < |sys.clients| && j < |sys.clients|
  {
    var members, c := Listing(Members(sys.server, group)), sys.clients[j];
    var (sys', copies) := GroupSend(lib, sys, i, group, members, text, coins);
    && |copies| == |members| && j < |sys'.clients|
    && (forall n | 0 <= n < |members| ::
          copies[n].status == if exists k :: LoggedInAs(sys, k, members[n]) then DELIVERED else SENT)
    && (forall n | 0 <= n < |members| && LoggedInAs(sys, j, members[n]) ::
          sys'.clients[j].events == c.events + HeardOf(sys.clients[i].username, group, text, copies[n]))
    && (!(c.loggedIn && c.username in Members(sys.server, group)) ==> sys'.clients[j].events == c.events)
  }

  // A '|' in the sender, the member, the group or the identifier keeps a copy from being heard.
  ghost function HeardOf(sender: string, group: string, text: seq<byte>, copy: Message): seq<Event> {
    if BarFree(copy) then [Event(sender, text, group, copy.messageId, true)] else []
  }

  // After every run: each copy of a group message is stored as delivered exactly when somebody is logged
  // in as that member.  Each client that is logged in as a member notifies its observers exactly once, of
  // exactly the text sent, unless a '|' breaks the wire format: then it notifies nobody, although the copy
  // counts as delivered.  No other client notices anything.
  lemma GroupDeliveryIsFaithful(lib: Library, ops: seq<Op>, i: nat, group: string, text: seq<byte>, coins: GroupCoins,
          j: nat)
    requires Ideal(lib) && AllProper(lib, ops) && |coins.sessionKey| == KEY_SIZE
    requires i < |Run(lib, ops).sys.clients| && Run(lib, ops).sys.clients[i].loggedIn
    requires j < |Run(lib, ops).sys.clients|
    ensures GroupDelivered(lib, Run(lib, ops).sys, i, j, group, text, coins)
  {
    SecuredInRuns(lib, ops);
    LinksInRuns(lib, ops);
    GroupDeliveredNow(lib, Run(lib, ops).sys, Run(lib, ops).log, i, j, group, text, coins);
  }

  lemma GroupDeliveredNow(lib: Library, sys: System, log: seq<Entry>, i: nat, j: nat, group: string, text: seq<byte>,
          coins: GroupCoins)
    requires Ideal(lib) && Linked(sys) && Secured(lib, sys, log) && |coins.sessionKey| == KEY_SIZE
    requires i < |sys.clients| && sys.clients[i].loggedIn && j < |sys.clients|
    ensures GroupDelivered(lib, sys, i, j, group, text, coins)
  {
    var members, payload := Listing(Members(sys.server, group)), lib.seal(text, coins.sessionKey, coins.sealing);
    MembersAreUsers(sys.server, group);
    GroupSendSecures(lib, sys, log, i, group, text, coins);
    CopiesNotify(lib, sys, i, j, group, text, coins, members);
    StatusesAreRight(lib, sys, i, group, payload, coins, members);
    NoticesAreRight(lib, sys, i, j, group, text, payload, coins, members);
  }

  lemma StatusesAreRight(lib: Library, sys: System, i: nat, group: string, payload: seq<byte>, coins: GroupCoins,
          members: seq<string>)
    requires Linked(sys) && i < |sys.clients| && sys.clients[i].loggedIn
    ensures forall n | 0 <= n < |members| ::
              StoredCopies(lib, sys, i, group, payload, coins, members)[n].status
              == if exists k :: LoggedInAs(sys, k, members[n]) then DELIVERED else SENT
  {
    assert LinkedAt(sys, i);
    forall n | 0 <= n < |members|
      ensures StoredCopy(lib, sys, i, group, payload, coins.sessionKey, members[n], coins.copies(n)).status
              == if exists k :: LoggedInAs(sys, k, members[n]) then DELIVERED else SENT
    {
      LinkedMeansOneHolder(sys, members[n]);
      assert members[n] in sys.handlers ==> HandlerAt(sys, members[n]);
    }
  }

  lemma NoticesAreRight(lib: Library, sys: System, i: nat, j: nat, group: string, text: seq<byte>, payload: seq<byte>,
          coins: GroupCoins, members: seq<string>)
    requires i < |sys.clients| && j < |sys.clients|
    requires forall m, n | 0 <= m < n < |members| :: members[m] != members[n]
    ensures var all, copies := Notices(lib, sys, i, j, group, text, payload, coins, members),
                               StoredCopies(lib, sys, i, group, payload, coins, members);
      && (forall n | 0 <= n < |members| && LoggedInAs(sys, j, members[n]) ::
            all == HeardOf(sys.clients[i].username, group, text, copies[n]))
      && (!(sys.clients[j].loggedIn && sys.clients[j].username in members) ==> all == [])
  {
    var copies := StoredCopies(lib, sys, i, group, payload, coins, members);
    forall n | 0 <= n < |members| && LoggedInAs(sys, j, members[n])
      ensures Notices(lib, sys, i, j, group, text, payload, coins, members)
              == HeardOf(sys.clients[i].username, group, text, copies[n])
    {
      NoticedOnce(lib, sys, i, j, group, text, payload, coins, members, n);
    }
    if !(sys.clients[j].loggedIn && sys.clients[j].username in members) {
      NobodyNoticed(lib, sys, i, j, group, text, payload, coins, members);
    }
  }
}
