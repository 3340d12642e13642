/**
  What a deletion takes from whom, after every run.

  Every copy of a group message has an identifier of its own.  So a deletion takes a group message from
  one member only, and from all participants only if the group has no other member.
 */
module MessengerDeletion {
  import opened Common
  import opened Crypto
  import opened ChatState
  import opened Decimal
  import opened MessageProtocol
  import opened MessengerModel
  import opened MessengerLinks
  import opened MessengerReads
  import opened MessengerTheorems

  // ---------- the lists after a deletion ----------

  // What client j reads shows the entries of log that it can see, in both kinds of lists.
  ghost predicate ReadsOf(lib: Library, sys: System, j: nat, log: seq<Entry>, group: string, peer: string)
    requires j < |sys.clients|
  {
    var u := sys.clients[j].username;
    && ReadGroup(lib, sys, j, group) == Some(Map(ViewOf(), Filter(CopyFor(group, u), log)))
    && ReadConversation(lib, sys, j, peer) == Some(Map(ViewOf(), Filter(EntryBetween(u, peer), log)))
    && ShowsAll(ReadGroup(lib, sys, j, group), Filter(CopyFor(group, u), log))
    && ShowsAll(ReadConversation(lib, sys, j, peer), Filter(EntryBetween(u, peer), log))
  }

  lemma ReadsNow(lib: Library, sys: System, log: seq<Entry>, j: nat, group: string, peer: string)
    requires Secured(lib, sys, log) && j < |sys.clients| && sys.clients[j].loggedIn
    ensures ReadsOf(lib, sys, j, log, group, peer)
  {
    ReadsGroup(lib, sys, log, j, group);
    ReadsConversation(lib, sys, log, j, peer);
    ViewsShow(Filter(CopyFor(group, sys.clients[j].username), log));
    ViewsShow(Filter(EntryBetween(sys.clients[j].username, peer), log));
  }

  lemma DeletionNow(lib: Library, sys: System, log: seq<Entry>, i: nat, id: string)
    requires Secured(lib, sys, log) && i < |sys.clients| && sys.clients[i].loggedIn && id != ""
    ensures var sender := sys.clients[i].username;
      var (sys', deleted) := DeleteForAll(sys, i, id);
      && sys'.clients == sys.clients && Secured(lib, sys', Filter(EntryMissed(sender, id), log))
      && (deleted <==> exists e :: e in log && e.m.messageId == id && e.m.sender == sender)
  {
    var sender, ms := sys.clients[i].username, Map(MessageOf(), log);
    DeleteSecures(lib, sys, log, sender, id);
    DeleteRefines(sys.server, ms, sender, id);
    if m :| m in ms && m.messageId == id && m.sender == sender {
      var k :| 0 <= k < |ms| && ms[k] == m;
      assert log[k].m == m && log[k] in log;
    }
    if e :| e in log && e.m.messageId == id && e.m.sender == sender {
      var k :| 0 <= k < |log| && log[k] == e;
      assert ms[k] in ms;
    }
  }

  // After every run, for every identifier: what a logged-in client reads after a deletion is what it read
  // before, without the messages of the deleting user that carry the identifier; and the deletion returns
  // true exactly when there is such a message.
  lemma ListsAfterDeletion(lib: Library, ops: seq<Op>, i: nat, id: string, j: nat, group: string, peer: string)
    requires Ideal(lib) && AllProper(lib, ops) && id != ""
    requires i < |Run(lib, ops).sys.clients| && Run(lib, ops).sys.clients[i].loggedIn
    requires j < |Run(lib, ops).sys.clients| && Run(lib, ops).sys.clients[j].loggedIn
    ensures var w := Run(lib, ops);
      var sender := w.sys.clients[i].username;
      var (sys', deleted) := DeleteForAll(w.sys, i, id);
      && sys'.clients == w.sys.clients
      && ReadsOf(lib, w.sys, j, w.log, group, peer)
      && ReadsOf(lib, sys', j, Filter(EntryMissed(sender, id), w.log), group, peer)
      && (forall e :: e in Filter(EntryMissed(sender, id), w.log) <==>
            e in w.log && !(e.m.messageId == id && e.m.sender == sender))
      && (deleted <==> exists e :: e in w.log && e.m.messageId == id && e.m.sender == sender)
  {
    SecuredInRuns(lib, ops);
    LeftInLog(Run(lib, ops).log, Run(lib, ops).sys.clients[i].username, id);
    ListsAfterDeletionNow(lib, Run(lib, ops).sys, Run(lib, ops).log, i, id, j, group, peer);
  }

  lemma ListsAfterDeletionNow(lib: Library, sys: System, log: seq<Entry>, i: nat, id: string, j: nat, group: string,
          peer: string)
    requires Secured(lib, sys, log) && id != ""
    requires i < |sys.clients| && sys.clients[i].loggedIn && j < |sys.clients| && sys.clients[j].loggedIn
    ensures var sender := sys.clients[i].username;
      var (sys', deleted) := DeleteForAll(sys, i, id);
      && sys'.clients == sys.clients
      && ReadsOf(lib, sys, j, log, group, peer)
      && ReadsOf(lib, sys', j, Filter(EntryMissed(sender, id), log), group, peer)
      && (deleted <==> exists e :: e in log && e.m.messageId == id && e.m.sender == sender)
  {
    DeletionNow(lib, sys, log, i, id);
    ReadsNow(lib, sys, log, j, group, peer);
    ReadsNow(lib, DeleteForAll(sys, i, id).0, Filter(EntryMissed(sys.clients[i].username, id), log), j, group, peer);
  }

  // What is left of a log, entry by entry.
  lemma LeftInLog(log: seq<Entry>, sender: string, id: string)
    ensures forall e :: e in Filter(EntryMissed(sender, id), log) <==>
              e in log && !(e.m.messageId == id && e.m.sender == sender)
    ensures (forall e | e in log :: !(e.m.messageId == id && e.m.sender == sender)) ==>
              Filter(EntryMissed(sender, id), log) == log
  {
    FilterMembers(EntryMissed(sender, id), log);
    if forall e | e in log :: !(e.m.messageId == id && e.m.sender == sender) {
      forall k | 0 <= k < |log|
        ensures EntryMissed(sender, id)(log[k])
      {
        assert log[k] in log;
      }
      FilterAll(EntryMissed(sender, id), log);
    }
  }

  // After every run: only a sender can delete.  Where no message with the identifier has the name of the
  // deleting client as its sender, the deletion returns false and nobody's list changes.
  lemma OthersCannotDelete(lib: Library, ops: seq<Op>, i: nat, id: string, j: nat, group: string, peer: string)
    requires Ideal(lib) && AllProper(lib, ops)
    requires i < |Run(lib, ops).sys.clients|
    requires j < |Run(lib, ops).sys.clients| && Run(lib, ops).sys.clients[j].loggedIn
    requires forall e | e in Run(lib, ops).log ::
               e.m.messageId == id ==> e.m.sender != Run(lib, ops).sys.clients[i].username
    ensures NothingDeleted(lib, Run(lib, ops).sys, i, id, j, group, peer)
  {
    SecuredInRuns(lib, ops);
    OthersCannotDeleteNow(lib, Run(lib, ops).sys, Run(lib, ops).log, i, id, j, group, peer);
  }

  ghost predicate NothingDeleted(lib: Library, sys: System, i: nat, id: string, j: nat, group: string, peer: string)
    requires i < |sys.clients| && j < |sys.clients|
  {
    var (sys', deleted) := DeleteForAll(sys, i, id);
    && !deleted && |sys'.clients| == |sys.clients|
    && ReadGroup(lib, sys', j, group) == ReadGroup(lib, sys, j, group)
    && ReadConversation(lib, sys', j, peer) == ReadConversation(lib, sys, j, peer)
  }

  lemma OthersCannotDeleteNow(lib: Library, sys: System, log: seq<Entry>, i: nat, id: string, j: nat, group: string,
          peer: string)
    requires Secured(lib, sys, log) && i < |sys.clients| && j < |sys.clients| && sys.clients[j].loggedIn
    requires forall e | e in log :: e.m.messageId == id ==> e.m.sender != sys.clients[i].username
    ensures NothingDeleted(lib, sys, i, id, j, group, peer)
  {
    if sys.clients[i].loggedIn && id != "" {
      ListsAfterDeletionNow(lib, sys, log, i, id, j, group, peer);
      LeftInLog(log, sys.clients[i].username, id);
    }
  }

  // ---------- deleting one message ----------

  // The identifier of entry k belongs to no other message.
  ghost predicate UniqueId(log: seq<Entry>, k: nat)
    requires k < |log|
  {
    forall j | 0 <= j < |log| && j != k :: log[j].m.messageId != log[k].m.messageId
  }

  function Without(log: seq<Entry>, k: nat): seq<Entry>
    requires k < |log|
  {
    log[..k] + log[k + 1..]
  }

  // Lists of different lengths have different views.
  lemma ViewsDiffer(log: seq<Entry>, k: nat, p: Entry -> bool)
    requires k < |log|
    ensures Map(ViewOf(), Filter(p, Without(log, k))) == Map(ViewOf(), Filter(p, log)) <==> !p(log[k])
  {
    FilterWithout(p, log, k);
  }

  // A message with an identifier of its own, deleted by its sender after any run: every logged-in client
  // reads the log without that one entry.  So a direct message disappears on both ends, and the copy of a
  // group message from its receiver and from no other member.
  lemma DeletionReachesOneMessage(lib: Library, ops: seq<Op>, i: nat, k: nat, j: nat, group: string, peer: string)
    requires Ideal(lib) && AllProper(lib, ops)
    requires i < |Run(lib, ops).sys.clients| && Run(lib, ops).sys.clients[i].loggedIn
    requires j < |Run(lib, ops).sys.clients| && Run(lib, ops).sys.clients[j].loggedIn
    requires k < |Run(lib, ops).log| && UniqueId(Run(lib, ops).log, k)
    requires Run(lib, ops).log[k].m.messageId != ""
    requires Run(lib, ops).log[k].m.sender == Run(lib, ops).sys.clients[i].username
    ensures OneMessageGone(lib, Run(lib, ops).sys, Run(lib, ops).log, i, k, j, group, peer)
  {
    SecuredInRuns(lib, ops);
    OneMessageGoneNow(lib, Run(lib, ops).sys, Run(lib, ops).log, i, k, j, group, peer);
  }

  ghost predicate OneMessageGone(lib: Library, sys: System, log: seq<Entry>, i: nat, k: nat, j: nat, group: string,
          peer: string)
    requires i < |sys.clients| && j < |sys.clients| && k < |log|
  {
    var m := log[k].m;
    var (sys', deleted) := DeleteForAll(sys, i, m.messageId);
    && deleted && sys'.clients == sys.clients && ReadsOf(lib, sys', j, Without(log, k), group, peer)
    && ListsDiffer(lib, sys, sys', j, m, group, peer)
  }

  // Client j sees the difference that message m makes.
  ghost predicate ListsDiffer(lib: Library, sys: System, sys': System, j: nat, m: Message, group: string, peer: string)
    requires j < |sys.clients| == |sys'.clients|
  {
    var u := sys.clients[j].username;
    && (ReadGroup(lib, sys', j, group) == ReadGroup(lib, sys, j, group) <==>
        !(m.isGroupMessage && m.chatId == group && m.receiver == u))
    && (ReadConversation(lib, sys', j, peer) == ReadConversation(lib, sys, j, peer) <==>
        !(!m.isGroupMessage && ((m.sender == u && m.receiver == peer) || (m.sender == peer && m.receiver == u))))
  }

  lemma OneEntryLess(lib: Library, sys: System, sys': System, log: seq<Entry>, k: nat, j: nat, group: string,
          peer: string)
    requires j < |sys.clients| && sys'.clients == sys.clients && k < |log|
    requires ReadsOf(lib, sys, j, log, group, peer) && ReadsOf(lib, sys', j, Without(log, k), group, peer)
    ensures ListsDiffer(lib, sys, sys', j, log[k].m, group, peer)
  {
    var u := sys.clients[j].username;
    ViewsDiffer(log, k, CopyFor(group, u));
    ViewsDiffer(log, k, EntryBetween(u, peer));
    BetweenMeans(u, peer, log[k]);
  }

  lemma OneMessageGoneNow(lib: Library, sys: System, log: seq<Entry>, i: nat, k: nat, j: nat, group: string,
          peer: string)
    requires Secured(lib, sys, log)
    requires i < |sys.clients| && sys.clients[i].loggedIn && j < |sys.clients| && sys.clients[j].loggedIn
    requires k < |log| && UniqueId(log, k) && log[k].m.messageId != "" && log[k].m.sender == sys.clients[i].username
    ensures OneMessageGone(lib, sys, log, i, k, j, group, peer)
  {
    var sender, id := sys.clients[i].username, log[k].m.messageId;
    ListsAfterDeletionNow(lib, sys, log, i, id, j, group, peer);
    assert log[k] in log;
    FilterAllBut(EntryMissed(sender, id), log, k);
    OneEntryLess(lib, sys, DeleteForAll(sys, i, id).0, log, k, j, group, peer);
  }

  // ---------- deleting a group message for all ----------

  // The copies that client i has just stored can be deleted one by one.
  ghost predicate Fresh(coins: GroupCoins, size: nat, k: nat) {
    && coins.copies(k).messageId != ""
    && forall n | 0 <= n < size && n != k :: coins.copies(n).messageId != coins.copies(k).messageId
  }

  // The group send of client i, and its deletion of the copy for member k.
  ghost predicate OnlyCopyGone(lib: Library, sys: System, i: nat, group: string, text: seq<byte>, coins: GroupCoins,
          k: nat)
    requires i < |sys.clients|
  {
    var all := Members(sys.server, group);
    var members := Listing(all);
    var (sys', copies) := GroupSend(lib, sys, i, group, members, text, coins);
    i < |sys'.clients| && |copies| == |members| > k &&
    var (after, deleted) := DeleteForAll(sys', i, copies[k].messageId);
    deleted
    && LeavesOthers(sys'.server, after.server, group, copies, k)
    && GoneIffAlone(after.server, group, copies, members, all, k)
  }

  ghost predicate LeavesOthers(before: Server, after: Server, group: string, copies: seq<Message>, k: nat) {
    && (forall n | 0 <= n < |copies| :: copies[n] in GroupConversation(before, group))
    && (forall n | 0 <= n < |copies| :: copies[n] in GroupConversation(after, group) <==> n != k)
  }

  ghost predicate GoneIffAlone(server: Server, group: string, copies: seq<Message>, members: seq<string>,
          all: set<string>, k: nat)
    requires k < |members|
  {
    (forall n | 0 <= n < |copies| :: copies[n] !in GroupConversation(server, group)) <==> all == {members[k]}
  }

  // The documented promise is that a deleted message is gone for all participants.  After any run, of an
  // accepted group message: deleting the copy for member k leaves the copies for all other members, so
  // the promise is kept if and only if that member is the whole group.
  lemma DeletedForAllIffAlone(lib: Library, ops: seq<Op>, i: nat, group: string, text: seq<byte>, coins: GroupCoins,
          k: nat)
    requires Ideal(lib) && AllProper(lib, ops) && |coins.sessionKey| == KEY_SIZE
    requires i < |Run(lib, ops).sys.clients| && Run(lib, ops).sys.clients[i].loggedIn
    requires k < |Listing(Members(Run(lib, ops).sys.server, group))|
    requires Fresh(coins, |Listing(Members(Run(lib, ops).sys.server, group))|, k)
    ensures OnlyCopyGone(lib, Run(lib, ops).sys, i, group, text, coins, k)
  {
    SecuredInRuns(lib, ops);
    OnlyCopyGoneNow(lib, Run(lib, ops).sys, Run(lib, ops).log, i, group, text, coins, k);
  }

  // Each copy is on the server, under the sender's name and with the identifier drawn for it.
  ghost predicate AllThere(server: Server, sender: string, group: string, copies: seq<Message>, coins: GroupCoins) {
    forall n | 0 <= n < |copies| ::
      && copies[n] in GroupConversation(server, group)
      && copies[n].sender == sender && copies[n].messageId == coins.copies(n).messageId
  }

  lemma CopiesAreThere(lib: Library, sys: System, log: seq<Entry>, i: nat, group: string, text: seq<byte>,
          coins: GroupCoins)
    requires Ideal(lib) && Secured(lib, sys, log) && |coins.sessionKey| == KEY_SIZE
    requires i < |sys.clients| && sys.clients[i].loggedIn && Members(sys.server, group) != {}
    ensures var members := Listing(Members(sys.server, group));
      var (sys', copies) := GroupSend(lib, sys, i, group, members, text, coins);
      && |copies| == |members| && SameButEvents(sys, sys')
      && AllThere(sys'.server, sys.clients[i].username, group, copies, coins)
  {
    GroupSendStoresNow(lib, sys, log, i, group, text, coins);
    GroupSendFrame(lib, sys, i, group, Listing(Members(sys.server, group)), text, coins);
    StoredAreThere(lib, sys, i, group, text, coins);
  }

  lemma StoredAreThere(lib: Library, sys: System, i: nat, group: string, text: seq<byte>, coins: GroupCoins)
    requires i < |sys.clients| && sys.clients[i].loggedIn && Members(sys.server, group) != {}
    requires StoresOneCopyEach(lib, sys, i, group, text, coins)
    ensures var members := Listing(Members(sys.server, group));
      var (sys', copies) := GroupSend(lib, sys, i, group, members, text, coins);
      |copies| == |members| && AllThere(sys'.server, sys.clients[i].username, group, copies, coins)
  {
    var members, sender := Listing(Members(sys.server, group)), sys.clients[i].username;
    var (sys', copies) := GroupSend(lib, sys, i, group, members, text, coins);
    forall n | 0 <= n < |copies|
      ensures copies[n] in GroupConversation(sys'.server, group) && copies[n].sender == sender
    {
      assert copies[n] in copies;
      assert IsCopyFor(copies[n], sender, group, members[n]);
    }
  }

  lemma OnlyCopyGoneNow(lib: Library, sys: System, log: seq<Entry>, i: nat, group: string, text: seq<byte>,
          coins: GroupCoins, k: nat)
    requires Ideal(lib) && Secured(lib, sys, log) && |coins.sessionKey| == KEY_SIZE
    requires i < |sys.clients| && sys.clients[i].loggedIn
    requires var size := |Listing(Members(sys.server, group))|; k < size && Fresh(coins, size, k)
    ensures OnlyCopyGone(lib, sys, i, group, text, coins, k)
  {
    var members := Listing(Members(sys.server, group));
    assert members[k] in members;
    CopiesAreThere(lib, sys, log, i, group, text, coins);
    var (sys', copies) := GroupSend(lib, sys, i, group, members, text, coins);
    assert SameClient(sys.clients[i], sys'.clients[i]);
    LeftOnServer(sys'.server, group, sys.clients[i].username, copies, k);
    AloneIff(DeleteForAll(sys', i, copies[k].messageId).0.server, group, copies,
             members, Members(sys.server, group), k);
  }

  lemma LeftOnServer(server: Server, group: string, sender: string, copies: seq<Message>, k: nat)
    requires k < |copies|
    requires forall n | 0 <= n < |copies| :: copies[n] in GroupConversation(server, group) && copies[n].sender == sender
    requires forall n | 0 <= n < |copies| && n != k :: copies[n].messageId != copies[k].messageId
    ensures Delete(server, sender, copies[k].messageId).1
    ensures LeavesOthers(server, Delete(server, sender, copies[k].messageId).0, group, copies, k)
  {
    var missed := Missed(sender, copies[k].messageId);
    assert copies[k] in GroupConversation(server, group);
    FilterMembers(missed, server.groupHistory[group]);
    assert !missed(copies[k]);
    assert Shrinks(server.groupHistory, sender, copies[k].messageId);
  }

  lemma AloneIff(server: Server, group: string, copies: seq<Message>, members: seq<string>, all: set<string>, k: nat)
    requires IsListing(members, all) && k < |members| == |copies|
    requires forall n | 0 <= n < |copies| :: copies[n] in GroupConversation(server, group) <==> n != k
    ensures GoneIffAlone(server, group, copies, members, all, k)
  {
    assert members[k] in members;
    if |members| == 1 {
      forall x | x in all
        ensures x == members[k]
      {
        assert x in members;
      }
    } else {
      var n := if k == 0 then 1 else 0;
      assert members[n] in members && members[n] != members[k];
      assert copies[n] in GroupConversation(server, group);
    }
  }

  // ---------- an instance ----------

  lemma RunOneMore(lib: Library, ops: seq<Op>, op: Op)
    ensures Run(lib, ops + [op]) == Step(lib, Run(lib, ops), op)
  {
    assert (ops + [op])[..|ops|] == ops;
  }

  const GROUP: string := "group-1-g"

  // Alice and bob register.
  function Registration(alice: KeyPair, bob: KeyPair): seq<Op> {
    [NewClient("alice")] + [NewClient("bob")] + [RegisterOp(0, "a", alice)] + [RegisterOp(1, "b", bob)]
  }

  // They log in, and alice makes a group of both.
  function Meeting(alice: KeyPair, bob: KeyPair): seq<Op> {
    Registration(alice, bob) + [LoginOp(0, "a")] + [LoginOp(1, "b")] + [CreateGroupOp(0, "g", ["bob"])]
  }

  function Registered(alice: KeyPair, bob: KeyPair): World {
    World(System(EMPTY.(users := map["alice" := UserRecord("a", alice.publicKeyPem),
                                   "bob" := UserRecord("b", bob.publicKeyPem)]),
                 map[], map["alice" := alice, "bob" := bob],
                 [Client("alice", alice, true, false, Link(false, ""), []),
                  Client("bob", bob, true, false, Link(false, ""), [])]),
          [], [])
  }

  lemma RegistrationHappens(lib: Library, alice: KeyPair, bob: KeyPair)
    ensures Run(lib, Registration(alice, bob)) == Registered(alice, bob)
  {
    var o1: seq<Op> := [NewClient("alice")];
    var o2 := o1 + [NewClient("bob")];
    var o3 := o2 + [RegisterOp(0, "a", alice)];
    RunOneMore(lib, [], NewClient("alice"));
    assert [] + [NewClient("alice")] == o1;
    RunOneMore(lib, o1, NewClient("bob"));
    RunOneMore(lib, o2, RegisterOp(0, "a", alice));
    RunOneMore(lib, o3, RegisterOp(1, "b", bob));
  }

  // Users a and b are logged in, as clients 0 and 1, and a group has them as its members.
  ghost predicate Met(w: World, a: string, b: string, group: string) {
    && |w.sys.clients| == 2 && LoggedInAs(w.sys, 0, a) && LoggedInAs(w.sys, 1, b)
    && w.log == [] && Members(w.sys.server, group) == {a, b}
  }

  function LoggedIn(alice: KeyPair, bob: KeyPair): World {
    var w := Registered(alice, bob);
    w.(sys := w.sys.(handlers := map["alice" := 0, "bob" := 1],
                     clients := [Client("alice", alice, true, true, Link(true, "alice"), []),
                                 Client("bob", bob, true, true, Link(true, "bob"), [])]))
  }

  lemma LoginHappens(lib: Library, alice: KeyPair, bob: KeyPair)
    ensures Step(lib, Step(lib, Registered(alice, bob), LoginOp(0, "a")), LoginOp(1, "b")) == LoggedIn(alice, bob)
  {
  }

  lemma GroupHappens(lib: Library, alice: KeyPair, bob: KeyPair)
    ensures Met(Step(lib, LoggedIn(alice, bob), CreateGroupOp(0, "g", ["bob"])), "alice", "bob", GROUP)
  {
    assert Numeral(1) == "1";
    assert GroupId(1, "g") == GROUP;
  }

  lemma MeetingHappens(lib: Library, alice: KeyPair, bob: KeyPair)
    ensures Met(Run(lib, Meeting(alice, bob)), "alice", "bob", GROUP)
  {
    var o4 := Registration(alice, bob);
    var o5 := o4 + [LoginOp(0, "a")];
    RegistrationHappens(lib, alice, bob);
    RunOneMore(lib, o4, LoginOp(0, "a"));
    RunOneMore(lib, o5, LoginOp(1, "b"));
    RunOneMore(lib, o5 + [LoginOp(1, "b")], CreateGroupOp(0, "g", ["bob"]));
    LoginHappens(lib, alice, bob);
    GroupHappens(lib, alice, bob);
  }

  lemma Pair()
    ensures Listing({"alice", "bob"}) == ["alice", "bob"]
  {
    assert LexLe("alice", "bob");
    ListingIsUnique(Listing({"alice", "bob"}), ["alice", "bob"], {"alice", "bob"});
  }

  // The two copies of the message that a sent to the group are all there is.
  ghost predicate Sent(sys: System, log: seq<Entry>, a: string, b: string, group: string, text: seq<byte>,
          coins: GroupCoins) {
    |sys.clients| == 2 && LoggedInAs(sys, 0, a) && LoggedInAs(sys, 1, b) && IsSent(log, a, b, group, text, coins)
  }

  ghost predicate IsSent(log: seq<Entry>, a: string, b: string, group: string, text: seq<byte>, coins: GroupCoins) {
    && |log| == 2 && log[0].text == log[1].text == text
    && IsCopyFor(log[0].m, a, group, a) && log[0].m.messageId == coins.copies(0).messageId
    && IsCopyFor(log[1].m, a, group, b) && log[1].m.messageId == coins.copies(1).messageId
  }

  lemma SentCopies(copies: seq<Message>, a: string, b: string, group: string, text: seq<byte>, coins: GroupCoins)
    requires OneCopyEach(copies, a, group, [a, b])
    requires forall n | 0 <= n < |copies| :: copies[n].messageId == coins.copies(n).messageId
    ensures IsSent(Map(WithText(text), copies), a, b, group, text, coins)
  {
    assert IsCopyFor(copies[0], a, group, [a, b][0]) && IsCopyFor(copies[1], a, group, [a, b][1]);
    assert copies[0].messageId == coins.copies(0).messageId && copies[1].messageId == coins.copies(1).messageId;
  }

  lemma FirstSends(lib: Library, w: World, a: string, b: string, group: string, text: seq<byte>, coins: GroupCoins)
    requires Ideal(lib) && Met(w, a, b, group) && Secured(lib, w.sys, w.log) && |coins.sessionKey| == KEY_SIZE
    requires Listing({a, b}) == [a, b]
    ensures var (sys', copies) := GroupSend(lib, w.sys, 0, group, [a, b], text, coins);
      Sent(sys', Map(WithText(text), copies), a, b, group, text, coins)
      && Secured(lib, sys', Map(WithText(text), copies))
  {
    var (sys', copies) := GroupSend(lib, w.sys, 0, group, [a, b], text, coins);
    GroupSendSecures(lib, w.sys, w.log, 0, group, text, coins);
    GroupSendStoresNow(lib, w.sys, w.log, 0, group, text, coins);
    CopiesAreThere(lib, w.sys, w.log, 0, group, text, coins);
    assert SameClient(w.sys.clients[0], sys'.clients[0]) && SameClient(w.sys.clients[1], sys'.clients[1]);
    SentCopies(copies, a, b, group, text, coins);
    assert w.log + Map(WithText(text), copies) == Map(WithText(text), copies);
  }

  // Both are still logged in; a reads nothing, b reads the message.
  ghost predicate OnlySecondReads(lib: Library, sys: System, a: string, b: string, group: string, text: seq<byte>) {
    && LoggedInAs(sys, 0, a) && LoggedInAs(sys, 1, b) && ReadGroup(lib, sys, 0, group) == Some([])
    && var views := ReadGroup(lib, sys, 1, group);
       views.Some? && |views.value| == 1 && views.value[0].fromUser == a && views.value[0].text == text
  }

  lemma FirstDeletes(lib: Library, sys: System, log: seq<Entry>, a: string, b: string, group: string, text: seq<byte>,
          coins: GroupCoins)
    requires Sent(sys, log, a, b, group, text, coins) && Secured(lib, sys, log) && Fresh(coins, 2, 0) && a != b
    ensures OnlySecondReads(lib, DeleteForAll(sys, 0, coins.copies(0).messageId).0, a, b, group, text)
  {
    var id := coins.copies(0).messageId;
    SecondIsLeft(log, a, b, group, text, coins);
    ListsAfterDeletionNow(lib, sys, log, 0, id, 0, group, "");
    ListsAfterDeletionNow(lib, sys, log, 0, id, 1, group, "");
  }

  lemma SecondIsLeft(log: seq<Entry>, a: string, b: string, group: string, text: seq<byte>, coins: GroupCoins)
    requires IsSent(log, a, b, group, text, coins) && Fresh(coins, 2, 0) && a != b
    ensures var rest := Filter(EntryMissed(a, coins.copies(0).messageId), log);
      Filter(CopyFor(group, a), rest) == [] && Filter(CopyFor(group, b), rest) == [log[1]]
  {
    FilterAllBut(EntryMissed(a, coins.copies(0).messageId), log, 0);
    assert log[..0] + log[1..] == [log[1]];
    FilterNone(CopyFor(group, a), [log[1]]);
    FilterAll(CopyFor(group, b), [log[1]]);
  }

  lemma FirstSendStep(lib: Library, w: World, a: string, b: string, group: string, text: seq<byte>, coins: GroupCoins)
    requires Ideal(lib) && Met(w, a, b, group) && Secured(lib, w.sys, w.log) && |coins.sessionKey| == KEY_SIZE
    requires Listing({a, b}) == [a, b]
    ensures var w' := Step(lib, w, GroupSendOp(0, group, text, coins));
      Sent(w'.sys, w'.log, a, b, group, text, coins) && Secured(lib, w'.sys, w'.log)
  {
    FirstSends(lib, w, a, b, group, text, coins);
    NothingBefore(GroupSend(lib, w.sys, 0, group, [a, b], text, coins).1, text);
  }

  lemma NothingBefore(copies: seq<Message>, text: seq<byte>)
    ensures [] + Map(WithText(text), copies) == Map(WithText(text), copies)
  {
  }

  lemma FirstDeleteStep(lib: Library, w: World, a: string, b: string, group: string, text: seq<byte>, coins: GroupCoins)
    requires Sent(w.sys, w.log, a, b, group, text, coins) && Secured(lib, w.sys, w.log) && Fresh(coins, 2, 0) && a != b
    ensures OnlySecondReads(lib, Step(lib, w, DeleteOp(0, coins.copies(0).messageId)).sys, a, b, group, text)
  {
    FirstDeletes(lib, w.sys, w.log, a, b, group, text, coins);
    assert Step(lib, w, DeleteOp(0, coins.copies(0).messageId)).sys
           == DeleteForAll(w.sys, 0, coins.copies(0).messageId).0;
  }

  lemma BothSteps(lib: Library, ops: seq<Op>, a: string, b: string, group: string, text: seq<byte>, coins: GroupCoins)
    requires Ideal(lib) && AllProper(lib, ops) && Met(Run(lib, ops), a, b, group) && |coins.sessionKey| == KEY_SIZE
    requires Listing({a, b}) == [a, b] && Fresh(coins, 2, 0) && a != b
    ensures var ops' := ops + [GroupSendOp(0, group, text, coins)] + [DeleteOp(0, coins.copies(0).messageId)];
      OnlySecondReads(lib, Run(lib, ops').sys, a, b, group, text)
  {
    var send, delete := GroupSendOp(0, group, text, coins), DeleteOp(0, coins.copies(0).messageId);
    SecuredInRuns(lib, ops);
    RunOneMore(lib, ops, send);
    RunOneMore(lib, ops + [send], delete);
    FirstSendStep(lib, Run(lib, ops), a, b, group, text, coins);
    FirstDeleteStep(lib, Run(lib, ops + [send]), a, b, group, text, coins);
  }

  // Alice sends a message to the group and deletes it for all.  Bob still reads it.
  lemma OtherCopiesStay(lib: Library, alice: KeyPair, bob: KeyPair, text: seq<byte>, coins: GroupCoins)
    requires Ideal(lib) && lib.isPair(alice) && lib.isPair(bob) && |coins.sessionKey| == KEY_SIZE && Fresh(coins, 2, 0)
    ensures var ops := Meeting(alice, bob) + [GroupSendOp(0, GROUP, text, coins)]
                       + [DeleteOp(0, coins.copies(0).messageId)];
      OnlySecondReads(lib, Run(lib, ops).sys, "alice", "bob", GROUP, text)
  {
    MeetingHappens(lib, alice, bob);
    MeetingIsProper(lib, alice, bob);
    Pair();
    BothSteps(lib, Meeting(alice, bob), "alice", "bob", GROUP, text, coins);
  }

  lemma MeetingIsProper(lib: Library, alice: KeyPair, bob: KeyPair)
    requires lib.isPair(alice) && lib.isPair(bob)
    ensures AllProper(lib, Meeting(alice, bob))
  {
  }
}
