/**
  What users read, for every run from the empty system.

  All of it assumes an ideal cryptographic library and a proper run (user names without ':', session
  keys of 32 bytes).  Nothing limits the number of clients, of clients under one name, or of steps.
 */
module MessengerTheorems {
  import opened Common
  import opened Crypto
  import opened ChatState
  import opened MessageProtocol
  import opened MessengerModel
  import opened MessengerLinks
  import opened MessengerAccounts
  import opened MessengerReads

  // ---------- reading ----------

  function ViewOf(): Entry -> MessageView {
    (e: Entry) => View(e.m, e.text)
  }

  // What a list shows of a stored message: its text in the clear, and its other fields as they are.
  ghost predicate Shows(v: MessageView, e: Entry) {
    && v.text == e.text
    && v.messageId == e.m.messageId && v.fromUser == e.m.sender && v.toUser == e.m.receiver && v.chatId == e.m.chatId
    && v.timestamp == e.m.timestamp && v.status == e.m.status
    && v.isGroupMessage == e.m.isGroupMessage && v.deletedForAll == e.m.deletedForAll
  }

  ghost predicate ShowsAll(views: Option<seq<MessageView>>, entries: seq<Entry>) {
    && views.Some? && |views.value| == |entries|
    && forall k | 0 <= k < |entries| :: Shows(views.value[k], entries[k])
  }

  lemma ViewsShow(entries: seq<Entry>)
    ensures ShowsAll(Some(Map(ViewOf(), entries)), entries)
  {
  }

  function EntryBetween(a: string, b: string): Entry -> bool {
    (e: Entry) => Between(a, b)(e.m)
  }

  // The copies of group messages that a member can see.
  function CopyFor(group: string, u: string): Entry -> bool {
    (e: Entry) => e.m.isGroupMessage && e.m.chatId == group && e.m.receiver == u
  }

  ghost predicate Reads(lib: Library, c: Client, e: Entry) {
    Reveal(lib, c.keys, c.username, e.m) == Some(e.text)
  }

  lemma {:induction false} RevealEntries(lib: Library, c: Client, entries: seq<Entry>)
    requires forall e | e in entries :: Reads(lib, c, e)
    ensures RevealAll(lib, c, Map(MessageOf(), entries)) == Some(Map(ViewOf(), entries))
  {
    if entries != [] {
      var n := |entries| - 1;
      var ms := Map(MessageOf(), entries);
      RevealEntries(lib, c, entries[..n]);
      assert ms[..n] == Map(MessageOf(), entries[..n]);
      assert entries[n] in entries;
      assert Map(ViewOf(), entries) == Map(ViewOf(), entries[..n]) + [ViewOf()(entries[n])];
    }
  }

  // A logged-in client can read what the registered keys of its user can read.
  lemma ClientReads(lib: Library, sys: System, log: seq<Entry>, i: nat, e: Entry)
    requires Secured(lib, sys, log) && i < |sys.clients| && sys.clients[i].loggedIn
    requires e in log && (e.m.receiver == sys.clients[i].username
                          || (!e.m.isGroupMessage && e.m.sender == sys.clients[i].username))
    ensures Reads(lib, sys.clients[i], e)
  {
    assert HoldsKey(sys, i);
    assert Readable(lib, sys, e);
  }

  lemma ReadsConversation(lib: Library, sys: System, log: seq<Entry>, i: nat, peer: string)
    requires Secured(lib, sys, log) && i < |sys.clients| && sys.clients[i].loggedIn
    ensures ReadConversation(lib, sys, i, peer)
            == Some(Map(ViewOf(), Filter(EntryBetween(sys.clients[i].username, peer), log)))
  {
    var c := sys.clients[i];
    var entries := Filter(EntryBetween(c.username, peer), log);
    FilterMembers(EntryBetween(c.username, peer), log);
    forall e | e in entries
      ensures Reads(lib, c, e)
    {
      ClientReads(lib, sys, log, i, e);
    }
    RevealEntries(lib, c, entries);
    FilterOfMap(Between(c.username, peer), MessageOf(), EntryBetween(c.username, peer), log);
  }

  // In every run, two logged-in users read the same list from opposite ends, and it shows the log between
  // them: every direct message from one to the other, in order, with the text that its sender passed in.
  lemma ConversationsAgree(lib: Library, ops: seq<Op>, i: nat, j: nat)
    requires Ideal(lib) && AllProper(lib, ops)
    requires i < |Run(lib, ops).sys.clients| && Run(lib, ops).sys.clients[i].loggedIn
    requires j < |Run(lib, ops).sys.clients| && Run(lib, ops).sys.clients[j].loggedIn
    ensures Agree(lib, Run(lib, ops).sys, Run(lib, ops).log, i, j)
  {
    SecuredInRuns(lib, ops);
    ConversationsAgreeNow(lib, Run(lib, ops).sys, Run(lib, ops).log, i, j);
  }

  ghost predicate Agree(lib: Library, sys: System, log: seq<Entry>, i: nat, j: nat)
    requires i < |sys.clients| && j < |sys.clients|
  {
    var a, b := sys.clients[i].username, sys.clients[j].username;
    && ReadConversation(lib, sys, i, b) == ReadConversation(lib, sys, j, a)
    && ShowsConversation(ReadConversation(lib, sys, i, b), log, a, b)
  }

  // A list shows the direct messages between a and b, in the order of the log.
  ghost predicate ShowsConversation(views: Option<seq<MessageView>>, log: seq<Entry>, a: string, b: string) {
    var entries := Filter(EntryBetween(a, b), log);
    && ShowsAll(views, entries)
    && forall e :: e in entries <==>
         && e in log && !e.m.isGroupMessage
         && ((e.m.sender == a && e.m.receiver == b) || (e.m.sender == b && e.m.receiver == a))
  }

  lemma ConversationShows(lib: Library, sys: System, log: seq<Entry>, i: nat, peer: string)
    requires Secured(lib, sys, log) && i < |sys.clients| && sys.clients[i].loggedIn
    ensures ShowsConversation(ReadConversation(lib, sys, i, peer), log, sys.clients[i].username, peer)
  {
    ReadsConversation(lib, sys, log, i, peer);
    EntriesBetween(log, sys.clients[i].username, peer);
    ViewsShow(Filter(EntryBetween(sys.clients[i].username, peer), log));
  }

  lemma ConversationsAgreeNow(lib: Library, sys: System, log: seq<Entry>, i: nat, j: nat)
    requires Secured(lib, sys, log)
    requires i < |sys.clients| && sys.clients[i].loggedIn && j < |sys.clients| && sys.clients[j].loggedIn
    ensures Agree(lib, sys, log, i, j)
  {
    var a, b := sys.clients[i].username, sys.clients[j].username;
    ReadsConversation(lib, sys, log, i, b);
    ReadsConversation(lib, sys, log, j, a);
    SameFromBothEnds(log, a, b);
    ConversationShows(lib, sys, log, i, b);
  }

  lemma SameFromBothEnds(log: seq<Entry>, a: string, b: string)
    ensures Filter(EntryBetween(b, a), log) == Filter(EntryBetween(a, b), log)
  {
    forall e: Entry
      ensures EntryBetween(b, a)(e) == EntryBetween(a, b)(e)
    {
      BetweenMeans(a, b, e);
      BetweenMeans(b, a, e);
    }
    FilterTwice(EntryBetween(a, b), (e: Entry) => true, EntryBetween(b, a), log);
    FilterAll((e: Entry) => true, log);
  }

  lemma BetweenMeans(a: string, b: string, e: Entry)
    ensures EntryBetween(a, b)(e) <==>
              && !e.m.isGroupMessage
              && ((e.m.sender == a && e.m.receiver == b) || (e.m.sender == b && e.m.receiver == a))
  {
    assert Between(a, b)(e.m) == (!e.m.isGroupMessage && SamePair(a, b, e.m.sender, e.m.receiver));
    PairEitherWay(a, b, e.m.sender, e.m.receiver);
  }

  lemma PairEitherWay(a: string, b: string, c: string, d: string)
    ensures SamePair(a, b, c, d) <==> (c == a && d == b) || (c == b && d == a)
  {
    assert (a == c) == (c == a) && (b == d) == (d == b);
    assert (a == d) == (d == a) && (b == c) == (c == b);
  }

  lemma EntriesBetween(log: seq<Entry>, a: string, b: string)
    ensures forall e :: e in Filter(EntryBetween(a, b), log) <==>
              && e in log && !e.m.isGroupMessage
              && ((e.m.sender == a && e.m.receiver == b) || (e.m.sender == b && e.m.receiver == a))
  {
    FilterMembers(EntryBetween(a, b), log);
    forall e: Entry
      ensures EntryBetween(a, b)(e) <==>
                && !e.m.isGroupMessage
                && ((e.m.sender == a && e.m.receiver == b) || (e.m.sender == b && e.m.receiver == a))
    {
      BetweenMeans(a, b, e);
    }
  }

  // After every run, sendMessage is accepted exactly from a client that is logged in and to a name that
  // has an account.  Then the log grows by one direct message, with the sender's name and the receiver,
  // text, identifier and time that were passed in; otherwise nothing is stored.
  lemma DirectSendIsLogged(lib: Library, ops: seq<Op>, i: nat, to: string, text: seq<byte>, coins: Coins)
    requires Ideal(lib) && AllProper(lib, ops) && i < |Names(ops)|
    ensures |Run(lib, ops).sys.clients| == |Names(ops)|
    ensures var w := Run(lib, ops);
      var log' := Step(lib, w, SendOp(i, to, text, coins)).log;
      if w.sys.clients[i].loggedIn && AccountOf(ops, to).Some? then
        |log'| == |w.log| + 1 && log'[..|w.log|] == w.log && IsDirect(log'[|w.log|], Names(ops)[i], to, text, coins)
      else log' == w.log
    ensures Send(lib, Run(lib, ops).sys, i, to, text, coins).1.Some? <==>
              Run(lib, ops).sys.clients[i].loggedIn && AccountOf(ops, to).Some?
  {
    SecuredInRuns(lib, ops);
    AccountsInRuns(lib, ops);
    var sys := Run(lib, ops).sys;
    assert NamedAt(sys, Names(ops), i) && AccountAt(sys, AccountOf(ops, to), to);
    HasKey(lib, sys, to);
    DirectSendAppends(lib, Run(lib, ops), i, to, text, coins);
  }

  ghost predicate IsDirect(e: Entry, sender: string, to: string, text: seq<byte>, coins: Coins) {
    && e.text == text && e.m.sender == sender && e.m.receiver == to && e.m.chatId == ""
    && e.m.messageId == coins.messageId && e.m.timestamp == coins.timestamp
    && !e.m.isGroupMessage && !e.m.deletedForAll
  }

  lemma DirectSendAppends(lib: Library, w: World, i: nat, to: string, text: seq<byte>, coins: Coins)
    requires i < |w.sys.clients|
    ensures var log' := Step(lib, w, SendOp(i, to, text, coins)).log;
      var accepted := w.sys.clients[i].loggedIn && PublicKey(w.sys.server, to) != "";
      && (Send(lib, w.sys, i, to, text, coins).1.Some? <==> accepted)
      && if accepted then
           && |log'| == |w.log| + 1 && log'[..|w.log|] == w.log
           && IsDirect(log'[|w.log|], w.sys.clients[i].username, to, text, coins)
         else log' == w.log
  {
  }

  // ---------- groups ----------

  lemma ReadsGroup(lib: Library, sys: System, log: seq<Entry>, i: nat, group: string)
    requires Secured(lib, sys, log) && i < |sys.clients| && sys.clients[i].loggedIn
    ensures ReadGroup(lib, sys, i, group) == Some(Map(ViewOf(), Filter(CopyFor(group, sys.clients[i].username), log)))
  {
    var c := sys.clients[i];
    var entries := Filter(CopyFor(group, c.username), log);
    FilterMembers(CopyFor(group, c.username), log);
    forall e | e in entries
      ensures Reads(lib, c, e)
    {
      ClientReads(lib, sys, log, i, e);
    }
    RevealEntries(lib, c, entries);
    CopiesOnServer(sys.server, log, group, c.username);
  }

  lemma CopiesOnServer(server: Server, log: seq<Entry>, group: string, u: string)
    requires Refines(server, Map(MessageOf(), log))
    ensures Filter(Addressed(u), GroupConversation(server, group)) == Map(MessageOf(), Filter(CopyFor(group, u), log))
  {
    var both := (m: Message) => Addressed(u)(m) && OfGroup(group)(m);
    FilterTwice(Addressed(u), OfGroup(group), both, Map(MessageOf(), log));
    FilterOfMap(both, MessageOf(), CopyFor(group, u), log);
  }

  // After every run, deletions included: the list of a group shows a logged-in client exactly the copies
  // on record that are addressed to it, in order.
  lemma GroupListShows(lib: Library, ops: seq<Op>, i: nat, group: string)
    requires Ideal(lib) && AllProper(lib, ops)
    requires i < |Run(lib, ops).sys.clients| && Run(lib, ops).sys.clients[i].loggedIn
    ensures ShowsGroup(ReadGroup(lib, Run(lib, ops).sys, i, group), Run(lib, ops).log, group,
                       Run(lib, ops).sys.clients[i].username)
  {
    SecuredInRuns(lib, ops);
    GroupShows(lib, Run(lib, ops).sys, Run(lib, ops).log, i, group);
  }

  // A list shows the copies for member u, in the order of the log.
  ghost predicate ShowsGroup(views: Option<seq<MessageView>>, log: seq<Entry>, group: string, u: string) {
    var entries := Filter(CopyFor(group, u), log);
    && ShowsAll(views, entries)
    && forall e :: e in entries <==> e in log && e.m.isGroupMessage && e.m.chatId == group && e.m.receiver == u
  }

  lemma GroupShows(lib: Library, sys: System, log: seq<Entry>, i: nat, group: string)
    requires Secured(lib, sys, log) && i < |sys.clients| && sys.clients[i].loggedIn
    ensures ShowsGroup(ReadGroup(lib, sys, i, group), log, group, sys.clients[i].username)
  {
    var p := CopyFor(group, sys.clients[i].username);
    ReadsGroup(lib, sys, log, i, group);
    FilterMembers(p, log);
    ViewsShow(Filter(p, log));
  }

  function OfAccepted(group: string): Accepted -> bool {
    (a: Accepted) => a.group == group
  }

  function AsAccepted(): Entry -> Accepted {
    (e: Entry) => Accepted(e.m.chatId, e.m.sender, e.text)
  }

  function SentView(): MessageView -> Accepted {
    (v: MessageView) => Accepted(v.chatId, v.fromUser, v.text)
  }

  // Each member has one copy of every accepted message of its group, in order.
  ghost predicate CompleteFor(w: World, group: string, u: string) {
    Map(AsAccepted(), Filter(CopyFor(group, u), w.log)) == Filter(OfAccepted(group), w.sends)
  }

  ghost predicate Complete(w: World) {
    && (forall group, u | u in Members(w.sys.server, group) :: CompleteFor(w, group, u))
    && (forall a | a in w.sends :: a.group in w.sys.server.groups)
    && (forall e | e in w.log && e.m.isGroupMessage :: e.m.receiver in Members(w.sys.server, e.m.chatId))
  }

  lemma OneOfTheCopies(copies: seq<Message>, sender: string, group: string, members: set<string>, text: seq<byte>,
          g: string, u: string)
    requires OneCopyEach(copies, sender, group, Listing(members)) && (g == group ==> u in members)
    ensures Map(AsAccepted(), Filter(CopyFor(g, u), Map(WithText(text), copies)))
            == if g == group then [Accepted(group, sender, text)] else []
  {
    var list, entries := Listing(members), Map(WithText(text), copies);
    assert forall k | 0 <= k < |list| :: IsCopyFor(copies[k], sender, group, list[k]);
    if g == group {
      assert u in list;
      var k :| 0 <= k < |list| && list[k] == u;
      FilterOne(CopyFor(g, u), entries, k);
    } else {
      FilterNone(CopyFor(g, u), entries);
    }
  }

  lemma AddedComplete(w: World, w': World, added: seq<Entry>, accepted: seq<Accepted>, group: string, u: string)
    requires CompleteFor(w, group, u)
    requires w'.log == w.log + added && w'.sends == w.sends + accepted
    requires Map(AsAccepted(), Filter(CopyFor(group, u), added)) == Filter(OfAccepted(group), accepted)
    ensures CompleteFor(w', group, u)
  {
    FilterConcat(CopyFor(group, u), w.log, added);
    FilterConcat(OfAccepted(group), w.sends, accepted);
    MapConcat(AsAccepted(), Filter(CopyFor(group, u), w.log), Filter(CopyFor(group, u), added));
  }

  lemma GroupSendCompletes(lib: Library, w: World, i: nat, group: string, text: seq<byte>, coins: GroupCoins)
    requires Ideal(lib) && Secured(lib, w.sys, w.log) && i < |w.sys.clients| && |coins.sessionKey| == KEY_SIZE
    requires Complete(w)
    ensures Complete(Step(lib, w, GroupSendOp(i, group, text, coins)))
  {
    var w' := Step(lib, w, GroupSendOp(i, group, text, coins));
    var members, sender := Members(w.sys.server, group), w.sys.clients[i].username;
    var copies := GroupSend(lib, w.sys, i, group, Listing(members), text, coins).1;
    GroupSendSecures(lib, w.sys, w.log, i, group, text, coins);
    GroupSendFrame(lib, w.sys, i, group, Listing(members), text, coins);
    if copies == [] {
      assert Map(WithText(text), []) == [];
      assert w'.log == w.log && w'.sends == w.sends;
      forall g, u | u in Members(w'.sys.server, g)
        ensures CompleteFor(w', g, u)
      {
        assert CompleteFor(w, g, u);
      }
    } else {
      CopiesAreOneEach(lib, w.sys, i, group, lib.seal(text, coins.sessionKey, coins.sealing), coins, Listing(members));
      CopiesComplete(w, w', copies, sender, group, text);
    }
  }

  lemma CopiesComplete(w: World, w': World, copies: seq<Message>, sender: string, group: string, text: seq<byte>)
    requires Complete(w) && Members(w.sys.server, group) != {}
    requires OneCopyEach(copies, sender, group, Listing(Members(w.sys.server, group)))
    requires w'.sys.server.groups == w.sys.server.groups
    requires w'.log == w.log + Map(WithText(text), copies) && w'.sends == w.sends + [Accepted(group, sender, text)]
    ensures Complete(w')
  {
    var members := Members(w.sys.server, group);
    forall g, u | u in Members(w'.sys.server, g)
      ensures CompleteFor(w', g, u)
    {
      assert CompleteFor(w, g, u);
      CopiesCompleteFor(w, w', copies, sender, group, members, text, g, u);
    }
    forall e | e in w'.log && e.m.isGroupMessage
      ensures e.m.receiver in Members(w'.sys.server, e.m.chatId)
    {
      if e !in w.log {
        CopiesGoToMembers(copies, sender, group, members, text, e);
      }
    }
  }

  lemma CopiesCompleteFor(w: World, w': World, copies: seq<Message>, sender: string, group: string,
          members: set<string>, text: seq<byte>, g: string, u: string)
    requires CompleteFor(w, g, u) && OneCopyEach(copies, sender, group, Listing(members))
      && (g == group ==> u in members)
    requires w'.log == w.log + Map(WithText(text), copies) && w'.sends == w.sends + [Accepted(group, sender, text)]
    ensures CompleteFor(w', g, u)
  {
    OneOfTheCopies(copies, sender, group, members, text, g, u);
    FilterLast(OfAccepted(g), [], Accepted(group, sender, text));
    assert [] + [Accepted(group, sender, text)] == [Accepted(group, sender, text)];
    AddedComplete(w, w', Map(WithText(text), copies), [Accepted(group, sender, text)], g, u);
  }

  lemma CopiesGoToMembers(copies: seq<Message>, sender: string, group: string, members: set<string>, text: seq<byte>,
          e: Entry)
    requires OneCopyEach(copies, sender, group, Listing(members)) && e in Map(WithText(text), copies)
    ensures e.m.chatId == group && e.m.receiver in members
  {
    var k :| 0 <= k < |copies| && e == WithText(text)(copies[k]);
    assert IsCopyFor(copies[k], sender, group, Listing(members)[k]);
    assert Listing(members)[k] in Listing(members);
  }

  lemma DirectSendCompletes(lib: Library, w: World, i: nat, to: string, text: seq<byte>, coins: Coins)
    requires i < |w.sys.clients| && Complete(w)
    ensures Complete(Step(lib, w, SendOp(i, to, text, coins)))
  {
    var w' := Step(lib, w, SendOp(i, to, text, coins));
    SendFrame(lib, w.sys, i, to, text, coins);
    forall g, u | u in Members(w'.sys.server, g)
      ensures CompleteFor(w', g, u)
    {
      var added := if Send(lib, w.sys, i, to, text, coins).1.Some? then
          [Entry(Send(lib, w.sys, i, to, text, coins).1.value, text)] else [];
      FilterNone(CopyFor(g, u), added);
      AddedComplete(w, w', added, [], g, u);
    }
  }

  // Steps that leave log and groups alone, up to a group that is new.
  lemma OtherCompletes(w: World, w': World)
    requires Complete(w) && w'.log == w.log && w'.sends == w.sends
    requires forall g | g in w.sys.server.groups ::
             g in w'.sys.server.groups && w'.sys.server.groups[g] == w.sys.server.groups[g]
    ensures Complete(w')
  {
    forall g, u | u in Members(w'.sys.server, g)
      ensures CompleteFor(w', g, u)
    {
      if g !in w.sys.server.groups {
        FilterNone(OfAccepted(g), w.sends);
        forall k | 0 <= k < |w.log|
          ensures !CopyFor(g, u)(w.log[k])
        {
          assert w.log[k] in w.log;
        }
        FilterNone(CopyFor(g, u), w.log);
      } else {
        assert CompleteFor(w, g, u);
      }
    }
  }

  lemma StepCompletes(lib: Library, w: World, op: Op)
    requires Ideal(lib) && Proper(lib, op) && !op.DeleteOp? && Secured(lib, w.sys, w.log) && Complete(w)
    ensures Complete(Step(lib, w, op))
  {
    var sys := w.sys;
    if op.NewClient? || op.i >= |sys.clients| {
      OtherCompletes(w, Step(lib, w, op));
    } else {
      match op
      case SendOp(i, to, text, coins) => DirectSendCompletes(lib, w, i, to, text, coins);
      case GroupSendOp(i, group, text, coins) => GroupSendCompletes(lib, w, i, group, text, coins);
      case CreateGroupOp(i, name, members) =>
        if sys.clients[i].username in sys.server.users {
          CreatedGroupIsNew(sys.server, sys.clients[i].username, name, members);
        }
        OtherCompletes(w, Step(lib, w, op));
      case _ => OtherCompletes(w, Step(lib, w, op));
    }
  }

  ghost predicate WithoutDeletions(ops: seq<Op>) {
    forall k | 0 <= k < |ops| :: !ops[k].DeleteOp?
  }

  lemma {:induction false} CompleteInRuns(lib: Library, ops: seq<Op>)
    requires Ideal(lib) && AllProper(lib, ops) && WithoutDeletions(ops)
    ensures Complete(Run(lib, ops))
  {
    if ops != [] {
      var before := ops[..|ops| - 1];
      CompleteInRuns(lib, before);
      SecuredInRuns(lib, before);
      StepCompletes(lib, Run(lib, before), ops[|ops| - 1]);
    }
  }

  // In every run without deletions, each logged-in member of a group reads exactly the accepted
  // messages of the group, in order, with their senders and texts; nobody else reads anything of it.
  lemma MembersReadTheSame(lib: Library, ops: seq<Op>, i: nat, group: string)
    requires Ideal(lib) && AllProper(lib, ops) && WithoutDeletions(ops)
    requires i < |Run(lib, ops).sys.clients| && Run(lib, ops).sys.clients[i].loggedIn
    ensures var w := Run(lib, ops);
      var views := ReadGroup(lib, w.sys, i, group);
      && views.Some?
      && Map(SentView(), views.value)
         == if w.sys.clients[i].username in Members(w.sys.server, group) then Filter(OfAccepted(group), w.sends) else []
  {
    SecuredInRuns(lib, ops);
    CompleteInRuns(lib, ops);
    MembersReadTheSameNow(lib, Run(lib, ops), i, group);
  }

  lemma MembersReadTheSameNow(lib: Library, w: World, i: nat, group: string)
    requires Secured(lib, w.sys, w.log) && Complete(w) && i < |w.sys.clients| && w.sys.clients[i].loggedIn
    ensures var views := ReadGroup(lib, w.sys, i, group);
      && views.Some?
      && Map(SentView(), views.value)
         == if w.sys.clients[i].username in Members(w.sys.server, group) then Filter(OfAccepted(group), w.sends) else []
  {
    var u := w.sys.clients[i].username;
    var entries := Filter(CopyFor(group, u), w.log);
    ReadsGroup(lib, w.sys, w.log, i, group);
    assert Map(SentView(), Map(ViewOf(), entries)) == Map(AsAccepted(), entries);
    if u in Members(w.sys.server, group) {
      assert CompleteFor(w, group, u);
    } else {
      forall k | 0 <= k < |w.log|
        ensures !CopyFor(group, u)(w.log[k])
      {
        assert w.log[k] in w.log;
      }
      FilterNone(CopyFor(group, u), w.log);
    }
  }

  // After every run, deletions included: a group send returns true exactly when the sender is logged in
  // and the group has members.  Then the history of the group grows by exactly one copy per member, in
  // the order of their names; otherwise nothing is stored.  No other history changes.
  lemma GroupSendStoresOneCopyEach(lib: Library, ops: seq<Op>, i: nat, group: string, text: seq<byte>,
          coins: GroupCoins)
    requires Ideal(lib) && AllProper(lib, ops) && i < |Run(lib, ops).sys.clients| && |coins.sessionKey| == KEY_SIZE
    ensures StoresOneCopyEach(lib, Run(lib, ops).sys, i, group, text, coins)
  {
    SecuredInRuns(lib, ops);
    GroupSendStoresNow(lib, Run(lib, ops).sys, Run(lib, ops).log, i, group, text, coins);
  }

  ghost predicate StoresOneCopyEach(lib: Library, sys: System, i: nat, group: string, text: seq<byte>,
          coins: GroupCoins)
    requires i < |sys.clients|
  {
    var members := Listing(Members(sys.server, group));
    var (sys', copies) := GroupSend(lib, sys, i, group, members, text, coins);
    && (copies != [] <==> sys.clients[i].loggedIn && Members(sys.server, group) != {})
    && (copies != [] ==> OneCopyEach(copies, sys.clients[i].username, group, members))
    && (forall n | 0 <= n < |copies| ::
          && copies[n].messageId == coins.copies(n).messageId && copies[n].timestamp == coins.copies(n).timestamp
          && !copies[n].deletedForAll)
    && HistoryGrows(sys.server, sys'.server, group, copies)
  }

  ghost predicate HistoryGrows(before: Server, after: Server, group: string, copies: seq<Message>) {
    && GroupConversation(after, group) == GroupConversation(before, group) + copies
    && (forall g | g != group :: GroupConversation(after, g) == GroupConversation(before, g))
    && (forall a, b :: Conversation(after, a, b) == Conversation(before, a, b))
  }

  lemma GroupSendStoresNow(lib: Library, sys: System, log: seq<Entry>, i: nat, group: string, text: seq<byte>,
          coins: GroupCoins)
    requires Ideal(lib) && Secured(lib, sys, log) && i < |sys.clients| && |coins.sessionKey| == KEY_SIZE
    ensures StoresOneCopyEach(lib, sys, i, group, text, coins)
  {
    var members, payload := Listing(Members(sys.server, group)), lib.seal(text, coins.sessionKey, coins.sealing);
    var (sys', copies) := GroupSend(lib, sys, i, group, members, text, coins);
    GroupSendSecures(lib, sys, log, i, group, text, coins);
    if copies != [] {
      CopiesAreOneEach(lib, sys, i, group, payload, coins, members);
      CopiesCarryIds(lib, sys, i, group, payload, coins, members);
    }
    LogOfCopies(log, copies, text);
    LoggedCopies(sys.server, sys'.server, Map(MessageOf(), log), group, copies);
  }

  lemma CopiesAreOneEach(lib: Library, sys: System, i: nat, group: string, payload: seq<byte>, coins: GroupCoins,
          members: seq<string>)
    requires i < |sys.clients|
    ensures OneCopyEach(StoredCopies(lib, sys, i, group, payload, coins, members),
                        sys.clients[i].username, group, members)
  {
    var copies, sender := StoredCopies(lib, sys, i, group, payload, coins, members), sys.clients[i].username;
    forall n | 0 <= n < |members|
      ensures IsCopyFor(copies[n], sender, group, members[n])
    {
      assert copies[n] == StoredCopy(lib, sys, i, group, payload, coins.sessionKey, members[n], coins.copies(n));
    }
  }

  lemma CopiesCarryIds(lib: Library, sys: System, i: nat, group: string, payload: seq<byte>, coins: GroupCoins,
          members: seq<string>)
    requires i < |sys.clients|
    ensures var copies := StoredCopies(lib, sys, i, group, payload, coins, members);
      forall n | 0 <= n < |copies| ::
        && copies[n] in copies
        && copies[n].sender == sys.clients[i].username && copies[n].messageId == coins.copies(n).messageId
        && copies[n].timestamp == coins.copies(n).timestamp && !copies[n].deletedForAll
  {
    var copies := StoredCopies(lib, sys, i, group, payload, coins, members);
    forall n | 0 <= n < |copies|
      ensures copies[n].sender == sys.clients[i].username && copies[n].messageId == coins.copies(n).messageId
      ensures copies[n].timestamp == coins.copies(n).timestamp && !copies[n].deletedForAll
    {
      assert copies[n] == StoredCopy(lib, sys, i, group, payload, coins.sessionKey, members[n], coins.copies(n));
    }
  }

  lemma LogOfCopies(log: seq<Entry>, copies: seq<Message>, text: seq<byte>)
    ensures Map(MessageOf(), log + Map(WithText(text), copies)) == Map(MessageOf(), log) + copies
  {
  }

  lemma LoggedCopies(before: Server, after: Server, log: seq<Message>, group: string, copies: seq<Message>)
    requires Refines(before, log) && Refines(after, log + copies)
    requires forall k | 0 <= k < |copies| :: OfGroup(group)(copies[k])
    ensures HistoryGrows(before, after, group, copies)
  {
    FilterConcat(OfGroup(group), log, copies);
    FilterAll(OfGroup(group), copies);
    forall g | g != group
      ensures GroupConversation(after, g) == GroupConversation(before, g)
    {
      FilterConcat(OfGroup(g), log, copies);
      FilterNone(OfGroup(g), copies);
    }
    forall a, b
      ensures Conversation(after, a, b) == Conversation(before, a, b)
    {
      FilterConcat(Between(a, b), log, copies);
      FilterNone(Between(a, b), copies);
    }
  }
}
