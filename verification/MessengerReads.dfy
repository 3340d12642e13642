/**
  What clients read, in every run of the messenger.

  The invariant Secured says that a logged-in client holds the key pair whose public half the server
  has for its user name, and that every stored message can be read with the registered keys of its
  receiver, and of its sender if it is not a group message.  It needs an ideal cryptographic library
  and user names without ':'.
 */
module MessengerReads {
  import opened Common
  import opened Crypto
  import opened ChatState
  import opened MessageProtocol
  import opened MessengerModel
  import opened MessengerLinks

  // ---------- the invariant ----------

  // The keys on disk are those registered on the server.
  ghost predicate KeyAt(lib: Library, sys: System, u: string)
    requires u in sys.server.users
  {
    && u in sys.keyFiles && lib.isPair(sys.keyFiles[u])
    && sys.keyFiles[u].publicKeyPem == sys.server.users[u].publicKeyPem
    && ':' !in u
  }

  ghost predicate HoldsKey(sys: System, i: nat)
    requires i < |sys.clients|
  {
    var c := sys.clients[i];
    && ':' !in c.username
    && (c.loggedIn ==> c.registered && c.username in sys.server.users && c.username in sys.keyFiles
                       && c.keys == sys.keyFiles[c.username])
  }

  ghost predicate Keyed(lib: Library, sys: System) {
    && (forall u | u in sys.server.users :: KeyAt(lib, sys, u))
    && (forall i | 0 <= i < |sys.clients| :: HoldsKey(sys, i))
  }

  ghost predicate GroupsOfUsers(server: Server) {
    forall g | g in server.groups :: server.groups[g].members <= server.users.Keys
  }

  ghost predicate ReadableBy(lib: Library, sys: System, e: Entry, u: string) {
    u in sys.server.users && u in sys.keyFiles && Reveal(lib, sys.keyFiles[u], u, e.m) == Some(e.text)
  }

  ghost predicate Readable(lib: Library, sys: System, e: Entry) {
    ReadableBy(lib, sys, e, e.m.receiver) && (!e.m.isGroupMessage ==> ReadableBy(lib, sys, e, e.m.sender))
  }

  ghost predicate Logged(lib: Library, sys: System, log: seq<Entry>) {
    && Refines(sys.server, Map(MessageOf(), log))
    && (forall e | e in log :: Readable(lib, sys, e))
  }

  ghost predicate Secured(lib: Library, sys: System, log: seq<Entry>) {
    Keyed(lib, sys) && GroupsOfUsers(sys.server) && Numbered(sys.server) && Logged(lib, sys, log)
  }

  // ---------- steps that store nothing ----------

  // No user loses an account or a key file.
  ghost predicate Extends(a: System, b: System) {
    forall u | u in a.server.users && u in a.keyFiles ::
      u in b.server.users && u in b.keyFiles && b.keyFiles[u] == a.keyFiles[u]
  }

  lemma LoggedStays(lib: Library, a: System, b: System, log: seq<Entry>)
    requires Logged(lib, a, log) && Extends(a, b)
    requires b.server.history == a.server.history && b.server.groupHistory == a.server.groupHistory
    ensures Logged(lib, b, log)
  {
    forall e | e in log
      ensures Readable(lib, b, e)
    {
      assert Readable(lib, a, e);
    }
    assert forall x, y :: Conversation(b.server, x, y) == Conversation(a.server, x, y);
    assert forall group :: GroupConversation(b.server, group) == GroupConversation(a.server, group);
  }

  lemma RegisterSecures(lib: Library, sys: System, log: seq<Entry>, i: nat, hash: string, newKeys: KeyPair)
    requires Secured(lib, sys, log) && i < |sys.clients| && lib.isPair(newKeys)
    ensures Secured(lib, Register(sys, i, hash, newKeys).0, log)
  {
    var sys' := Register(sys, i, hash, newKeys).0;
    assert HoldsKey(sys, i);
    forall u | u in sys'.server.users
      ensures KeyAt(lib, sys', u)
    {
      assert u in sys.server.users ==> KeyAt(lib, sys, u);
    }
    forall j | 0 <= j < |sys'.clients|
      ensures HoldsKey(sys', j)
    {
      assert HoldsKey(sys, j);
    }
    LoggedStays(lib, sys, sys', log);
  }

  // A change of clients only, which leaves each of them with the right keys.
  lemma ClientsSecure(lib: Library, sys: System, sys': System, log: seq<Entry>)
    requires Secured(lib, sys, log)
    requires sys'.server == sys.server && sys'.keyFiles == sys.keyFiles
    requires forall j | 0 <= j < |sys'.clients| :: HoldsKey(sys', j)
    ensures Secured(lib, sys', log)
  {
    forall u | u in sys'.server.users
      ensures KeyAt(lib, sys', u)
    {
      assert KeyAt(lib, sys, u);
    }
    LoggedStays(lib, sys, sys', log);
  }

  lemma LoginSecures(lib: Library, sys: System, log: seq<Entry>, i: nat, hash: string)
    requires Secured(lib, sys, log) && i < |sys.clients|
    ensures Secured(lib, Login(sys, i, hash).0, log)
  {
    var sys' := Login(sys, i, hash).0;
    forall j | 0 <= j < |sys'.clients|
      ensures HoldsKey(sys', j)
    {
      assert HoldsKey(sys, j) && HoldsKey(sys, i);
    }
    ClientsSecure(lib, sys, sys', log);
  }

  lemma LogoutSecures(lib: Library, sys: System, log: seq<Entry>, i: nat)
    requires Secured(lib, sys, log) && i < |sys.clients|
    ensures Secured(lib, Logout(sys, i), log)
  {
    var sys' := Logout(sys, i);
    forall j | 0 <= j < |sys'.clients|
      ensures HoldsKey(sys', j)
    {
      assert HoldsKey(sys, j) && HoldsKey(sys, i);
    }
    ClientsSecure(lib, sys, sys', log);
  }

  lemma NewClientSecures(lib: Library, sys: System, log: seq<Entry>, username: string)
    requires Secured(lib, sys, log) && ':' !in username
    ensures Secured(lib, sys.(clients := sys.clients + [Fresh(username)]), log)
  {
    var sys' := sys.(clients := sys.clients + [Fresh(username)]);
    forall j | 0 <= j < |sys'.clients|
      ensures HoldsKey(sys', j)
    {
      assert j < |sys.clients| ==> HoldsKey(sys, j);
    }
    ClientsSecure(lib, sys, sys', log);
  }

  lemma KeyedStays(lib: Library, a: System, b: System)
    requires SameButEvents(a, b) && Keyed(lib, a)
    ensures Keyed(lib, b)
  {
    forall j | 0 <= j < |b.clients|
      ensures HoldsKey(b, j)
    {
      assert HoldsKey(a, j) && SameClient(a.clients[j], b.clients[j]);
    }
    forall u | u in b.server.users
      ensures KeyAt(lib, b, u)
    {
      assert KeyAt(lib, a, u);
    }
  }

  lemma CreateGroupSecures(lib: Library, sys: System, log: seq<Entry>, owner: string, name: string,
          members: seq<string>)
    requires Secured(lib, sys, log)
    ensures Secured(lib, sys.(server := CreateGroup(sys.server, owner, name, members).0), log)
  {
    if owner in sys.server.users {
      var (server, id) := CreateGroup(sys.server, owner, name, members);
      var sys' := sys.(server := server);
      CreatedGroupIsNew(sys.server, owner, name, members);
      forall g | g in server.groups
        ensures server.groups[g].members <= server.users.Keys
      {
        assert g in sys.server.groups || g == id.value;
      }
      forall u | u in server.users
        ensures KeyAt(lib, sys', u)
      {
        assert KeyAt(lib, sys, u);
      }
      forall j | 0 <= j < |sys'.clients|
        ensures HoldsKey(sys', j)
      {
        assert HoldsKey(sys, j);
      }
      LoggedStays(lib, sys, sys', log);
    }
  }

  lemma DeleteSecures(lib: Library, sys: System, log: seq<Entry>, requester: string, id: string)
    requires Secured(lib, sys, log)
    ensures Secured(lib, sys.(server := Delete(sys.server, requester, id).0), Filter(EntryMissed(requester, id), log))
  {
    var server := Delete(sys.server, requester, id).0;
    var sys', log' := sys.(server := server), Filter(EntryMissed(requester, id), log);
    assert SameButEvents(sys, sys');
    KeyedStays(lib, sys, sys');
    DeleteRefines(sys.server, Map(MessageOf(), log), requester, id);
    FilterOfMap(Missed(requester, id), MessageOf(), EntryMissed(requester, id), log);
    FilterMembers(EntryMissed(requester, id), log);
    forall e | e in log'
      ensures Readable(lib, sys', e)
    {
      assert Readable(lib, sys, e);
    }
  }

  // ---------- sending ----------

  lemma StoreSecures(lib: Library, sys: System, sys': System, log: seq<Entry>, e: Entry)
    requires Secured(lib, sys, log)
    requires SameButEvents(sys, sys') && sys'.server == Store(sys.server, e.m) && Storable(e.m) && Readable(lib, sys, e)
    ensures Secured(lib, sys', log + [e])
  {
    KeyedStays(lib, sys, sys');
    StoreRefines(sys.server, Map(MessageOf(), log), e.m);
    assert Map(MessageOf(), log + [e]) == Map(MessageOf(), log) + [e.m];
    forall x | x in log + [e]
      ensures Readable(lib, sys', x)
    {
      assert Readable(lib, sys, x);
    }
  }

  lemma HasKey(lib: Library, sys: System, u: string)
    requires Ideal(lib) && Keyed(lib, sys)
    ensures PublicKey(sys.server, u) != "" <==> u in sys.server.users
  {
    if u in sys.server.users {
      assert KeyAt(lib, sys, u);
    }
  }

  // Unwrapping with the registered keys of u gives the session key back.
  lemma Unwraps(lib: Library, sys: System, u: string, key: seq<byte>, coins: nat)
    requires Ideal(lib) && Keyed(lib, sys) && u in sys.server.users && |key| == KEY_SIZE
    ensures KeyAt(lib, sys, u)
    ensures lib.unwrap(sys.keyFiles[u].privateKeyPem, lib.wrap(PublicKey(sys.server, u), key, coins)) == Some(key)
    ensures lib.wrap(PublicKey(sys.server, u), key, coins) != []
  {
    assert KeyAt(lib, sys, u);
  }

  lemma DirectIsReadable(lib: Library, sys: System, i: nat, to: string, text: seq<byte>, coins: Coins, m: Message)
    requires Ideal(lib) && Keyed(lib, sys) && i < |sys.clients| && sys.clients[i].loggedIn
    requires to in sys.server.users && |coins.sessionKey| == KEY_SIZE
    requires var sent := DirectMessage(lib, sys.clients[i], to, PublicKey(sys.server, to), text, coins);
             m == sent || m == sent.(status := DELIVERED)
    ensures Readable(lib, sys, Entry(m, text)) && Storable(m)
  {
    var u := sys.clients[i].username;
    assert HoldsKey(sys, i);
    Unwraps(lib, sys, to, coins.sessionKey, coins.wrapping);
    Unwraps(lib, sys, u, coins.sessionKey, coins.selfWrapping);
    assert lib.open(m.encryptedPayload, coins.sessionKey) == Some(text);
    assert ReadableBy(lib, sys, Entry(m, text), u);
    if to != u {
      assert ReadableBy(lib, sys, Entry(m, text), to);
    }
  }

  lemma SendSecures(lib: Library, sys: System, log: seq<Entry>, i: nat, to: string, text: seq<byte>, coins: Coins)
    requires Ideal(lib) && Secured(lib, sys, log) && i < |sys.clients| && |coins.sessionKey| == KEY_SIZE
    ensures var (sys', stored) := Send(lib, sys, i, to, text, coins);
      Secured(lib, sys', log + if stored.Some? then [Entry(stored.value, text)] else [])
  {
    var c, toKey := sys.clients[i], PublicKey(sys.server, to);
    HasKey(lib, sys, to);
    if c.loggedIn && toKey != "" {
      var m := DirectMessage(lib, c, to, toKey, text, coins);
      TransmitFrame(lib, sys, i, m);
      var (sys', stored) := Transmit(lib, sys, i, m);
      DirectIsReadable(lib, sys, i, to, text, coins, stored);
      StoreSecures(lib, sys, sys', log, Entry(stored, text));
    } else {
      assert log + [] == log;
    }
  }

  lemma CopyIsReadable(lib: Library, sys: System, sender: string, member: string, group: string, text: seq<byte>,
          sealing: nat, sessionKey: seq<byte>, coins: CopyCoins, m: Message)
    requires Ideal(lib) && Keyed(lib, sys) && member in sys.server.users && |sessionKey| == KEY_SIZE
    requires var sent := GroupCopy(lib, sender, member, PublicKey(sys.server, member), group,
                                   lib.seal(text, sessionKey, sealing), sessionKey, coins);
             m == sent || m == sent.(status := DELIVERED)
    ensures Readable(lib, sys, Entry(m, text)) && Storable(m)
  {
    Unwraps(lib, sys, member, sessionKey, coins.wrapping);
    assert ReadableBy(lib, sys, Entry(m, text), member);
  }

  // One copy for each member, in the order of the list.
  ghost predicate OneCopyEach(copies: seq<Message>, sender: string, group: string, members: seq<string>) {
    |copies| == |members| && forall k | 0 <= k < |members| :: IsCopyFor(copies[k], sender, group, members[k])
  }

  ghost predicate IsCopyFor(m: Message, sender: string, group: string, member: string) {
    m.isGroupMessage && m.chatId == group && m.sender == sender && m.receiver == member
  }

  // The copy for one member as it is stored, in a system in which deliveries change only events.
  function StoredCopy(lib: Library, sys: System, i: nat, group: string, payload: seq<byte>, sessionKey: seq<byte>,
          member: string, coins: CopyCoins): Message
    requires i < |sys.clients|
  {
    var copy := GroupCopy(lib, sys.clients[i].username, member, PublicKey(sys.server, member), group,
                          payload, sessionKey, coins);
    if Reaches(sys, i, member) then copy.(status := DELIVERED) else copy
  }

  lemma CopyIsStored(lib: Library, sys: System, i: nat, group: string, payload: seq<byte>, sessionKey: seq<byte>,
          member: string, coins: CopyCoins)
    requires i < |sys.clients| && PublicKey(sys.server, member) != ""
    ensures var stored := StoredCopy(lib, sys, i, group, payload, sessionKey, member, coins);
      var (sys', more) := SendCopy(lib, sys, i, group, payload, sessionKey, member, coins);
      more == [stored] && sys'.server == Store(sys.server, stored) && SameButEvents(sys, sys')
  {
    CopyFrame(lib, sys, i, group, payload, sessionKey, member, coins);
  }

  lemma LogOneMore(log: seq<Entry>, copies: seq<Message>, stored: Message, text: seq<byte>)
    ensures log + Map(WithText(text), copies + [stored]) == log + Map(WithText(text), copies) + [Entry(stored, text)]
  {
  }

  // One more copy.
  lemma CopySecures(lib: Library, sys: System, log: seq<Entry>, copies: seq<Message>, i: nat, group: string,
          text: seq<byte>, sealing: nat, sessionKey: seq<byte>, member: string, coins: CopyCoins)
    requires Ideal(lib) && Secured(lib, sys, log + Map(WithText(text), copies)) && i < |sys.clients|
    requires |sessionKey| == KEY_SIZE && member in sys.server.users
    ensures var payload := lib.seal(text, sessionKey, sealing);
      var (sys', more) := SendCopy(lib, sys, i, group, payload, sessionKey, member, coins);
      Secured(lib, sys', log + Map(WithText(text), copies + more))
  {
    var payload := lib.seal(text, sessionKey, sealing);
    var stored := StoredCopy(lib, sys, i, group, payload, sessionKey, member, coins);
    var sys' := SendCopy(lib, sys, i, group, payload, sessionKey, member, coins).0;
    HasKey(lib, sys, member);
    CopyIsStored(lib, sys, i, group, payload, sessionKey, member, coins);
    CopyIsReadable(lib, sys, sys.clients[i].username, member, group, text, sealing, sessionKey, coins, stored);
    StoreSecures(lib, sys, sys', log + Map(WithText(text), copies), Entry(stored, text));
    LogOneMore(log, copies, stored, text);
  }

  lemma {:induction false} CopiesSecure(lib: Library, sys: System, log: seq<Entry>, i: nat, group: string,
          text: seq<byte>, coins: GroupCoins, members: seq<string>)
    requires Ideal(lib) && Secured(lib, sys, log) && i < |sys.clients| && |coins.sessionKey| == KEY_SIZE
    requires forall m | m in members :: m in sys.server.users
    ensures var (sys', copies) := SendCopies(lib, sys, i, group,
            lib.seal(text, coins.sessionKey, coins.sealing), coins, members);
      Secured(lib, sys', log + Map(WithText(text), copies))
  {
    if members == [] {
      assert log + Map(WithText(text), []) == log;
    } else {
      var n, payload := |members| - 1, lib.seal(text, coins.sessionKey, coins.sealing);
      CopiesSecure(lib, sys, log, i, group, text, coins, members[..n]);
      CopiesFrame(lib, sys, i, group, payload, coins, members[..n]);
      var (before, copies) := SendCopies(lib, sys, i, group, payload, coins, members[..n]);
      assert members[n] in members;
      CopySecures(lib, before, log, copies, i, group, text, coins.sealing, coins.sessionKey,
                  members[n], coins.copies(n));
    }
  }

  function StoredCopies(lib: Library, sys: System, i: nat, group: string, payload: seq<byte>, coins: GroupCoins,
          members: seq<string>): (copies: seq<Message>)
    requires i < |sys.clients|
    ensures |copies| == |members|
  {
    seq(|members|, n requires 0 <= n < |members| =>
        StoredCopy(lib, sys, i, group, payload, coins.sessionKey, members[n], coins.copies(n)))
  }

  lemma StoredCopyStays(lib: Library, a: System, b: System, i: nat, group: string, payload: seq<byte>,
          sessionKey: seq<byte>, member: string, coins: CopyCoins)
    requires SameButEvents(a, b) && i < |a.clients|
    ensures StoredCopy(lib, a, i, group, payload, sessionKey, member, coins)
            == StoredCopy(lib, b, i, group, payload, sessionKey, member, coins)
  {
    assert SameClient(a.clients[i], b.clients[i]);
  }

  lemma {:induction false} CopiesAreStored(lib: Library, sys: System, i: nat, group: string, payload: seq<byte>,
          coins: GroupCoins, members: seq<string>)
    requires i < |sys.clients| && forall m | m in members :: PublicKey(sys.server, m) != ""
    ensures SendCopies(lib, sys, i, group, payload, coins, members).1
            == StoredCopies(lib, sys, i, group, payload, coins, members)
  {
    if members != [] {
      var n := |members| - 1;
      CopiesAreStored(lib, sys, i, group, payload, coins, members[..n]);
      CopiesFrame(lib, sys, i, group, payload, coins, members[..n]);
      var before := SendCopies(lib, sys, i, group, payload, coins, members[..n]).0;
      assert members[n] in members;
      CopyIsStored(lib, before, i, group, payload, coins.sessionKey, members[n], coins.copies(n));
      StoredCopyStays(lib, sys, before, i, group, payload, coins.sessionKey, members[n], coins.copies(n));
      OneMoreStored(lib, sys, i, group, payload, coins, members);
    }
  }

  lemma OneMoreStored(lib: Library, sys: System, i: nat, group: string, payload: seq<byte>, coins: GroupCoins,
          members: seq<string>)
    requires i < |sys.clients| && members != []
    ensures var n := |members| - 1;
      StoredCopies(lib, sys, i, group, payload, coins, members)
      == StoredCopies(lib, sys, i, group, payload, coins, members[..n])
         + [StoredCopy(lib, sys, i, group, payload, coins.sessionKey, members[n], coins.copies(n))]
  {
  }

  lemma MembersAreUsers(server: Server, group: string)
    requires GroupsOfUsers(server)
    ensures forall m | m in Listing(Members(server, group)) :: m in server.users
    ensures Listing(Members(server, group)) == [] <==> Members(server, group) == {}
  {
    var list := Listing(Members(server, group));
    if m :| m in Members(server, group) {
      assert m in list;
    }
    if list != [] {
      assert list[0] in list;
    }
  }

  // A group send by a client that is logged in stores one copy per member of the group, or nothing
  // where the group is unknown; it returns true in the first case only.
  lemma GroupSendSecures(lib: Library, sys: System, log: seq<Entry>, i: nat, group: string, text: seq<byte>,
          coins: GroupCoins)
    requires Ideal(lib) && Secured(lib, sys, log) && i < |sys.clients| && |coins.sessionKey| == KEY_SIZE
    ensures var members := Listing(Members(sys.server, group));
      var (sys', copies) := GroupSend(lib, sys, i, group, members, text, coins);
      && Secured(lib, sys', log + Map(WithText(text), copies))
      && (copies != [] <==> sys.clients[i].loggedIn && Members(sys.server, group) != {})
      && (copies != [] ==>
            copies == StoredCopies(lib, sys, i, group, lib.seal(text, coins.sessionKey, coins.sealing), coins, members))
  {
    var members := Listing(Members(sys.server, group));
    MembersAreUsers(sys.server, group);
    if sys.clients[i].loggedIn {
      CopiesSecure(lib, sys, log, i, group, text, coins, members);
      forall m | m in members
        ensures PublicKey(sys.server, m) != ""
      {
        HasKey(lib, sys, m);
      }
      CopiesAreStored(lib, sys, i, group, lib.seal(text, coins.sessionKey, coins.sealing), coins, members);
    }
    assert log + Map(WithText(text), []) == log;
  }

  // ---------- key files ----------

  // Whoever has an account has a key file; this needs no assumption at all.
  ghost predicate HaveKeyFiles(sys: System) {
    sys.server.users.Keys <= sys.keyFiles.Keys
  }

  lemma {:induction false} KeyFilesInRuns(lib: Library, ops: seq<Op>)
    ensures HaveKeyFiles(Run(lib, ops).sys)
  {
    if ops != [] {
      KeyFilesInRuns(lib, ops[..|ops| - 1]);
      StepKeepsKeyFiles(lib, Run(lib, ops[..|ops| - 1]), ops[|ops| - 1]);
    }
  }

  lemma StepKeepsKeyFiles(lib: Library, w: World, op: Op)
    requires HaveKeyFiles(w.sys)
    ensures HaveKeyFiles(Step(lib, w, op).sys)
  {
    var sys := w.sys;
    if !op.NewClient? && op.i < |sys.clients| {
      match op
      case SendOp(i, to, text, coins) => SendFrame(lib, sys, i, to, text, coins);
      case GroupSendOp(i, group, text, coins) =>
        GroupSendFrame(lib, sys, i, group, Listing(Members(sys.server, group)), text, coins);
      case _ =>
    }
  }

  // ---------- every run ----------

  lemma StepSecures(lib: Library, w: World, op: Op)
    requires Ideal(lib) && Proper(lib, op) && Secured(lib, w.sys, w.log)
    ensures Secured(lib, Step(lib, w, op).sys, Step(lib, w, op).log)
  {
    var sys := w.sys;
    if op.NewClient? {
      NewClientSecures(lib, sys, w.log, op.username);
    } else if op.i < |sys.clients| {
      match op
      case RegisterOp(i, hash, newKeys) => RegisterSecures(lib, sys, w.log, i, hash, newKeys);
      case LoginOp(i, hash) => LoginSecures(lib, sys, w.log, i, hash);
      case LogoutOp(i) => LogoutSecures(lib, sys, w.log, i);
      case SendOp(i, to, text, coins) => SendSecures(lib, sys, w.log, i, to, text, coins);
      case GroupSendOp(i, group, text, coins) => GroupSendSecures(lib, sys, w.log, i, group, text, coins);
      case DeleteOp(i, id) => DeleteSecures(lib, sys, w.log, sys.clients[i].username, id);
      case CreateGroupOp(i, name, members) =>
        CreateGroupSecures(lib, sys, w.log, sys.clients[i].username, name, members);
    }
  }

  ghost predicate AllProper(lib: Library, ops: seq<Op>) {
    forall k | 0 <= k < |ops| :: Proper(lib, ops[k])
  }

  lemma {:induction false} SecuredInRuns(lib: Library, ops: seq<Op>)
    requires Ideal(lib) && AllProper(lib, ops)
    ensures Secured(lib, Run(lib, ops).sys, Run(lib, ops).log)
  {
    if ops == [] {
      EmptyRefines();
      assert Map(MessageOf(), []) == [];
    } else {
      SecuredInRuns(lib, ops[..|ops| - 1]);
      StepSecures(lib, Run(lib, ops[..|ops| - 1]), ops[|ops| - 1]);
    }
  }
}
