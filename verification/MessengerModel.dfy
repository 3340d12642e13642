/**
  The messenger as a step system: any number of clients on one server.

  Each operation is a function of the whole system.  A world adds two records that the program does
  not keep: log lists every stored message with the text its sender passed in, and sends lists the
  group messages that were accepted.  The theorems relate what clients read to these records, for
  every run from the empty system.
 */
module MessengerModel {
  import opened Common
  import opened Crypto
  import opened ChatState
  import opened MessageProtocol

  datatype Event = Event(fromUser: string, text: seq<byte>, chatId: string, messageId: string, isGroupMessage: bool)

  // The state of a TcpClient.
  datatype Link = Link(connected: bool, username: string)

  datatype Client = Client(
    username: string,
    keys: KeyPair,
    registered: bool,
    loggedIn: bool,
    link: Link,
    events: seq<Event>
  )

  datatype System = System(
    server: Server,
    handlers: map<string, nat>,        // whose receive handler is registered under a name
    keyFiles: map<string, KeyPair>,
    clients: seq<Client>
  )

  // ---------- messages ----------

  // The random choices of one message, and of one copy of a group message.
  datatype Coins = Coins(sessionKey: seq<byte>, sealing: nat, wrapping: nat, selfWrapping: nat,
      messageId: string, timestamp: int64)

  datatype CopyCoins = CopyCoins(wrapping: nat, messageId: string, timestamp: int64)

  datatype GroupCoins = GroupCoins(sessionKey: seq<byte>, sealing: nat, copies: nat -> CopyCoins)

  function DirectMessage(lib: Library, c: Client, to: string, toKey: string, text: seq<byte>, coins: Coins): Message {
    Message(coins.messageId, c.username, to, "",
            lib.wrap(toKey, coins.sessionKey, coins.wrapping),
            lib.wrap(c.keys.publicKeyPem, coins.sessionKey, coins.selfWrapping),
            lib.seal(text, coins.sessionKey, coins.sealing),
            coins.timestamp, SENT, false, false)
  }

  function GroupCopy(lib: Library, sender: string, member: string, memberKey: string, group: string,
          payload: seq<byte>, sessionKey: seq<byte>, copy: CopyCoins): Message
  {
    Message(copy.messageId, sender, member, group, lib.wrap(memberKey, sessionKey, copy.wrapping), [], payload,
            copy.timestamp, SENT, true, false)
  }

  // The text of a message for a user with these keys, or None where the program throws.
  function Reveal(lib: Library, keys: KeyPair, username: string, m: Message): Option<seq<byte>> {
    var wrapped := if m.sender == username && m.encryptedSelfSessionKey != [] then m.encryptedSelfSessionKey
                   else m.encryptedSessionKey;
    match lib.unwrap(keys.privateKeyPem, wrapped)
    case None => None
    case Some(sessionKey) => lib.open(m.encryptedPayload, sessionKey)
  }

  // ---------- registration and login ----------

  function Register(sys: System, i: nat, passwordHash: string, newKeys: KeyPair): (System, bool)
    requires i < |sys.clients|
  {
    var c := sys.clients[i];
    if c.registered then (sys, false) else
      var (server, ok) := RegisterUser(sys.server, c.username, passwordHash, newKeys.publicKeyPem);
      (System(server, sys.handlers,
              if ok then sys.keyFiles[c.username := newKeys] else sys.keyFiles,
              sys.clients[i := c.(keys := newKeys, registered := ok)]),
       ok)
  }

  function Login(sys: System, i: nat, passwordHash: string): (System, bool)
    requires i < |sys.clients|
  {
    var c := sys.clients[i];
    if c.loggedIn then (sys, true)
    else if !Authenticate(sys.server, c.username, passwordHash) || c.username !in sys.keyFiles then (sys, false)
    else
      var loaded := c.(keys := sys.keyFiles[c.username]);
      if c.link.connected || c.username in sys.handlers then
        (sys.(clients := sys.clients[i := loaded.(loggedIn := false)]), false)
      else
        (sys.(handlers := sys.handlers[c.username := i],
              clients := sys.clients[i := loaded.(link := Link(true, c.username),
                                               loggedIn := true, registered := true)]),
         true)
  }

  function Logout(sys: System, i: nat): System
    requires i < |sys.clients|
  {
    var c := sys.clients[i];
    sys.(handlers := if c.link.connected then sys.handlers - {c.link.username} else sys.handlers,
         clients := sys.clients[i := c.(link := if c.link.connected then Link(false, "") else c.link,
                                        loggedIn := false)])
  }

  // ---------- sending ----------

  // What a client does with a payload: it notifies its observers, or logs an error and does nothing.
  function Incoming(lib: Library, c: Client, fromUser: string, payload: string): Client {
    match Deserialize(payload)
    case Err(_) => c
    case Ok(m) =>
      match Reveal(lib, c.keys, c.username, m)
      case None => c
      case Some(text) => c.(events := c.events + [Event(fromUser, text, m.chatId, m.messageId, m.isGroupMessage)])
  }

  predicate Reaches(sys: System, i: nat, to: string)
    requires i < |sys.clients|
  {
    sys.clients[i].link.connected && to in sys.handlers && sys.handlers[to] < |sys.clients|
  }

  // Delivers m if its receiver is online, and stores it with the status that results.
  function Transmit(lib: Library, sys: System, i: nat, m: Message): (System, Message)
    requires i < |sys.clients|
  {
    if Reaches(sys, i, m.receiver) then
      var k := sys.handlers[m.receiver];
      var stored := m.(status := DELIVERED);
      (sys.(clients := sys.clients[k := Incoming(lib, sys.clients[k], sys.clients[i].link.username, Serialize(m))],
            server := Store(sys.server, stored)),
       stored)
    else
      (sys.(server := Store(sys.server, m)), m)
  }

  // None where sendMessage returns false; otherwise the message that was stored.
  function Send(lib: Library, sys: System, i: nat, to: string, text: seq<byte>, coins: Coins): (System, Option<Message>)
    requires i < |sys.clients|
  {
    var c := sys.clients[i];
    var toKey := PublicKey(sys.server, to);
    if !c.loggedIn || toKey == "" then (sys, None) else
      var (sys', stored) := Transmit(lib, sys, i, DirectMessage(lib, c, to, toKey, text, coins));
      (sys', Some(stored))
  }

  // One turn of the loop of sendGroupMessage, with the copy it stores, if any.
  function SendCopy(lib: Library, sys: System, i: nat, group: string, payload: seq<byte>, sessionKey: seq<byte>,
          member: string, coins: CopyCoins): (r: (System, seq<Message>))
    requires i < |sys.clients|
    ensures |r.0.clients| == |sys.clients|
  {
    var key := PublicKey(sys.server, member);
    if key == "" then (sys, []) else
      var (sys', stored) := Transmit(lib, sys, i,
          GroupCopy(lib, sys.clients[i].username, member, key, group, payload, sessionKey, coins));
      (sys', [stored])
  }

  // The loop over a list of members, with the copies it stores.
  function SendCopies(lib: Library, sys: System, i: nat, group: string, payload: seq<byte>, coins: GroupCoins,
          members: seq<string>): (r: (System, seq<Message>))
    requires i < |sys.clients|
    ensures |r.0.clients| == |sys.clients|
  {
    if members == [] then (sys, []) else
      var n := |members| - 1;
      var (before, copies) := SendCopies(lib, sys, i, group, payload, coins, members[..n]);
      var (after, more) := SendCopy(lib, before, i, group, payload, coins.sessionKey, members[n], coins.copies(n));
      (after, copies + more)
  }

  lemma OneMoreMember(lib: Library, sys: System, i: nat, group: string, payload: seq<byte>, coins: GroupCoins,
          members: seq<string>, k: nat)
    requires i < |sys.clients| && k < |members|
    ensures var (before, copies) := SendCopies(lib, sys, i, group, payload, coins, members[..k]);
      var (after, more) := SendCopy(lib, before, i, group, payload, coins.sessionKey, members[k], coins.copies(k));
      SendCopies(lib, sys, i, group, payload, coins, members[..k + 1]) == (after, copies + more)
  {
    assert members[..k + 1][..k] == members[..k];
  }

  // sendGroupMessage returns true exactly when a copy was stored.
  function GroupSend(lib: Library, sys: System, i: nat, group: string, members: seq<string>, text: seq<byte>,
          coins: GroupCoins): (System, seq<Message>)
    requires i < |sys.clients|
  {
    if !sys.clients[i].loggedIn || members == [] then (sys, [])
    else SendCopies(lib, sys, i, group, lib.seal(text, coins.sessionKey, coins.sealing), coins, members)
  }

  // ---------- deleting ----------

  function DeleteForAll(sys: System, i: nat, id: string): (System, bool)
    requires i < |sys.clients|
  {
    if !sys.clients[i].loggedIn || id == "" then (sys, false) else
      var (server, deleted) := Delete(sys.server, sys.clients[i].username, id);
      (sys.(server := server), deleted)
  }

  // ---------- reading ----------

  datatype MessageView = MessageView(
    messageId: string,
    fromUser: string,
    toUser: string,
    chatId: string,
    text: seq<byte>,
    timestamp: int64,
    status: int32,
    isGroupMessage: bool,
    deletedForAll: bool
  )

  function View(m: Message, text: seq<byte>): MessageView {
    MessageView(m.messageId, m.sender, m.receiver, m.chatId, text, m.timestamp, m.status,
                m.isGroupMessage, m.deletedForAll)
  }

  function RevealAll(lib: Library, c: Client, ms: seq<Message>): Option<seq<MessageView>> {
    if ms == [] then Some([]) else
      var before, m := RevealAll(lib, c, ms[..|ms| - 1]), ms[|ms| - 1];
      var text := Reveal(lib, c.keys, c.username, m);
      if before.None? || text.None? then None else Some(before.value + [View(m, text.value)])
  }

  function ReadConversation(lib: Library, sys: System, i: nat, peer: string): Option<seq<MessageView>>
    requires i < |sys.clients|
  {
    var c := sys.clients[i];
    RevealAll(lib, c, Conversation(sys.server, c.username, peer))
  }

  function Addressed(name: string): Message -> bool {
    (m: Message) => m.receiver == name
  }

  function ReadGroup(lib: Library, sys: System, i: nat, group: string): Option<seq<MessageView>>
    requires i < |sys.clients|
  {
    var c := sys.clients[i];
    RevealAll(lib, c, Filter(Addressed(c.username), GroupConversation(sys.server, group)))
  }

  // ---------- runs ----------

  datatype Entry = Entry(m: Message, text: seq<byte>)

  datatype Accepted = Accepted(group: string, sender: string, text: seq<byte>)

  datatype World = World(sys: System, log: seq<Entry>, sends: seq<Accepted>)

  const START: World := World(System(EMPTY, map[], map[], []), [], [])

  datatype Op =
    | NewClient(username: string)
    | RegisterOp(i: nat, passwordHash: string, newKeys: KeyPair)
    | LoginOp(i: nat, passwordHash: string)
    | LogoutOp(i: nat)
    | SendOp(i: nat, to: string, text: seq<byte>, coins: Coins)
    | GroupSendOp(i: nat, group: string, text: seq<byte>, groupCoins: GroupCoins)
    | DeleteOp(i: nat, id: string)
    | CreateGroupOp(i: nat, name: string, members: seq<string>)

  function Fresh(username: string): Client {
    Client(username, KeyPair("", ""), false, false, Link(false, ""), [])
  }

  function MessageOf(): Entry -> Message {
    (e: Entry) => e.m
  }

  function WithText(text: seq<byte>): Message -> Entry {
    (m: Message) => Entry(m, text)
  }

  function EntryMissed(requester: string, id: string): Entry -> bool {
    (e: Entry) => !Hit(e.m, requester, id)
  }

  // An operation of a client that does not exist does nothing.
  ghost function Step(lib: Library, w: World, op: Op): World {
    var sys := w.sys;
    if op.NewClient? then w.(sys := sys.(clients := sys.clients + [Fresh(op.username)]))
    else if op.i >= |sys.clients| then w
    else
      match op
      case NewClient(_) => w
      case RegisterOp(i, hash, newKeys) => w.(sys := Register(sys, i, hash, newKeys).0)
      case LoginOp(i, hash) => w.(sys := Login(sys, i, hash).0)
      case LogoutOp(i) => w.(sys := Logout(sys, i))
      case SendOp(i, to, text, coins) =>
        var (sys', stored) := Send(lib, sys, i, to, text, coins);
        World(sys', w.log + (if stored.Some? then [Entry(stored.value, text)] else []), w.sends)
      case GroupSendOp(i, group, text, coins) =>
        var (sys', copies) := GroupSend(lib, sys, i, group, Listing(Members(sys.server, group)), text, coins);
        World(sys', w.log + Map(WithText(text), copies),
              w.sends + (if copies == [] then [] else [Accepted(group, sys.clients[i].username, text)]))
      case DeleteOp(i, id) =>
        var c, sys' := sys.clients[i], DeleteForAll(sys, i, id).0;
        World(sys', if c.loggedIn && id != "" then Filter(EntryMissed(c.username, id), w.log) else w.log, w.sends)
      case CreateGroupOp(i, name, members) =>
        w.(sys := sys.(server := CreateGroup(sys.server, sys.clients[i].username, name, members).0))
  }

  // What the program's environment guarantees: generated keys are pairs, session keys have 32 bytes,
  // and user names contain no ':'.
  ghost predicate Proper(lib: Library, op: Op) {
    match op
    case NewClient(username) => ':' !in username
    case RegisterOp(_, _, newKeys) => lib.isPair(newKeys)
    case SendOp(_, _, _, coins) => |coins.sessionKey| == KEY_SIZE
    case GroupSendOp(_, _, _, coins) => |coins.sessionKey| == KEY_SIZE
    case _ => true
  }

  ghost function Run(lib: Library, ops: seq<Op>): World {
    if ops == [] then START else Step(lib, Run(lib, ops[..|ops| - 1]), ops[|ops| - 1])
  }
}
