/**
  The classes of the messenger, proved against the functions of ChatState and MessengerModel.

  A Deployment is one server, one key directory and any number of clients.  Its ghost fields record the
  operations called so far.  Every method that changes something keeps the objects equal to the state
  that the step system reaches by these operations, so what is proved of all runs holds of the objects.
 */
module Messenger {
  import opened Common
  import opened Crypto
  import opened MessageProtocol
  import S = ChatState
  import M = MessengerModel
  import N = Decimal
  import L = MessengerLinks
  import A = MessengerAccounts
  import R = MessengerReads
  import T = MessengerTheorems
  import D = MessengerDeletion

  // ---------- transport ----------

  ghost function Only(c: ChatClient?): set<ChatClient> {
    if c != null then {c} else {}
  }

  class TcpServer {
    var handlers: map<string, TcpClient>

    constructor ()
      ensures handlers == map[]
    {
      handlers := map[];
    }

    method ConnectClient(username: string, handler: TcpClient) returns (ok: bool)
      modifies this
      ensures ok == (username !in old(handlers))
      ensures handlers == if ok then old(handlers)[username := handler] else old(handlers)
    {
      ok := username !in handlers;
      if ok {
        handlers := handlers[username := handler];
      }
    }

    method DisconnectClient(username: string)
      modifies this
      ensures handlers == old(handlers) - {username}
    {
      handlers := handlers - {username};
    }

    // The client, if any, that hears what is sent to a name.
    ghost function Listener(username: string): ChatClient?
      reads this, if username in handlers then {handlers[username]} else {}
    {
      if username in handlers then handlers[username].onMessage else null
    }

    method SendTo(fromUser: string, toUser: string, payload: string) returns (ok: bool)
      modifies Only(Listener(toUser))
      ensures ok == (toUser in handlers)
      ensures var c := old(Listener(toUser));
        c != null ==> c.AsClient() == M.Incoming(c.lib, old(c.AsClient()), fromUser, payload)
    {
      ok := toUser in handlers;
      if ok {
        handlers[toUser].Receive(fromUser, payload);
      }
    }

    method IsOnline(username: string) returns (online: bool)
      ensures online == (username in handlers)
    {
      online := username in handlers;
    }
  }

  class TcpClient {
    const server: TcpServer
    var username: string
    var connected: bool
    var onMessage: ChatClient?

    constructor (server: TcpServer)
      ensures this.server == server && Link() == M.Link(false, "") && onMessage == null
    {
      this.server := server;
      username := "";
      connected := false;
      onMessage := null;
    }

    ghost function Link(): M.Link
      reads this
    {
      M.Link(connected, username)
    }

    method SetOnMessage(handler: ChatClient)
      modifies this
      ensures onMessage == handler && Link() == old(Link())
    {
      onMessage := handler;
    }

    method Connect(username: string) returns (ok: bool)
      modifies this, server
      ensures ok == (!old(connected) && username !in old(server.handlers))
      ensures Link() == if ok then M.Link(true, username) else old(Link())
      ensures server.handlers == if ok then old(server.handlers)[username := this] else old(server.handlers)
      ensures onMessage == old(onMessage)
    {
      if connected {
        return false;
      }
      ok := server.ConnectClient(username, this);
      if ok {
        connected := true;
        this.username := username;
      }
    }

    method Disconnect()
      modifies this, server
      ensures Link() == if old(connected) then M.Link(false, "") else old(Link())
      ensures server.handlers == if old(connected) then old(server.handlers) - {old(username)} else old(server.handlers)
      ensures onMessage == old(onMessage)
    {
      if !connected {
        return;
      }
      server.DisconnectClient(username);
      connected := false;
      username := "";
    }

    method Send(toUser: string, payload: string) returns (ok: bool)
      modifies if connected then Only(server.Listener(toUser)) else {}
      ensures ok == (connected && toUser in server.handlers)
      ensures var c := old(server.Listener(toUser));
        connected && c != null ==> c.AsClient() == M.Incoming(c.lib, old(c.AsClient()), username, payload)
    {
      if !connected {
        return false;
      }
      ok := server.SendTo(username, toUser, payload);
    }

    method Receive(fromUser: string, payload: string)
      modifies Only(onMessage)
      ensures onMessage != null ==>
                onMessage.AsClient() == M.Incoming(onMessage.lib, old(onMessage.AsClient()), fromUser, payload)
    {
      if onMessage != null {
        onMessage.HandleIncoming(fromUser, payload);
      }
    }
  }

  // ---------- the chat server ----------

  // Sorting: the names of a set in ascending order.
  method SortedFromSet(input: set<string>) returns (names: seq<string>)
    ensures S.IsListing(names, input)
  {
    names := [];
    var rest := input;
    while rest != {}
      invariant rest <= input && S.IsListing(names, input - rest)
    {
      var x :| x in rest;
      S.InsertListing(x, names, input - rest);
      assert input - rest + {x} == input - (rest - {x});
      names := S.Insert(x, names);
      rest := rest - {x};
    }
  }

  class ChatServer {
    var users: map<string, S.UserRecord>
    var groups: map<string, S.GroupRecord>
    var history: S.History
    var groupHistory: S.History
    var nextGroupId: nat
    const transport: TcpServer

    constructor ()
      ensures State() == S.EMPTY && fresh(transport) && transport.handlers == map[]
    {
      users, groups, history, groupHistory, nextGroupId := map[], map[], map[], map[], 1;
      transport := new TcpServer();
    }

    ghost function State(): S.Server
      reads this
    {
      S.Server(users, groups, history, groupHistory, nextGroupId)
    }

    // The server has m on record.
    ghost predicate Holds(m: Message)
      reads this
    {
      S.Holds(history, m) || S.Holds(groupHistory, m)
    }

    method RegisterUser(username: string, passwordHash: string, publicKeyPem: string) returns (ok: bool)
      modifies this
      ensures (State(), ok) == S.RegisterUser(old(State()), username, passwordHash, publicKeyPem)
      ensures ok <==> username !in old(users)
      ensures users == if ok then old(users)[username := S.UserRecord(passwordHash, publicKeyPem)] else old(users)
    {
      if username in users {
        return false;
      }
      users := users[username := S.UserRecord(passwordHash, publicKeyPem)];
      return true;
    }

    method Authenticate(username: string, passwordHash: string) returns (ok: bool)
      ensures ok <==> username in users && users[username].passwordHash == passwordHash
    {
      ok := username in users && users[username].passwordHash == passwordHash;
    }

    method GetPublicKey(username: string) returns (pem: string)
      ensures pem == S.PublicKey(State(), username)
    {
      pem := if username in users then users[username].publicKeyPem else "";
    }

    method CreateGroup(owner: string, groupName: string, members: seq<string>) returns (id: Option<string>)
      modifies this
      ensures (State(), id) == S.CreateGroup(old(State()), owner, groupName, members)
      ensures id == if owner in old(users) then Some("group-" + N.Numeral(old(nextGroupId)) + "-" + groupName) else None
    {
      if owner !in users {
        return None;
      }
      var joined := {owner};
      for k := 0 to |members|
        invariant joined == {owner} + set m | m in members[..k] && m in users
      {
        if members[k] in users {
          joined := joined + {members[k]};
        }
        assert members[..k + 1] == members[..k] + [members[k]];
      }
      assert members[..|members|] == members;
      var groupId := S.GroupId(nextGroupId, groupName);
      nextGroupId := nextGroupId + 1;
      if groupId !in groups {
        groups := groups[groupId := S.GroupRecord(groupName, owner, joined)];
      }
      return Some(groupId);
    }

    method ListGroups(username: string) returns (ids: seq<string>)
      ensures S.IsListing(ids, S.GroupsOf(State(), username))
      ensures forall id :: id in ids <==> id in groups && username in groups[id].members
    {
      var found: set<string>, rest := {}, groups.Keys;
      while rest != {}
        invariant rest <= groups.Keys
        invariant found == set id | id in groups && id !in rest && username in groups[id].members
      {
        var id :| id in rest;
        if username in groups[id].members {
          found := found + {id};
        }
        rest := rest - {id};
      }
      ids := SortedFromSet(found);
    }

    method GetGroupMembers(groupId: string) returns (names: seq<string>)
      ensures names == S.Listing(S.Members(State(), groupId))
      ensures forall u :: u in names <==> groupId in groups && u in groups[groupId].members
    {
      if groupId in groups {
        names := SortedFromSet(groups[groupId].members);
      } else {
        names := [];
      }
      S.ListingIsUnique(names, S.Listing(S.Members(State(), groupId)), S.Members(State(), groupId));
    }

    method StoreMessage(m: Message)
      modifies this
      ensures State() == S.Store(old(State()), m)
    {
      if m.isGroupMessage {
        var before := if m.chatId in groupHistory then groupHistory[m.chatId] else [];
        groupHistory := groupHistory[m.chatId := before + [m]];
        return;
      }
      var key := S.ConversationKey(m.sender, m.receiver);
      var before := if key in history then history[key] else [];
      history := history[key := before + [m]];
    }

    method GetConversation(userA: string, userB: string) returns (messages: seq<Message>)
      ensures messages == S.Conversation(State(), userA, userB)
    {
      var key := S.ConversationKey(userA, userB);
      messages := if key in history then history[key] else [];
    }

    method GetGroupConversation(groupId: string) returns (messages: seq<Message>)
      ensures messages == S.GroupConversation(State(), groupId)
    {
      messages := if groupId in groupHistory then groupHistory[groupId] else [];
    }

    method DeleteMessageForAll(requester: string, id: string) returns (removed: bool)
      modifies this
      ensures (State(), removed) == S.Delete(old(State()), requester, id)
      ensures forall m :: Holds(m) <==> old(Holds(m)) && !(m.messageId == id && m.sender == requester)
      ensures removed <==> exists m :: old(Holds(m)) && m.messageId == id && m.sender == requester
    {
      S.ErasedMeans(history, requester, id);
      S.ErasedMeans(groupHistory, requester, id);
      var h, inHistory := EraseFromAll(history, requester, id);
      var g, inGroups := EraseFromAll(groupHistory, requester, id);
      history, groupHistory := h, g;
      removed := inHistory || inGroups;
    }
  }

  ghost predicate ShrinksOn(h: S.History, keys: set<string>, requester: string, id: string) {
    exists key | key in h :: key in keys && |Filter(S.Missed(requester, id), h[key])| != |h[key]|
  }

  lemma ShrinksOnOneMore(h: S.History, keys: set<string>, key: string, requester: string, id: string)
    requires key in h
    ensures ShrinksOn(h, keys + {key}, requester, id)
            <==> ShrinksOn(h, keys, requester, id) || |Filter(S.Missed(requester, id), h[key])| != |h[key]|
  {
  }

  ghost function ErasedOn(h: S.History, keys: set<string>, requester: string, id: string): S.History {
    map key | key in h :: if key in keys then Filter(S.Missed(requester, id), h[key]) else h[key]
  }

  lemma ErasedOnOneMore(h: S.History, keys: set<string>, key: string, requester: string, id: string)
    requires key in h
    ensures ErasedOn(h, keys + {key}, requester, id)
            == ErasedOn(h, keys, requester, id)[key := Filter(S.Missed(requester, id), h[key])]
  {
  }

  // One pass over the vectors of a history.
  method EraseFromAll(h: S.History, requester: string, id: string) returns (kept: S.History, removed: bool)
    ensures kept == S.Erased(h, requester, id) && removed == S.Shrinks(h, requester, id)
  {
    kept, removed := h, false;
    var rest := h.Keys;
    while rest != {}
      invariant rest <= h.Keys && kept == ErasedOn(h, h.Keys - rest, requester, id)
      invariant removed == ShrinksOn(h, h.Keys - rest, requester, id)
    {
      var key :| key in rest;
      ShrinksOnOneMore(h, h.Keys - rest, key, requester, id);
      ErasedOnOneMore(h, h.Keys - rest, key, requester, id);
      assert h.Keys - (rest - {key}) == h.Keys - rest + {key};
      var messages := RemoveIf(h[key], requester, id);
      removed := removed || |messages| != |h[key]|;
      kept := kept[key := messages];
      rest := rest - {key};
    }
    assert h.Keys - rest == h.Keys;
  }

  // std::remove_if followed by erase.
  method RemoveIf(messages: seq<Message>, requester: string, id: string) returns (kept: seq<Message>)
    ensures kept == Filter(S.Missed(requester, id), messages)
    ensures forall m :: m in kept <==> m in messages && !(m.messageId == id && m.sender == requester)
    ensures |kept| == |messages| <==> forall m | m in messages :: !(m.messageId == id && m.sender == requester)
  {
    kept := [];
    for k := 0 to |messages|
      invariant kept == Filter(S.Missed(requester, id), messages[..k])
    {
      if !(messages[k].messageId == id && messages[k].sender == requester) {
        kept := kept + [messages[k]];
      }
      assert messages[..k + 1][..k] == messages[..k];
    }
    assert messages[..|messages|] == messages;
    FilterMembers(S.Missed(requester, id), messages);
  }

  // ---------- the chat client ----------

  class KeyDirectory {
    var files: map<string, KeyPair>

    constructor ()
      ensures files == map[]
    {
      files := map[];
    }
  }

  class ChatClient {
    const username: string
    const server: ChatServer
    const disk: KeyDirectory
    const lib: Library
    const transport: TcpClient
    var keyPair: KeyPair
    var registered: bool
    var loggedIn: bool
    var events: seq<M.Event>      // what the observers were notified of

    constructor (username: string, server: ChatServer, disk: KeyDirectory, lib: Library)
      ensures this.username == username && this.server == server && this.disk == disk && this.lib == lib
      ensures fresh(transport) && Wired() && AsClient() == M.Fresh(username)
    {
      this.username, this.server, this.disk, this.lib := username, server, disk, lib;
      transport := new TcpClient(server.transport);
      keyPair, registered, loggedIn, events := KeyPair("", ""), false, false, [];
      new;
      transport.SetOnMessage(this);
    }

    ghost predicate Wired()
      reads transport
    {
      transport.server == server.transport && transport.onMessage == this
    }

    ghost function AsClient(): M.Client
      reads this, transport
    {
      M.Client(username, keyPair, registered, loggedIn, transport.Link(), events)
    }

    method HandleIncoming(fromUser: string, payload: string)
      modifies this
      ensures AsClient() == M.Incoming(lib, old(AsClient()), fromUser, payload)
      ensures events ==
              match Deserialize(payload)
              case Err(_) => old(events)
              case Ok(m) =>
                match M.Reveal(lib, keyPair, username, m)
                case None => old(events)
                case Some(text) => old(events) + [M.Event(fromUser, text, m.chatId, m.messageId, m.isGroupMessage)]
    {
      var decoded := DeserializeWire(payload);
      match decoded {
        case Err(_) =>
        case Ok(m) =>
          var wrapped := if m.sender == username && m.encryptedSelfSessionKey != [] then m.encryptedSelfSessionKey
                         else m.encryptedSessionKey;
          var sessionKey := lib.unwrap(keyPair.privateKeyPem, wrapped);
          if sessionKey.Some? {
            var text := lib.open(m.encryptedPayload, sessionKey.value);
            if text.Some? {
              events := events + [M.Event(fromUser, text.value, m.chatId, m.messageId, m.isGroupMessage)];
            }
          }
      }
    }

    method DecryptToView(m: Message) returns (view: Option<M.MessageView>)
      ensures view == match M.Reveal(lib, keyPair, username, m)
                      case None => None
                      case Some(text) => Some(M.View(m, text))
      ensures view.Some? <==> M.Reveal(lib, keyPair, username, m).Some?
      ensures view.Some? ==> T.Shows(view.value, M.Entry(m, M.Reveal(lib, keyPair, username, m).value))
    {
      var wrapped := if m.sender == username && m.encryptedSelfSessionKey != [] then m.encryptedSelfSessionKey
                     else m.encryptedSessionKey;
      var sessionKey := lib.unwrap(keyPair.privateKeyPem, wrapped);
      if sessionKey.None? {
        return None;
      }
      var text := lib.open(m.encryptedPayload, sessionKey.value);
      if text.None? {
        return None;
      }
      return Some(M.View(m, text.value));
    }

    // ---------- registration and login ----------

    method RegisterOnServer(passwordHash: string, newKeys: KeyPair) returns (ok: bool)
      modifies this, server, disk
      ensures old(registered) ==>
                !ok && AsClient() == old(AsClient())
                && server.State() == old(server.State()) && disk.files == old(disk.files)
      ensures !old(registered) ==>
                && (server.State(), ok)
                   == S.RegisterUser(old(server.State()), username, passwordHash, newKeys.publicKeyPem)
                && AsClient() == old(AsClient()).(keys := newKeys, registered := ok)
                && disk.files == if ok then old(disk.files)[username := newKeys] else old(disk.files)
    {
      if registered {
        return false;
      }
      keyPair := newKeys;
      registered := server.RegisterUser(username, passwordHash, keyPair.publicKeyPem);
      if registered {
        SaveKeyPairToDisk();
      }
      return registered;
    }

    method SaveKeyPairToDisk()
      modifies disk
      ensures disk.files == old(disk.files)[username := keyPair]
    {
      disk.files := disk.files[username := keyPair];
    }

    method LoadKeyPairFromDisk() returns (ok: bool)
      modifies this`keyPair
      ensures ok == (username in disk.files)
      ensures keyPair == if ok then disk.files[username] else old(keyPair)
    {
      ok := username in disk.files;
      if ok {
        keyPair := disk.files[username];
      }
    }

    // Whether the password is right and the keys are on disk.
    ghost predicate Admitted(passwordHash: string)
      reads server, disk
    {
      && username in server.users && server.users[username].passwordHash == passwordHash
      && username in disk.files
    }

    method Login(passwordHash: string) returns (ok: bool)
      requires Wired()
      modifies this, transport, server.transport
      ensures Wired()
      ensures var free := !old(transport.connected) && username !in old(server.transport.handlers);
        && ok == (old(loggedIn) || (old(Admitted(passwordHash)) && free))
        && (old(loggedIn) || !old(Admitted(passwordHash)) ==>
              AsClient() == old(AsClient()) && server.transport.handlers == old(server.transport.handlers))
        && (!old(loggedIn) && old(Admitted(passwordHash)) ==>
              var loaded := old(AsClient()).(keys := disk.files[username]);
              && AsClient() == (if free then loaded.(link := M.Link(true, username),
                                                             loggedIn := true, registered := true)
                                else loaded.(loggedIn := false))
              && server.transport.handlers == (if free then old(server.transport.handlers)[username := transport]
                                               else old(server.transport.handlers)))
    {
      if loggedIn {
        return true;
      }
      var known := server.Authenticate(username, passwordHash);
      if !known {
        return false;
      }
      var loaded := LoadKeyPairFromDisk();
      if !loaded {
        return false;
      }
      loggedIn := transport.Connect(username);
      if loggedIn {
        registered := true;
      }
      return loggedIn;
    }

    method Logout()
      requires Wired()
      modifies this, transport, server.transport
      ensures Wired()
      ensures AsClient() == old(AsClient()).(loggedIn := false,
                                             link := if old(transport.connected) then M.Link(false, "")
                                                     else old(transport.Link()))
      ensures server.transport.handlers
              == if old(transport.connected) then old(server.transport.handlers) - {old(transport.username)}
                 else old(server.transport.handlers)
    {
      transport.Disconnect();
      loggedIn := false;
    }

    // ---------- sending ----------

    // The client that a message of this one reaches.
    ghost function Reached(toUser: string): ChatClient?
      reads this, transport, transport.server,
            if toUser in transport.server.handlers then {transport.server.handlers[toUser]} else {}
    {
      if transport.connected then transport.server.Listener(toUser) else null
    }

    // Sends m, marks it as delivered or sent, and stores it.  Of any clients, only the one reached changes.
    method Transmit(ghost all: seq<ChatClient>, m: Message) returns (stored: Message)
      requires Wired()
      modifies server, Only(Reached(m.receiver))
      ensures stored == if transport.connected && m.receiver in server.transport.handlers
                        then m.(status := DELIVERED) else m
      ensures server.State() == S.Store(old(server.State()), stored)
      ensures forall k | 0 <= k < |all| ::
              all[k].AsClient() == old(all[k].Hearing(Reached(m.receiver), transport.username, m))
    {
      var delivered := Deliver(all, m);
      stored := if delivered then m.(status := DELIVERED) else m;
      server.StoreMessage(stored);
    }

    method Deliver(ghost all: seq<ChatClient>, m: Message) returns (delivered: bool)
      requires Wired()
      modifies Only(Reached(m.receiver))
      ensures delivered == (transport.connected && m.receiver in server.transport.handlers)
      ensures forall k | 0 <= k < |all| ::
              all[k].AsClient() == old(all[k].Hearing(Reached(m.receiver), transport.username, m))
    {
      ghost var reached := Reached(m.receiver);
      delivered := transport.Send(m.receiver, Serialize(m));
      forall k | 0 <= k < |all|
        ensures all[k].AsClient() == old(all[k].Hearing(reached, transport.username, m))
      {
        if all[k] != reached {
          assert all[k].AsClient() == old(all[k].AsClient());
        }
      }
    }

    // What this client is after reached has heard m.
    ghost function Hearing(reached: ChatClient?, fromUser: string, m: Message): M.Client
      reads this, transport
    {
      if this == reached then M.Incoming(lib, AsClient(), fromUser, Serialize(m)) else AsClient()
    }

    // The same in a deployment in state sys: heard is what the clients are afterwards.
    method TransmitAmong(ghost d: Deployment, ghost sys: M.System, ghost i: nat, m: Message)
      returns (stored: Message, ghost heard: seq<M.Client>)
      requires d.HasClient(i, this) && d.Wired() && d.Represents(sys)
      modifies server, d.Clients()
      ensures heard == d.Heard(sys, i, m)
      ensures stored == if M.Reaches(sys, i, m.receiver) then m.(status := DELIVERED) else m
      ensures d.Represents(M.System(S.Store(sys.server, stored), sys.handlers, sys.keyFiles, heard))
    {
      heard := d.Heard(sys, i, m);
      d.HeardIsHearing(sys, i, m);
      stored := Transmit(d.clients, m);
      ghost var sys' := M.System(S.Store(sys.server, stored), sys.handlers, sys.keyFiles, heard);
      assert forall k | 0 <= k < |d.clients| :: d.ClientAgrees(sys', k);
    }

    // A step of the deployment that this client belongs to.
    method TransmitIn(ghost d: Deployment, ghost sys: M.System, ghost i: nat, m: Message) returns (stored: Message)
      requires d.HasClient(i, this) && d.Wired() && d.Represents(sys)
      modifies server, d.Clients()
      ensures d.Represents(M.Transmit(lib, sys, i, m).0) && stored == M.Transmit(lib, sys, i, m).1
    {
      d.Locate(i);
      ghost var heard;
      stored, heard := TransmitAmong(d, sys, i, m);
      d.HeardIsTransmit(sys, i, m, stored);
    }

    method SendMessage(ghost d: Deployment, ghost sys: M.System, ghost i: nat, toUser: string, plaintext: seq<byte>,
            coins: M.Coins)
      returns (ok: bool)
      requires d.HasClient(i, this) && d.Wired() && d.Represents(sys)
      modifies server, d.Clients()
      ensures d.Represents(M.Send(lib, sys, i, toUser, plaintext, coins).0)
      ensures ok == M.Send(lib, sys, i, toUser, plaintext, coins).1.Some?
    {
      d.Locate(i);
      assert d.ClientAgrees(sys, i);
      if !loggedIn {
        return false;
      }
      var receiverPublicKey := server.GetPublicKey(toUser);
      if receiverPublicKey == "" {
        return false;
      }
      var payload := lib.seal(plaintext, coins.sessionKey, coins.sealing);
      var wrapped := lib.wrap(receiverPublicKey, coins.sessionKey, coins.wrapping);
      var selfWrapped := lib.wrap(keyPair.publicKeyPem, coins.sessionKey, coins.selfWrapping);
      var message := Message(coins.messageId, username, toUser, "", wrapped, selfWrapped, payload,
                             coins.timestamp, SENT, false, false);
      var stored := TransmitIn(d, sys, i, message);
      return true;
    }

    method SendGroupMessage(ghost d: Deployment, ghost sys: M.System, ghost i: nat, groupId: string,
            plaintext: seq<byte>, coins: M.GroupCoins)
      returns (ok: bool)
      requires d.HasClient(i, this) && d.Wired() && d.Represents(sys)
      modifies server, d.Clients()
      ensures var all := S.Listing(S.Members(sys.server, groupId));
        && d.Represents(M.GroupSend(lib, sys, i, groupId, all, plaintext, coins).0)
        && ok == (M.GroupSend(lib, sys, i, groupId, all, plaintext, coins).1 != [])
    {
      d.Locate(i);
      assert d.ClientAgrees(sys, i);
      if !loggedIn {
        return false;
      }
      var members := server.GetGroupMembers(groupId);
      if members == [] {
        return false;
      }
      ok := SendCopies(d, sys, i, groupId, members, lib.seal(plaintext, coins.sessionKey, coins.sealing), coins);
    }

    // The loop over the members of the group.
    method SendCopies(ghost d: Deployment, ghost sys: M.System, ghost i: nat, groupId: string, members: seq<string>,
            payload: seq<byte>, coins: M.GroupCoins)
      returns (anySent: bool)
      requires d.HasClient(i, this) && d.Wired() && d.Represents(sys)
      modifies server, d.Clients()
      ensures d.Represents(M.SendCopies(lib, sys, i, groupId, payload, coins, members).0)
      ensures anySent == (M.SendCopies(lib, sys, i, groupId, payload, coins, members).1 != [])
    {
      anySent := false;
      ghost var done := M.SendCopies(lib, sys, i, groupId, payload, coins, []);
      for k := 0 to |members|
        invariant done == M.SendCopies(lib, sys, i, groupId, payload, coins, members[..k])
        invariant d.Represents(done.0) && anySent == (done.1 != [])
      {
        M.OneMoreMember(lib, sys, i, groupId, payload, coins, members, k);
        ghost var turn := M.SendCopy(lib, done.0, i, groupId, payload, coins.sessionKey, members[k], coins.copies(k));
        var sent := SendCopy(d, done.0, i, groupId, payload, coins.sessionKey, members[k], coins.copies(k));
        anySent := anySent || sent;
        done := (turn.0, done.1 + turn.1);
      }
      assert members[..|members|] == members;
    }

    method SendCopy(ghost d: Deployment, ghost sys: M.System, ghost i: nat, groupId: string, payload: seq<byte>,
            sessionKey: seq<byte>, member: string, coins: M.CopyCoins)
      returns (sent: bool)
      requires d.HasClient(i, this) && d.Wired() && d.Represents(sys)
      modifies server, d.Clients()
      ensures d.Represents(M.SendCopy(lib, sys, i, groupId, payload, sessionKey, member, coins).0)
      ensures sent == (M.SendCopy(lib, sys, i, groupId, payload, sessionKey, member, coins).1 != [])
    {
      d.Locate(i);
      assert d.ClientAgrees(sys, i);
      var receiverPublicKey := server.GetPublicKey(member);
      if receiverPublicKey == "" {
        return false;
      }
      var wrapped := lib.wrap(receiverPublicKey, sessionKey, coins.wrapping);
      var message := Message(coins.messageId, username, member, groupId, wrapped, [], payload,
                             coins.timestamp, SENT, true, false);
      var stored := TransmitIn(d, sys, i, message);
      return true;
    }

    // ---------- deleting and reading ----------

    method DeleteMessageForAll(messageId: string) returns (deleted: bool)
      modifies server
      ensures !loggedIn || messageId == "" ==> !deleted && server.State() == old(server.State())
      ensures loggedIn && messageId != "" ==>
                && (server.State(), deleted) == S.Delete(old(server.State()), username, messageId)
                && (forall m :: server.Holds(m) <==>
                      old(server.Holds(m)) && !(m.messageId == messageId && m.sender == username))
                && (deleted <==> exists m :: old(server.Holds(m)) && m.messageId == messageId && m.sender == username)
    {
      if !loggedIn || messageId == "" {
        return false;
      }
      deleted := server.DeleteMessageForAll(username, messageId);
    }

    method GetConversation(peer: string) returns (views: Option<seq<M.MessageView>>)
      ensures views == M.RevealAll(lib, AsClient(), S.Conversation(server.State(), username, peer))
    {
      var messages := server.GetConversation(username, peer);
      var out := [];
      for k := 0 to |messages|
        invariant M.RevealAll(lib, AsClient(), messages[..k]) == Some(out)
      {
        assert messages[..k + 1][..k] == messages[..k];
        var view := DecryptToView(messages[k]);
        if view.None? {
          NoneStays(lib, AsClient(), messages, k + 1);
          return None;
        }
        out := out + [view.value];
      }
      assert messages[..|messages|] == messages;
      return Some(out);
    }

    method GetGroupConversation(groupId: string) returns (views: Option<seq<M.MessageView>>)
      ensures views == M.RevealAll(lib, AsClient(),
                                     Filter(M.Addressed(username), S.GroupConversation(server.State(), groupId)))
    {
      var messages := server.GetGroupConversation(groupId);
      ghost var mine := M.Addressed(username);
      var out := [];
      for k := 0 to |messages|
        invariant M.RevealAll(lib, AsClient(), Filter(mine, messages[..k])) == Some(out)
      {
        OneMoreAddressed(lib, AsClient(), mine, messages, k);
        if messages[k].receiver == username {
          var view := DecryptToView(messages[k]);
          if view.None? {
            return None;
          }
          out := out + [view.value];
        }
      }
      assert messages[..|messages|] == messages;
      return Some(out);
    }
  }

  lemma OneMoreKept(mine: Message -> bool, messages: seq<Message>, k: nat)
    requires k < |messages|
    ensures Filter(mine, messages[..k + 1])
            == if mine(messages[k]) then Filter(mine, messages[..k]) + [messages[k]] else Filter(mine, messages[..k])
  {
    assert messages[..k + 1][..k] == messages[..k];
  }

  lemma RevealOneMore(lib: Library, c: M.Client, seen: seq<Message>, m: Message)
    requires M.RevealAll(lib, c, seen).Some?
    ensures M.RevealAll(lib, c, seen + [m])
            == match M.Reveal(lib, c.keys, c.username, m)
               case None => None
               case Some(text) => Some(M.RevealAll(lib, c, seen).value + [M.View(m, text)])
  {
    assert (seen + [m])[..|seen|] == seen;
  }

  // The turn of the loop for message k; if it cannot be read, there is no list at all.
  lemma OneMoreAddressed(lib: Library, c: M.Client, mine: Message -> bool, messages: seq<Message>, k: nat)
    requires k < |messages| && M.RevealAll(lib, c, Filter(mine, messages[..k])).Some?
    ensures var before, m := M.RevealAll(lib, c, Filter(mine, messages[..k])), messages[k];
      var after := M.RevealAll(lib, c, Filter(mine, messages[..k + 1]));
      && (!mine(m) ==> after == before)
      && (mine(m) ==>
            after == match M.Reveal(lib, c.keys, c.username, m)
                     case None => None
                     case Some(text) => Some(before.value + [M.View(m, text)]))
      && (after.None? ==> M.RevealAll(lib, c, Filter(mine, messages)).None?)
  {
    OneMoreKept(mine, messages, k);
    RevealOneMore(lib, c, Filter(mine, messages[..k]), messages[k]);
    FilterOfPrefix(mine, messages, k + 1);
    if M.RevealAll(lib, c, Filter(mine, messages[..k + 1])).None? {
      NoneStays(lib, c, Filter(mine, messages), |Filter(mine, messages[..k + 1])|);
    }
  }

  // An exception while one message is decrypted leaves the caller without a list.
  lemma {:induction false} NoneStays(lib: Library, c: M.Client, messages: seq<Message>, k: nat)
    requires k <= |messages| && M.RevealAll(lib, c, messages[..k]).None?
    ensures M.RevealAll(lib, c, messages).None?
    decreases |messages| - k
  {
    if k == |messages| {
      assert messages[..k] == messages;
    } else {
      assert messages[..k + 1][..k] == messages[..k];
      NoneStays(lib, c, messages, k + 1);
    }
  }

  lemma {:induction false} FilterOfPrefix<A>(p: A -> bool, s: seq<A>, k: nat)
    requires k <= |s|
    ensures |Filter(p, s[..k])| <= |Filter(p, s)| && Filter(p, s)[..|Filter(p, s[..k])|] == Filter(p, s[..k])
  {
    FilterConcat(p, s[..k], s[k..]);
    assert s == s[..k] + s[k..];
  }

  // ---------- the whole system ----------

  class Deployment {
    const lib: Library
    const server: ChatServer
    const disk: KeyDirectory
    var clients: seq<ChatClient>
    ghost var ops: seq<M.Op>
    ghost var world: M.World

    constructor (lib: Library)
      ensures Valid() && this.lib == lib && clients == [] && ops == []
      ensures fresh(this) && fresh(Parts())
    {
      this.lib := lib;
      server := new ChatServer();
      disk := new KeyDirectory();
      clients, ops, world := [], [], M.START;
    }

    // Everything but the deployment itself.
    ghost function Parts(): set<object>
      reads this`clients
    {
      {server, server.transport, disk} + Clients() + Links()
    }

    ghost function Clients(): set<ChatClient>
      reads this`clients
    {
      set k | 0 <= k < |clients| :: clients[k]
    }

    ghost function Links(): set<TcpClient>
      reads this`clients
    {
      set k | 0 <= k < |clients| :: clients[k].transport
    }

    ghost predicate HasClient(i: nat, c: ChatClient)
      reads this`clients
    {
      i < |clients| && clients[i] == c
    }

    ghost predicate WiredAt(k: nat)
      requires k < |clients|
      reads this`clients, clients[k].transport
    {
      var c := clients[k];
      c.server == server && c.disk == disk && c.lib == lib && c.Wired()
    }

    ghost predicate Wired()
      reads this`clients, Links()
    {
      && (forall j, k | 0 <= j < k < |clients| :: clients[j] != clients[k])
      && (forall k | 0 <= k < |clients| :: WiredAt(k))
    }

    // What a method of client i needs to know about its place in the deployment.
    lemma Locate(i: nat)
      requires Wired() && i < |clients|
      ensures WiredAt(i) && clients[i] in Clients() && clients[i].transport in Links()
      ensures forall k | 0 <= k < |clients| && k != i ::
              clients[k] != clients[i] && clients[k].transport != clients[i].transport
    {
      assert WiredAt(i);
      forall k | 0 <= k < |clients| && k != i
        ensures clients[k] != clients[i] && clients[k].transport != clients[i].transport
      {
        assert WiredAt(k);
      }
    }

    // The listener of a name is the client that the state says, and no other.
    lemma LocateListener(sys: M.System, u: string)
      requires Wired() && Represents(sys)
      ensures server.transport.Listener(u) == if u in sys.handlers then clients[sys.handlers[u]] else null
    {
      if u in sys.handlers {
        assert WiredAt(sys.handlers[u]);
      }
    }

    ghost predicate ClientAgrees(sys: M.System, k: nat)
      requires k < |clients|
      reads this`clients, clients[k], clients[k].transport
    {
      k < |sys.clients| && sys.clients[k] == clients[k].AsClient()
    }

    ghost predicate HandlersAgree(sys: M.System)
      reads this`clients, server.transport
    {
      && sys.handlers.Keys == server.transport.handlers.Keys
      && forall u | u in sys.handlers ::
           sys.handlers[u] < |clients| && server.transport.handlers[u] == clients[sys.handlers[u]].transport
    }

    // The objects are in the state sys.
    ghost predicate Represents(sys: M.System)
      reads this`clients, Parts()
    {
      && sys.server == server.State() && sys.keyFiles == disk.files && HandlersAgree(sys)
      && |sys.clients| == |clients| && forall k | 0 <= k < |clients| :: ClientAgrees(sys, k)
    }

    // What the clients are after client i has transmitted m.
    ghost function Heard(sys: M.System, i: nat, m: Message): seq<M.Client>
      requires i < |sys.clients|
    {
      if M.Reaches(sys, i, m.receiver) then
        var k := sys.handlers[m.receiver];
        sys.clients[k := M.Incoming(lib, sys.clients[k], sys.clients[i].link.username, Serialize(m))]
      else sys.clients
    }

    lemma HeardIsTransmit(sys: M.System, i: nat, m: Message, stored: Message)
      requires i < |sys.clients| && stored == if M.Reaches(sys, i, m.receiver) then m.(status := DELIVERED) else m
      ensures M.Transmit(lib, sys, i, m)
              == (M.System(S.Store(sys.server, stored), sys.handlers, sys.keyFiles, Heard(sys, i, m)), stored)
    {
    }

    lemma HeardIsHearing(sys: M.System, i: nat, m: Message)
      requires Wired() && Represents(sys) && i < |clients|
      ensures WiredAt(i) && clients[i].Reached(m.receiver) in Clients() + {null}
      ensures var link := clients[i].transport;
        && link.username == sys.clients[i].link.username
        && (M.Reaches(sys, i, m.receiver) <==> link.connected && m.receiver in server.transport.handlers)
        && forall k | 0 <= k < |clients| ::
             Heard(sys, i, m)[k] == clients[k].Hearing(clients[i].Reached(m.receiver), link.username, m)
    {
      Locate(i);
      LocateListener(sys, m.receiver);
      assert ClientAgrees(sys, i);
      if M.Reaches(sys, i, m.receiver) {
        Locate(sys.handlers[m.receiver]);
      }
      forall k | 0 <= k < |clients|
        ensures Heard(sys, i, m)[k]
                == clients[k].Hearing(clients[i].Reached(m.receiver), clients[i].transport.username, m)
      {
        assert ClientAgrees(sys, k);
      }
    }

    ghost predicate Valid()
      reads this, Parts()
    {
      Wired() && Represents(world.sys) && world == M.Run(lib, ops)
    }

    // An operation has been carried out on the objects.
    ghost method Record(op: M.Op, sys': M.System)
      requires Wired() && Represents(sys') && world == M.Run(lib, ops) && sys' == M.Step(lib, world, op).sys
      modifies this`ops, this`world
      ensures Valid() && ops == old(ops) + [op] && world == M.Step(lib, old(world), op)
    {
      assert (ops + [op])[..|ops|] == ops;
      world := M.Step(lib, world, op);
      ops := ops + [op];
    }

    // A change of client i, which may leave it as it was.
    lemma OneChanged(sys: M.System, sys': M.System, i: nat)
      requires i < |clients| && |sys.clients| == |clients|
      requires forall k | 0 <= k < |clients| && k != i :: ClientAgrees(sys, k)
      requires sys'.clients == sys.clients[i := clients[i].AsClient()]
      requires sys'.server == server.State() && sys'.keyFiles == disk.files && HandlersAgree(sys')
      ensures Represents(sys')
    {
      forall k | 0 <= k < |clients|
        ensures ClientAgrees(sys', k)
      {
        assert k != i ==> ClientAgrees(sys, k);
      }
    }

    // Client i bears the i-th name.
    lemma Named(i: nat)
      requires Valid() && i < |clients|
      ensures |A.Names(ops)| == |clients| == |M.Run(lib, ops).sys.clients| && clients[i].username == A.Names(ops)[i]
      ensures clients[i].loggedIn == M.Run(lib, ops).sys.clients[i].loggedIn
    {
      A.AccountsInRuns(lib, ops);
      assert ClientAgrees(world.sys, i) && A.NamedAt(world.sys, A.Names(ops), i);
    }

    // A client is logged in under a name.
    ghost predicate InUse(username: string)
      reads this`clients, Clients()
    {
      exists k | 0 <= k < |clients| :: clients[k].loggedIn && clients[k].username == username
    }

    lemma DeletionFinds(i: nat, id: string)
      requires Valid() && i < |clients|
      ensures Ideal(lib) && R.AllProper(lib, ops) ==>
                (M.DeleteForAll(world.sys, i, id).1 <==>
                  && clients[i].loggedIn && id != ""
                  && exists e :: e in world.log && e.m.messageId == id && e.m.sender == clients[i].username)
    {
      assert ClientAgrees(world.sys, i);
      if Ideal(lib) && R.AllProper(lib, ops) && clients[i].loggedIn && id != "" {
        R.SecuredInRuns(lib, ops);
        D.DeletionNow(lib, world.sys, world.log, i, id);
      }
    }

    // ---------- operations ----------

    method AddClient(username: string) returns (c: ChatClient)
      requires Valid()
      modifies this
      ensures Valid() && clients == old(clients) + [c] && ops == old(ops) + [M.NewClient(username)]
      ensures fresh(c) && fresh(c.transport)
    {
      c := new ChatClient(username, server, disk, lib);
      clients := clients + [c];
      ghost var sys' := world.sys.(clients := world.sys.clients + [M.Fresh(username)]);
      forall k | 0 <= k < |clients|
        ensures WiredAt(k) && ClientAgrees(sys', k)
      {
        if clients[k] != c {
          assert old(WiredAt(k)) && old(ClientAgrees(world.sys, k));
        }
      }
      Record(M.NewClient(username), sys');
    }

    method Register(i: nat, passwordHash: string, newKeys: KeyPair) returns (ok: bool)
      requires Valid() && i < |clients|
      modifies this`ops, this`world, clients[i], server, disk
      ensures Valid() && ops == old(ops) + [M.RegisterOp(i, passwordHash, newKeys)]
      ensures ok == M.Register(old(world.sys), i, passwordHash, newKeys).1
      ensures ok <==> A.AccountOf(old(ops), clients[i].username) == None
    {
      Named(i);
      A.RegistrationSucceedsExactly(lib, ops, i, passwordHash, newKeys);
      Locate(i);
      assert ClientAgrees(world.sys, i);
      ghost var sys' := M.Register(world.sys, i, passwordHash, newKeys).0;
      ok := clients[i].RegisterOnServer(passwordHash, newKeys);
      assert HandlersAgree(world.sys);
      OneChanged(world.sys, sys', i);
      Record(M.RegisterOp(i, passwordHash, newKeys), sys');
    }

    method Login(i: nat, passwordHash: string) returns (ok: bool)
      requires Valid() && i < |clients|
      modifies this`ops, this`world, clients[i], clients[i].transport, server.transport
      ensures Valid() && ops == old(ops) + [M.LoginOp(i, passwordHash)]
      ensures ok == M.Login(old(world.sys), i, passwordHash).1
      ensures ok <==>
                || old(clients[i].loggedIn)
                || (var account := A.AccountOf(old(ops), clients[i].username);
                    account.Some? && account.value.passwordHash == passwordHash && !old(InUse(clients[i].username)))
    {
      Named(i);
      OnlineAs(clients[i].username);
      A.LoginSucceedsExactly(lib, ops, i, passwordHash);
      ghost var sys' := M.Login(world.sys, i, passwordHash).0;
      ok := LoginOf(i, passwordHash, world.sys);
      Record(M.LoginOp(i, passwordHash), sys');
    }

    method LoginOf(i: nat, passwordHash: string, ghost sys: M.System) returns (ok: bool)
      requires Wired() && Represents(sys) && i < |clients|
      modifies clients[i], clients[i].transport, server.transport
      ensures Wired() && Represents(M.Login(sys, i, passwordHash).0) && ok == M.Login(sys, i, passwordHash).1
    {
      Locate(i);
      assert ClientAgrees(sys, i);
      ok := clients[i].Login(passwordHash);
      OneChanged(sys, M.Login(sys, i, passwordHash).0, i);
    }

    method Logout(i: nat)
      requires Valid() && i < |clients|
      modifies this`ops, this`world, clients[i], clients[i].transport, server.transport
      ensures Valid() && ops == old(ops) + [M.LogoutOp(i)]
    {
      Locate(i);
      assert ClientAgrees(world.sys, i);
      ghost var sys' := M.Logout(world.sys, i);
      clients[i].Logout();
      OneChanged(world.sys, sys', i);
      Record(M.LogoutOp(i), sys');
    }

    method DeleteMessageForAll(i: nat, messageId: string) returns (deleted: bool)
      requires Valid() && i < |clients|
      modifies this`ops, this`world, server
      ensures Valid() && ops == old(ops) + [M.DeleteOp(i, messageId)]
      ensures deleted == M.DeleteForAll(old(world.sys), i, messageId).1
      ensures Ideal(lib) && R.AllProper(lib, old(ops)) ==>
                (deleted <==> && clients[i].loggedIn && messageId != ""
                              && exists e :: e in old(world.log) && e.m.messageId == messageId
                                             && e.m.sender == clients[i].username)
    {
      Locate(i);
      DeletionFinds(i, messageId);
      assert ClientAgrees(world.sys, i);
      deleted := clients[i].DeleteMessageForAll(messageId);
      assert HandlersAgree(world.sys);
      ghost var sys' := M.DeleteForAll(world.sys, i, messageId).0;
      OneChanged(world.sys, sys', i);
      Record(M.DeleteOp(i, messageId), sys');
    }

    method CreateGroup(i: nat, groupName: string, members: seq<string>) returns (id: Option<string>)
      requires Valid() && i < |clients|
      modifies this`ops, this`world, server
      ensures Valid() && ops == old(ops) + [M.CreateGroupOp(i, groupName, members)]
      ensures id == S.CreateGroup(old(server.State()), clients[i].username, groupName, members).1
    {
      Locate(i);
      assert ClientAgrees(world.sys, i);
      id := server.CreateGroup(clients[i].username, groupName, members);
      assert HandlersAgree(world.sys);
      ghost var sys' := world.sys.(server := server.State());
      OneChanged(world.sys, sys', i);
      Record(M.CreateGroupOp(i, groupName, members), sys');
    }

    method SendMessage(i: nat, toUser: string, plaintext: seq<byte>, coins: M.Coins) returns (ok: bool)
      requires Valid() && i < |clients|
      modifies this`ops, this`world, server, Clients()
      ensures Valid() && ops == old(ops) + [M.SendOp(i, toUser, plaintext, coins)]
      ensures ok == M.Send(lib, old(world.sys), i, toUser, plaintext, coins).1.Some?
      ensures Ideal(lib) && R.AllProper(lib, old(ops)) ==>
                (ok <==> old(clients[i].loggedIn) && A.AccountOf(old(ops), toUser).Some?)
    {
      Locate(i);
      Named(i);
      if Ideal(lib) && R.AllProper(lib, ops) {
        T.DirectSendIsLogged(lib, ops, i, toUser, plaintext, coins);
      }
      ghost var sys' := M.Send(lib, world.sys, i, toUser, plaintext, coins).0;
      ok := clients[i].SendMessage(this, world.sys, i, toUser, plaintext, coins);
      Record(M.SendOp(i, toUser, plaintext, coins), sys');
    }

    method SendGroupMessage(i: nat, groupId: string, plaintext: seq<byte>, coins: M.GroupCoins) returns (ok: bool)
      requires Valid() && i < |clients|
      modifies this`ops, this`world, server, Clients()
      ensures Valid() && ops == old(ops) + [M.GroupSendOp(i, groupId, plaintext, coins)]
      ensures var sys := old(world.sys);
        ok == (M.GroupSend(lib, sys, i, groupId, S.Listing(S.Members(sys.server, groupId)), plaintext, coins).1 != [])
    {
      Locate(i);
      ghost var all := S.Listing(S.Members(world.sys.server, groupId));
      ghost var sys' := M.GroupSend(lib, world.sys, i, groupId, all, plaintext, coins).0;
      ok := clients[i].SendGroupMessage(this, world.sys, i, groupId, plaintext, coins);
      Record(M.GroupSendOp(i, groupId, plaintext, coins), sys');
    }

    // ---------- what the theorems say of the objects ----------

    // In every reachable state, a name is online exactly when a client is logged in under it.
    method IsOnline(username: string) returns (online: bool)
      requires Valid()
      ensures online <==> exists k | 0 <= k < |clients| :: clients[k].loggedIn && clients[k].username == username
    {
      online := server.transport.IsOnline(username);
      L.OneHolder(lib, ops, username);
      OnlineAs(username);
    }

    lemma OnlineAs(username: string)
      requires Valid()
      ensures (exists i :: L.LoggedInAs(world.sys, i, username)) <==> InUse(username)
    {
      if i :| L.LoggedInAs(world.sys, i, username) {
        assert ClientAgrees(world.sys, i);
        assert clients[i].loggedIn && clients[i].username == username;
      }
      if k :| 0 <= k < |clients| && clients[k].loggedIn && clients[k].username == username {
        assert ClientAgrees(world.sys, k);
        assert L.LoggedInAs(world.sys, k, username);
      }
    }

    // In every reachable state, a logged-in client gets its conversation as the log records it.
    method GetConversation(i: nat, peer: string) returns (views: Option<seq<M.MessageView>>)
      requires Valid() && i < |clients|
      ensures Ideal(lib) && R.AllProper(lib, ops) && clients[i].loggedIn ==>
                T.ShowsConversation(views, world.log, clients[i].username, peer)
    {
      Locate(i);
      assert ClientAgrees(world.sys, i);
      views := clients[i].GetConversation(peer);
      if Ideal(lib) && R.AllProper(lib, ops) && clients[i].loggedIn {
        R.SecuredInRuns(lib, ops);
        T.ConversationShows(lib, world.sys, world.log, i, peer);
      }
    }

    // In every reachable state, a logged-in client gets the copies on record that are addressed to it.  If
    // no deletion led to the state, these are all accepted messages for a member of the group, and nothing
    // for anybody else.
    method GetGroupConversation(i: nat, group: string) returns (views: Option<seq<M.MessageView>>)
      requires Valid() && i < |clients|
      ensures Ideal(lib) && R.AllProper(lib, ops) && clients[i].loggedIn ==>
                T.ShowsGroup(views, world.log, group, clients[i].username)
      ensures Ideal(lib) && R.AllProper(lib, ops) && T.WithoutDeletions(ops) && clients[i].loggedIn ==>
                && views.Some?
                && Map(T.SentView(), views.value)
                   == if clients[i].username in S.Members(server.State(), group)
                      then Filter(T.OfAccepted(group), world.sends)
                      else []
    {
      Locate(i);
      assert ClientAgrees(world.sys, i);
      views := clients[i].GetGroupConversation(group);
      if Ideal(lib) && R.AllProper(lib, ops) && clients[i].loggedIn {
        T.GroupListShows(lib, ops, i, group);
      }
      if Ideal(lib) && R.AllProper(lib, ops) && T.WithoutDeletions(ops) && clients[i].loggedIn {
        T.MembersReadTheSame(lib, ops, i, group);
      }
    }
  }
}
