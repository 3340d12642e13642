/**
  Who has which account, told from the operations of a run alone.

  The first registration by a client of some name creates the account of that name.  No assumption on
  the cryptographic library or on names is needed.
 */
module MessengerAccounts {
  import opened Common
  import opened Crypto
  import opened ChatState
  import opened MessageProtocol
  import opened MessengerModel
  import opened MessengerLinks

  // The names of the clients, in the order in which they were made.
  function Names(ops: seq<Op>): seq<string> {
    if ops == [] then [] else
      var before, op := Names(ops[..|ops| - 1]), ops[|ops| - 1];
      if op.NewClient? then before + [op.username] else before
  }

  datatype Account = Account(passwordHash: string, keys: KeyPair)

  // The password hash and the keys of the first registration under a name.
  function AccountOf(ops: seq<Op>, name: string): Option<Account> {
    if ops == [] then None else
      var before, op := ops[..|ops| - 1], ops[|ops| - 1];
      if AccountOf(before, name).Some? then AccountOf(before, name)
      else if op.RegisterOp? && op.i < |Names(before)| && Names(before)[op.i] == name then
        Some(Account(op.passwordHash, op.newKeys))
      else None
  }

  // ---------- the invariant ----------

  ghost predicate NamedAt(sys: System, names: seq<string>, i: nat)
    requires i < |sys.clients| && i < |names|
  {
    sys.clients[i].username == names[i] && (sys.clients[i].registered ==> names[i] in sys.server.users)
  }

  ghost predicate AccountAt(sys: System, account: Option<Account>, u: string) {
    match account
    case None => u !in sys.server.users
    case Some(a) =>
      && u in sys.server.users && sys.server.users[u] == UserRecord(a.passwordHash, a.keys.publicKeyPem)
      && u in sys.keyFiles && sys.keyFiles[u] == a.keys
  }

  ghost predicate Recorded(sys: System, ops: seq<Op>) {
    && |sys.clients| == |Names(ops)|
    && (forall i | 0 <= i < |sys.clients| :: NamedAt(sys, Names(ops), i))
    && (forall u :: AccountAt(sys, AccountOf(ops, u), u))
  }

  lemma OneMoreOp(ops: seq<Op>, op: Op, u: string)
    ensures Names(ops + [op]) == if op.NewClient? then Names(ops) + [op.username] else Names(ops)
    ensures AccountOf(ops + [op], u) ==
            if AccountOf(ops, u).Some? then AccountOf(ops, u)
            else if op.RegisterOp? && op.i < |Names(ops)| && Names(ops)[op.i] == u then
              Some(Account(op.passwordHash, op.newKeys))
            else None
  {
    assert (ops + [op])[..|ops|] == ops;
  }

  // Operations that make no client and no account.
  lemma OthersKeep(sys: System, sys': System, ops: seq<Op>, op: Op)
    requires Recorded(sys, ops) && !op.NewClient? && (op.RegisterOp? ==> op.i >= |sys.clients|)
    requires sys'.server.users == sys.server.users && sys'.keyFiles == sys.keyFiles && |sys'.clients| == |sys.clients|
    requires forall i | 0 <= i < |sys.clients| :: sys'.clients[i].username == sys.clients[i].username
    requires forall i | 0 <= i < |sys.clients| ::
               sys'.clients[i].registered ==> sys.clients[i].registered || sys.clients[i].username in sys.server.users
    ensures Recorded(sys', ops + [op])
  {
    forall i | 0 <= i < |sys'.clients|
      ensures |Names(ops + [op])| == |sys'.clients| && NamedAt(sys', Names(ops + [op]), i)
    {
      OneMoreOp(ops, op, "");
      assert NamedAt(sys, Names(ops), i);
    }
    OneMoreOp(ops, op, "");
    forall u
      ensures AccountAt(sys', AccountOf(ops + [op], u), u)
    {
      OneMoreOp(ops, op, u);
      assert AccountAt(sys, AccountOf(ops, u), u);
    }
  }

  lemma RegisterKeeps(sys: System, ops: seq<Op>, i: nat, hash: string, newKeys: KeyPair)
    requires Recorded(sys, ops) && i < |sys.clients|
    ensures Recorded(Register(sys, i, hash, newKeys).0, ops + [RegisterOp(i, hash, newKeys)])
  {
    var op, sys' := RegisterOp(i, hash, newKeys), Register(sys, i, hash, newKeys).0;
    assert NamedAt(sys, Names(ops), i);
    OneMoreOp(ops, op, "");
    assert AccountAt(sys, AccountOf(ops, Names(ops)[i]), Names(ops)[i]);
    forall k | 0 <= k < |sys'.clients|
      ensures NamedAt(sys', Names(ops + [op]), k)
    {
      assert NamedAt(sys, Names(ops), k);
    }
    forall u
      ensures AccountAt(sys', AccountOf(ops + [op], u), u)
    {
      OneMoreOp(ops, op, u);
      assert AccountAt(sys, AccountOf(ops, u), u);
    }
  }

  lemma NewClientKeeps(sys: System, ops: seq<Op>, username: string)
    requires Recorded(sys, ops)
    ensures Recorded(sys.(clients := sys.clients + [Fresh(username)]), ops + [NewClient(username)])
  {
    var op, sys' := NewClient(username), sys.(clients := sys.clients + [Fresh(username)]);
    OneMoreOp(ops, op, "");
    forall k | 0 <= k < |sys'.clients|
      ensures NamedAt(sys', Names(ops + [op]), k)
    {
      assert k < |sys.clients| ==> NamedAt(sys, Names(ops), k);
    }
    forall u
      ensures AccountAt(sys', AccountOf(ops + [op], u), u)
    {
      OneMoreOp(ops, op, u);
      assert AccountAt(sys, AccountOf(ops, u), u);
    }
  }

  lemma DeliveryKeeps(sys: System, sys': System, ops: seq<Op>, op: Op)
    requires Recorded(sys, ops) && SameButEvents(sys, sys') && !op.NewClient? && !op.RegisterOp?
    ensures Recorded(sys', ops + [op])
  {
    forall i | 0 <= i < |sys.clients|
      ensures sys'.clients[i].username == sys.clients[i].username
      ensures sys'.clients[i].registered == sys.clients[i].registered
    {
      assert SameClient(sys.clients[i], sys'.clients[i]);
    }
    OthersKeep(sys, sys', ops, op);
  }

  lemma LoginKeeps(sys: System, ops: seq<Op>, i: nat, hash: string)
    requires Recorded(sys, ops) && i < |sys.clients|
    ensures Recorded(Login(sys, i, hash).0, ops + [LoginOp(i, hash)])
  {
    OthersKeep(sys, Login(sys, i, hash).0, ops, LoginOp(i, hash));
  }

  lemma LogoutKeeps(sys: System, ops: seq<Op>, i: nat)
    requires Recorded(sys, ops) && i < |sys.clients|
    ensures Recorded(Logout(sys, i), ops + [LogoutOp(i)])
  {
    OthersKeep(sys, Logout(sys, i), ops, LogoutOp(i));
  }

  lemma StepKeepsAccounts(lib: Library, w: World, ops: seq<Op>, op: Op)
    requires Recorded(w.sys, ops)
    ensures Recorded(Step(lib, w, op).sys, ops + [op])
  {
    var sys, sys' := w.sys, Step(lib, w, op).sys;
    if op.NewClient? {
      NewClientKeeps(sys, ops, op.username);
    } else if op.i >= |sys.clients| {
      OthersKeep(sys, sys', ops, op);
    } else {
      match op
      case RegisterOp(i, hash, newKeys) => RegisterKeeps(sys, ops, i, hash, newKeys);
      case SendOp(i, to, text, coins) => SendFrame(lib, sys, i, to, text, coins); DeliveryKeeps(sys, sys', ops, op);
      case GroupSendOp(i, group, text, coins) =>
        GroupSendFrame(lib, sys, i, group, Listing(Members(sys.server, group)), text, coins);
        DeliveryKeeps(sys, sys', ops, op);
      case LoginOp(i, hash) => LoginKeeps(sys, ops, i, hash);
      case LogoutOp(i) => LogoutKeeps(sys, ops, i);
      case _ => OthersKeep(sys, sys', ops, op);
    }
  }

  // In every run: client i bears the i-th name, and the server and the key directory hold exactly the
  // accounts that the operations created, with the hash and the keys of the first registration.
  lemma {:induction false} AccountsInRuns(lib: Library, ops: seq<Op>)
    ensures Recorded(Run(lib, ops).sys, ops)
  {
    if ops != [] {
      var before := ops[..|ops| - 1];
      AccountsInRuns(lib, before);
      StepKeepsAccounts(lib, Run(lib, before), before, ops[|ops| - 1]);
      assert before + [ops[|ops| - 1]] == ops;
    }
  }

  // ---------- getting in and out ----------

  // After every run, whatever the library and the names: a client that is not logged in gets in exactly
  // when the hash is the one that the account of its name was created with, and nobody is logged in
  // under the name.
  lemma LoginSucceedsExactly(lib: Library, ops: seq<Op>, i: nat, hash: string)
    requires i < |Names(ops)|
    ensures |Run(lib, ops).sys.clients| == |Names(ops)|
    ensures var sys, name := Run(lib, ops).sys, Names(ops)[i];
      Login(sys, i, hash).1 <==>
        || sys.clients[i].loggedIn
        || (AccountOf(ops, name).Some? && AccountOf(ops, name).value.passwordHash == hash
            && !exists k :: LoggedInAs(sys, k, name))
  {
    AccountsInRuns(lib, ops);
    LinksInRuns(lib, ops);
    LoginSucceedsNow(Run(lib, ops).sys, Names(ops), AccountOf(ops, Names(ops)[i]), i, hash);
  }

  lemma LoginSucceedsNow(sys: System, names: seq<string>, account: Option<Account>, i: nat, hash: string)
    requires Linked(sys) && i < |sys.clients| == |names| && NamedAt(sys, names, i) && AccountAt(sys, account, names[i])
    ensures Login(sys, i, hash).1 <==>
              || sys.clients[i].loggedIn
              || (account.Some? && account.value.passwordHash == hash && !exists k :: LoggedInAs(sys, k, names[i]))
  {
    assert LinkedAt(sys, i);
    LinkedMeansOneHolder(sys, names[i]);
  }

  // Registration succeeds exactly when the name has no account yet.
  lemma RegistrationSucceedsExactly(lib: Library, ops: seq<Op>, i: nat, hash: string, newKeys: KeyPair)
    requires i < |Names(ops)|
    ensures |Run(lib, ops).sys.clients| == |Names(ops)|
    ensures Register(Run(lib, ops).sys, i, hash, newKeys).1 <==> AccountOf(ops, Names(ops)[i]) == None
  {
    AccountsInRuns(lib, ops);
    var sys := Run(lib, ops).sys;
    assert NamedAt(sys, Names(ops), i) && AccountAt(sys, AccountOf(ops, Names(ops)[i]), Names(ops)[i]);
  }

  // A client that logs out is out, and its name is free if it was the holder.
  lemma LogoutEnds(lib: Library, ops: seq<Op>, i: nat)
    requires i < |Run(lib, ops).sys.clients|
    ensures var sys := Run(lib, ops).sys;
      var sys' := Logout(sys, i);
      && |sys'.clients| == |sys.clients| && !sys'.clients[i].loggedIn && !sys'.clients[i].link.connected
      && (sys.clients[i].loggedIn ==> sys.clients[i].username !in sys'.handlers)
  {
    LinksInRuns(lib, ops);
    assert LinkedAt(Run(lib, ops).sys, i);
  }
}
