/**
  The state of the chat server and its operations as functions of that state.

  The server keeps one history per conversation key and one per group.  The main result is that these
  keyed histories are views of one flat log: whatever is stored and deleted, the conversation of two
  users is the log restricted to their unordered pair, and the conversation of a group is the log
  restricted to the group.  This needs user names without ':', because the key joins two names by "::".
 */
module ChatState {
  import opened Common
  import opened Decimal
  import opened MessageProtocol

  datatype UserRecord = UserRecord(passwordHash: string, publicKeyPem: string)

  datatype GroupRecord = GroupRecord(groupName: string, owner: string, members: set<string>)

  type History = map<string, seq<Message>>

  datatype Server = Server(
    users: map<string, UserRecord>,
    groups: map<string, GroupRecord>,
    history: History,
    groupHistory: History,
    nextGroupId: nat
  )

  const EMPTY: Server := Server(map[], map[], map[], map[], 1)

  // ---------- conversation keys ----------

  // The order of std::string.
  predicate LexLe(a: string, b: string) {
    a == "" || (b != "" && (a[0] < b[0] || (a[0] == b[0] && LexLe(a[1..], b[1..]))))
  }

  lemma {:induction false} LexTotal(a: string, b: string)
    ensures LexLe(a, b) || LexLe(b, a)
    ensures LexLe(a, b) && LexLe(b, a) ==> a == b
  {
    if a != "" && b != "" && a[0] == b[0] {
      LexTotal(a[1..], b[1..]);
      assert a == [a[0]] + a[1..] && b == [b[0]] + b[1..];
    }
  }

  lemma {:induction false} LexTransitive(a: string, b: string, c: string)
    requires LexLe(a, b) && LexLe(b, c)
    ensures LexLe(a, c)
  {
    if a != "" && b != "" && c != "" && a[0] == b[0] == c[0] {
      LexTransitive(a[1..], b[1..], c[1..]);
    }
  }

  // The texts differ, and a has the smaller character at the first difference.
  predicate SmallerAtFirst(a: string, b: string) {
    exists k | 0 <= k < |a| && k < |b| :: a[..k] == b[..k] && a[k] < b[k]
  }

  lemma SmallerInTail(a: string, b: string)
    requires a != "" && b != "" && a[0] == b[0]
    ensures SmallerAtFirst(a, b) <==> SmallerAtFirst(a[1..], b[1..])
  {
    var a', b' := a[1..], b[1..];
    if k :| 0 <= k < |a'| && k < |b'| && a'[..k] == b'[..k] && a'[k] < b'[k] {
      assert a[..k + 1] == [a[0]] + a'[..k] && b[..k + 1] == [b[0]] + b'[..k];
      assert a[k + 1] < b[k + 1];
    }
    if k :| 0 <= k < |a| && k < |b| && a[..k] == b[..k] && a[k] < b[k] {
      assert a'[..k - 1] == a[..k][1..] && b'[..k - 1] == b[..k][1..];
    }
  }

  lemma SmallerAtHead(a: string, b: string)
    requires a != "" && b != "" && a[0] != b[0]
    ensures SmallerAtFirst(a, b) <==> a[0] < b[0]
  {
    if a[0] < b[0] {
      assert a[..0] == b[..0];
    }
    if k :| 0 <= k < |a| && k < |b| && a[..k] == b[..k] && a[k] < b[k] {
      assert k > 0 ==> a[..k][0] == b[..k][0];
    }
  }

  // The first difference decides, and a prefix comes first.
  lemma {:induction false} LexMeans(a: string, b: string)
    ensures LexLe(a, b) <==> a <= b || exists k | 0 <= k < |a| && k < |b| :: a[..k] == b[..k] && a[k] < b[k]
  {
    if a != "" && b != "" {
      if a[0] == b[0] {
        LexMeans(a[1..], b[1..]);
        SmallerInTail(a, b);
        assert a == [a[0]] + a[1..] && b == [b[0]] + b[1..];
      } else {
        SmallerAtHead(a, b);
      }
    }
  }

  function ConversationKey(a: string, b: string): string {
    if LexLe(a, b) then a + "::" + b else b + "::" + a
  }

  predicate SamePair(a: string, b: string, c: string, d: string) {
    (a == c && b == d) || (a == d && b == c)
  }

  lemma KeySymmetric(a: string, b: string)
    ensures ConversationKey(a, b) == ConversationKey(b, a)
  {
    LexTotal(a, b);
  }

  // Without ':' in a and b, the only place where "::" occurs in the joined text is between them.
  lemma JoinedOnce(a: string, b: string, c: string, d: string)
    requires ':' !in a && ':' !in b && a + "::" + b == c + "::" + d
    ensures a == c && b == d
  {
    var s := a + "::" + b;
    assert forall i | 0 <= i < |s| :: s[i] == ':' <==> i == |a| || i == |a| + 1;
    assert s[|c|] == ':' && s[|c| + 1] == ':';
    assert |c| == |a|;
    assert a == s[..|a|] && c == s[..|c|];
    assert b == s[|a| + 2..] && d == s[|c| + 2..];
  }

  // Two names without ':' share their key with no other pair, whatever that pair contains.
  lemma KeyIdentifiesPair(a: string, b: string, c: string, d: string)
    requires ':' !in a && ':' !in b
    ensures ConversationKey(a, b) == ConversationKey(c, d) <==> SamePair(a, b, c, d)
  {
    KeySymmetric(a, b);
    KeySymmetric(c, d);
    if ConversationKey(a, b) == ConversationKey(c, d) {
      var (x, y) := if LexLe(a, b) then (a, b) else (b, a);
      var (u, v) := if LexLe(c, d) then (c, d) else (d, c);
      JoinedOnce(x, y, u, v);
    }
  }

  predicate Over(name: string, alphabet: set<char>) {
    forall i | 0 <= i < |name| :: name[i] in alphabet
  }

  // Keys tell all pairs of names over an alphabet apart if and only if ':' is not in the alphabet.
  lemma KeysAreInjectiveIff(alphabet: set<char>)
    ensures (forall a, b, c, d | Over(a, alphabet) && Over(b, alphabet) && Over(c, alphabet) && Over(d, alphabet)
               && ConversationKey(a, b) == ConversationKey(c, d) :: SamePair(a, b, c, d))
            <==> ':' !in alphabet
  {
    if ':' in alphabet {
      assert Over(":", alphabet) && Over("::", alphabet) && Over("", alphabet) && Over(":::", alphabet);
      assert LexLe(":", "::") && ConversationKey(":", "::") == ":::::";
      assert ConversationKey("", ":::") == ":::::";
      assert !SamePair(":", "::", "", ":::");
    } else {
      forall a, b, c, d | Over(a, alphabet) && Over(b, alphabet) && Over(c, alphabet) && Over(d, alphabet)
          && ConversationKey(a, b) == ConversationKey(c, d)
        ensures SamePair(a, b, c, d)
      {
        KeyIdentifiesPair(a, b, c, d);
      }
    }
  }

  // ---------- users and groups ----------

  function RegisterUser(s: Server, name: string, passwordHash: string, publicKeyPem: string): (Server, bool) {
    if name in s.users then (s, false)
    else (s.(users := s.users[name := UserRecord(passwordHash, publicKeyPem)]), true)
  }

  predicate Authenticate(s: Server, name: string, passwordHash: string) {
    name in s.users && s.users[name].passwordHash == passwordHash
  }

  function PublicKey(s: Server, name: string): string {
    if name in s.users then s.users[name].publicKeyPem else ""
  }

  function GroupId(n: nat, name: string): string {
    "group-" + Numeral(n) + "-" + name
  }

  function CreateGroup(s: Server, owner: string, name: string, members: seq<string>): (Server, Option<string>) {
    if owner !in s.users then (s, None) else
      var record := GroupRecord(name, owner, {owner} + set m | m in members && m in s.users);
      var id := GroupId(s.nextGroupId, name);
      // emplace keeps an existing record
      (s.(groups := if id in s.groups then s.groups else s.groups[id := record], nextGroupId := s.nextGroupId + 1),
       Some(id))
  }

  function Members(s: Server, group: string): set<string> {
    if group in s.groups then s.groups[group].members else {}
  }

  function GroupsOf(s: Server, name: string): set<string> {
    set id | id in s.groups && name in s.groups[id].members
  }

  // The counter ends at the first '-' after the prefix, so an identifier determines counter and name.
  lemma GroupIdInjective(n: nat, name: string, n': nat, name': string)
    requires GroupId(n, name) == GroupId(n', name')
    ensures n == n' && name == name'
  {
    var a, a' := Numeral(n), Numeral(n');
    var s, s' := a + "-" + name, a' + "-" + name';
    Assoc("group-" + a, "-", name);
    Assoc("group-", a, "-" + name);
    Assoc(a, "-", name);
    Assoc("group-" + a', "-", name');
    Assoc("group-", a', "-" + name');
    Assoc(a', "-", name');
    assert GroupId(n, name) == "group-" + s && GroupId(n', name') == "group-" + s';
    assert s == GroupId(n, name)[6..] && s' == GroupId(n', name')[6..];
    FirstDash(a, name, a', name');
    NumeralIsCanonical(n);
    NumeralIsCanonical(n');
  }

  lemma FirstDash(a: string, b: string, a': string, b': string)
    requires AllDigits(a) && AllDigits(a') && a + "-" + b == a' + "-" + b'
    ensures a == a' && b == b'
  {
    var s := a + "-" + b;
    assert s[|a|] == '-' && s[|a'|] == '-';
    assert forall i | 0 <= i < |a| :: s[i] == a[i] && IsDigit(s[i]);
    assert forall i | 0 <= i < |a'| :: s[i] == a'[i] && IsDigit(s[i]);
    assert |a| == |a'|;
    assert a == s[..|a|] && a' == s[..|a'|];
    assert b == s[|a| + 1..] && b' == s[|a'| + 1..];
  }

  // Group identifiers carry counters below the next one.
  ghost predicate Numbered(s: Server) {
    forall id | id in s.groups :: exists n: nat, name :: n < s.nextGroupId && id == GroupId(n, name)
  }

  // A created group is a new one: its record is stored and no other group is touched.
  lemma CreatedGroupIsNew(s: Server, owner: string, name: string, members: seq<string>)
    requires Numbered(s) && owner in s.users
    ensures var (s', id) := CreateGroup(s, owner, name, members);
      && Numbered(s') && id.Some? && id.value !in s.groups
      && s'.groups.Keys == s.groups.Keys + {id.value}
      && (forall g | g in s.groups :: s'.groups[g] == s.groups[g])
      && s'.groups[id.value].owner == owner && s'.groups[id.value].groupName == name
      && forall m :: m in s'.groups[id.value].members <==> m == owner || (m in members && m in s.users)
  {
    var id := GroupId(s.nextGroupId, name);
    if id in s.groups {
      var n: nat, other :| n < s.nextGroupId && id == GroupId(n, other);
      GroupIdInjective(s.nextGroupId, name, n, other);
    }
    var s' := CreateGroup(s, owner, name, members).0;
    forall g | g in s'.groups
      ensures exists n: nat, other :: n < s'.nextGroupId && g == GroupId(n, other)
    {
      if g in s.groups {
        var n: nat, other :| n < s.nextGroupId && g == GroupId(n, other);
        assert n < s'.nextGroupId;
      }
    }
  }

  // ---------- sorted listings ----------

  // s in ascending order, without repetition.
  ghost predicate IsListing(list: seq<string>, s: set<string>) {
    && (forall i, j | 0 <= i < j < |list| :: list[i] != list[j] && LexLe(list[i], list[j]))
    && (forall x :: x in list <==> x in s)
  }

  function Insert(x: string, list: seq<string>): seq<string> {
    if list == [] then [x] else if LexLe(x, list[0]) then [x] + list else [list[0]] + Insert(x, list[1..])
  }

  lemma {:induction false} InsertListing(x: string, list: seq<string>, s: set<string>)
    requires IsListing(list, s) && x !in s
    ensures IsListing(Insert(x, list), s + {x})
  {
    if list == [] {
    } else if LexLe(x, list[0]) {
      forall j | 0 < j < |list| + 1
        ensures LexLe(x, ([x] + list)[j])
      {
        if j > 1 {
          LexTransitive(x, list[0], list[j - 1]);
        }
      }
    } else {
      var rest, head := list[1..], list[0];
      LexTotal(x, head);
      assert list == [head] + rest;
      InsertListing(x, rest, s - {head});
      assert (s - {head} + {x}) + {head} == s + {x};
      ConsListing(head, Insert(x, rest), s - {head} + {x});
    }
  }

  lemma ConsListing(x: string, list: seq<string>, s: set<string>)
    requires IsListing(list, s) && forall y | y in s :: y != x && LexLe(x, y)
    ensures IsListing([x] + list, s + {x})
  {
  }

  ghost function Listing(s: set<string>): (list: seq<string>)
    ensures IsListing(list, s)
  {
    if s == {} then [] else
      var x :| x in s;
      var rest := Listing(s - {x});
      InsertListing(x, rest, s - {x});
      assert s - {x} + {x} == s;
      Insert(x, rest)
  }

  lemma {:induction false} ListingSize(list: seq<string>, s: set<string>)
    requires IsListing(list, s)
    ensures |list| == |s|
  {
    if list == [] {
      assert s == {};
    } else {
      HeadIsLeast(list, s);
      ListingSize(list[1..], s - {list[0]});
    }
  }

  // There is only one listing, so sorting is deterministic.
  lemma {:induction false} ListingIsUnique(a: seq<string>, b: seq<string>, s: set<string>)
    requires IsListing(a, s) && IsListing(b, s)
    ensures a == b
    decreases |a|
  {
    ListingSize(a, s);
    ListingSize(b, s);
    if a == [] {
    } else {
      HeadIsLeast(a, s);
      HeadIsLeast(b, s);
      LexTotal(a[0], b[0]);
      assert a == [a[0]] + a[1..] && b == [b[0]] + b[1..];
      ListingIsUnique(a[1..], b[1..], s - {a[0]});
    }
  }

  lemma HeadIsLeast(a: seq<string>, s: set<string>)
    requires IsListing(a, s) && a != []
    ensures a[0] in s && forall x | x in s :: x == a[0] || LexLe(a[0], x)
    ensures IsListing(a[1..], s - {a[0]})
  {
    assert a[0] in a;
    forall x | x in s
      ensures x == a[0] || LexLe(a[0], x)
    {
      var i :| 0 <= i < |a| && a[i] == x;
    }
    assert a == [a[0]] + a[1..];
  }

  // ---------- histories ----------

  function Lookup(h: History, key: string): seq<Message> {
    if key in h then h[key] else []
  }

  function Store(s: Server, m: Message): Server {
    if m.isGroupMessage then
      s.(groupHistory := s.groupHistory[m.chatId := Lookup(s.groupHistory, m.chatId) + [m]])
    else
      var key := ConversationKey(m.sender, m.receiver);
      s.(history := s.history[key := Lookup(s.history, key) + [m]])
  }

  function Conversation(s: Server, a: string, b: string): seq<Message> {
    Lookup(s.history, ConversationKey(a, b))
  }

  function GroupConversation(s: Server, group: string): seq<Message> {
    Lookup(s.groupHistory, group)
  }

  // ---------- deletion ----------

  predicate Hit(m: Message, requester: string, id: string) {
    m.messageId == id && m.sender == requester
  }

  function Missed(requester: string, id: string): Message -> bool {
    (m: Message) => !Hit(m, requester, id)
  }

  // What erase-remove leaves of every vector of a history.
  function Erased(h: History, requester: string, id: string): History {
    map key | key in h :: Filter(Missed(requester, id), h[key])
  }

  predicate Shrinks(h: History, requester: string, id: string) {
    exists key | key in h :: |Filter(Missed(requester, id), h[key])| != |h[key]|
  }

  function Delete(s: Server, requester: string, id: string): (Server, bool) {
    (s.(history := Erased(s.history, requester, id), groupHistory := Erased(s.groupHistory, requester, id)),
     Shrinks(s.history, requester, id) || Shrinks(s.groupHistory, requester, id))
  }

  // Some vector of a history contains m.
  ghost predicate Holds(h: History, m: Message) {
    exists key :: key in h && m in h[key]
  }

  // Erasing takes out the messages with that id and sender and no others, and shrinks a vector exactly
  // when there is such a message.
  lemma ErasedMeans(h: History, requester: string, id: string)
    ensures forall m :: Holds(Erased(h, requester, id), m) <==>
              Holds(h, m) && !(m.messageId == id && m.sender == requester)
    ensures Shrinks(h, requester, id) <==> exists m :: Holds(h, m) && m.messageId == id && m.sender == requester
  {
    forall key | key in h
      ensures key in Erased(h, requester, id)
      ensures forall m :: m in Erased(h, requester, id)[key] <==> m in h[key] && !Hit(m, requester, id)
      ensures |Filter(Missed(requester, id), h[key])| == |h[key]| <==> forall m | m in h[key] :: !Hit(m, requester, id)
    {
      FilterMembers(Missed(requester, id), h[key]);
    }
    forall m
      ensures Holds(Erased(h, requester, id), m) <==> Holds(h, m) && !Hit(m, requester, id)
    {
      if key :| key in h && m in h[key] && !Hit(m, requester, id) {
        assert m in Erased(h, requester, id)[key];
      }
    }
    ShrinksMeans(h, requester, id);
  }

  lemma ShrinksMeans(h: History, requester: string, id: string)
    ensures Shrinks(h, requester, id) <==> exists m :: Holds(h, m) && m.messageId == id && m.sender == requester
  {
    if key :| key in h && |Filter(Missed(requester, id), h[key])| != |h[key]| {
      FilterMembers(Missed(requester, id), h[key]);
      var m :| m in h[key] && Hit(m, requester, id);
      assert Holds(h, m);
    }
    if m :| Holds(h, m) && Hit(m, requester, id) {
      var key :| key in h && m in h[key];
      FilterMembers(Missed(requester, id), h[key]);
    }
  }

  // ---------- the flat log ----------

  function Between(a: string, b: string): Message -> bool {
    (m: Message) => !m.isGroupMessage && SamePair(a, b, m.sender, m.receiver)
  }

  function OfGroup(group: string): Message -> bool {
    (m: Message) => m.isGroupMessage && m.chatId == group
  }

  ghost predicate Refines(s: Server, log: seq<Message>) {
    && (forall a, b :: Conversation(s, a, b) == Filter(Between(a, b), log))
    && (forall group :: GroupConversation(s, group) == Filter(OfGroup(group), log))
    && (forall m | m in log && !m.isGroupMessage :: ':' !in m.sender && ':' !in m.receiver)
    // every key in use belongs to a message that was stored under it
    && (forall key | key in s.history :: exists a, b :: key == ConversationKey(a, b))
  }

  lemma EmptyRefines()
    ensures Refines(EMPTY, [])
  {
  }

  ghost predicate Storable(m: Message) {
    m.isGroupMessage || (':' !in m.sender && ':' !in m.receiver)
  }

  lemma StoreRefines(s: Server, log: seq<Message>, m: Message)
    requires Refines(s, log) && Storable(m)
    ensures Refines(Store(s, m), log + [m])
  {
    var s' := Store(s, m);
    forall a, b
      ensures Conversation(s', a, b) == Filter(Between(a, b), log + [m])
    {
      FilterLast(Between(a, b), log, m);
      if !m.isGroupMessage {
        KeyIdentifiesPair(m.sender, m.receiver, a, b);
      }
    }
    forall group
      ensures GroupConversation(s', group) == Filter(OfGroup(group), log + [m])
    {
      FilterLast(OfGroup(group), log, m);
    }
  }

  lemma HitIsFound(s: Server, log: seq<Message>, requester: string, id: string, m: Message)
    requires Refines(s, log) && m in log && Hit(m, requester, id)
    ensures Shrinks(s.history, requester, id) || Shrinks(s.groupHistory, requester, id)
  {
    if m.isGroupMessage {
      FilterMembers(OfGroup(m.chatId), log);
      assert m in GroupConversation(s, m.chatId);
      FilterMembers(Missed(requester, id), s.groupHistory[m.chatId]);
    } else {
      var key := ConversationKey(m.sender, m.receiver);
      FilterMembers(Between(m.sender, m.receiver), log);
      assert m in Conversation(s, m.sender, m.receiver);
      FilterMembers(Missed(requester, id), s.history[key]);
    }
  }

  lemma FoundIsHit(s: Server, log: seq<Message>, requester: string, id: string) returns (m: Message)
    requires Refines(s, log)
    requires Shrinks(s.history, requester, id) || Shrinks(s.groupHistory, requester, id)
    ensures m in log && Hit(m, requester, id)
  {
    if Shrinks(s.history, requester, id) {
      var key :| key in s.history && |Filter(Missed(requester, id), s.history[key])| != |s.history[key]|;
      var a, b :| key == ConversationKey(a, b);
      FilterMembers(Missed(requester, id), s.history[key]);
      m :| m in s.history[key] && Hit(m, requester, id);
      assert m in Conversation(s, a, b);
      FilterMembers(Between(a, b), log);
    } else {
      var group :| group in s.groupHistory
          && |Filter(Missed(requester, id), s.groupHistory[group])| != |s.groupHistory[group]|;
      FilterMembers(Missed(requester, id), s.groupHistory[group]);
      m :| m in s.groupHistory[group] && Hit(m, requester, id);
      assert m in GroupConversation(s, group);
      FilterMembers(OfGroup(group), log);
    }
  }

  // Deletion removes from the log exactly the entries with that id and sender, and returns true
  // exactly when there is one.
  lemma DeleteRefines(s: Server, log: seq<Message>, requester: string, id: string)
    requires Refines(s, log)
    ensures Refines(Delete(s, requester, id).0, Filter(Missed(requester, id), log))
    ensures forall m :: m in Filter(Missed(requester, id), log) <==>
              m in log && !(m.messageId == id && m.sender == requester)
    ensures Delete(s, requester, id).1 <==> exists m :: m in log && m.messageId == id && m.sender == requester
  {
    var s' := Delete(s, requester, id).0;
    forall a, b
      ensures Conversation(s', a, b) == Filter(Between(a, b), Filter(Missed(requester, id), log))
    {
      FiltersCommute(Missed(requester, id), Between(a, b), log);
    }
    forall group
      ensures GroupConversation(s', group) == Filter(OfGroup(group), Filter(Missed(requester, id), log))
    {
      FiltersCommute(Missed(requester, id), OfGroup(group), log);
    }
    FilterMembers(Missed(requester, id), log);
    if Delete(s, requester, id).1 {
      var m := FoundIsHit(s, log, requester, id);
    }
    if m :| m in log && Hit(m, requester, id) {
      HitIsFound(s, log, requester, id, m);
    }
  }

  // ---------- any sequence of stores and deletions ----------

  datatype Operation = StoreMessage(m: Message) | DeleteMessage(requester: string, id: string)

  function Applied(s: Server, op: Operation): Server {
    match op
    case StoreMessage(m) => Store(s, m)
    case DeleteMessage(requester, id) => Delete(s, requester, id).0
  }

  function Logged(log: seq<Message>, op: Operation): seq<Message> {
    match op
    case StoreMessage(m) => log + [m]
    case DeleteMessage(requester, id) => Filter(Missed(requester, id), log)
  }

  function After(s: Server, ops: seq<Operation>): Server {
    if ops == [] then s else Applied(After(s, ops[..|ops| - 1]), ops[|ops| - 1])
  }

  function LogAfter(ops: seq<Operation>): seq<Message> {
    if ops == [] then [] else Logged(LogAfter(ops[..|ops| - 1]), ops[|ops| - 1])
  }

  lemma {:induction false} HistoriesRefineLog(ops: seq<Operation>)
    requires forall op | op in ops && op.StoreMessage? :: Storable(op.m)
    ensures Refines(After(EMPTY, ops), LogAfter(ops))
  {
    if ops == [] {
      EmptyRefines();
    } else {
      var before := ops[..|ops| - 1];
      HistoriesRefineLog(before);
      match ops[|ops| - 1]
      case StoreMessage(m) => StoreRefines(After(EMPTY, before), LogAfter(before), m);
      case DeleteMessage(requester, id) => DeleteRefines(After(EMPTY, before), LogAfter(before), requester, id);
    }
  }
}
