/**
  The wire format of the messenger: eleven fields separated by bars.

  The separator is not escaped.  A message survives the round trip exactly when its four text fields
  contain no bar; otherwise the receiver counts too many fields and rejects the wire.
 */
module MessageProtocol {
  import opened Common
  import opened Decimal
  import Base64

  type int32 = x: int | -0x8000_0000 <= x < 0x8000_0000
  type int64 = x: int | -0x8000_0000_0000_0000 <= x < 0x8000_0000_0000_0000

  // The status travels as the number behind the enumeration.
  const SENT: int32 := 0
  const DELIVERED: int32 := 1

  datatype Message = Message(
    messageId: string,
    sender: string,
    receiver: string,
    chatId: string,
    encryptedSessionKey: seq<byte>,
    encryptedSelfSessionKey: seq<byte>,
    encryptedPayload: seq<byte>,
    timestamp: int64,
    status: int32,
    isGroupMessage: bool,
    deletedForAll: bool
  )

  datatype Error = FieldCount | InvalidNumber | NumberOutOfRange | InvalidBase64

  datatype Result<+T> = Ok(value: T) | Err(error: Error)
  {
    predicate IsFailure() {
      Err?
    }

    function PropagateFailure<U>(): Result<U>
      requires Err?
    {
      Err(error)
    }

    function Extract(): T
      requires Ok?
    {
      value
    }
  }

  // ---------- splitting and joining ----------

  function Count(s: string, d: char): nat {
    if s == "" then 0 else Count(s[..|s| - 1], d) + if s[|s| - 1] == d then 1 else 0
  }

  // The parts after one more character has been read.
  function Grown(parts: seq<string>, d: char, c: char): (grown: seq<string>)
    requires parts != []
    ensures grown != []
  {
    if c == d then parts + [""] else parts[..|parts| - 1] + [parts[|parts| - 1] + [c]]
  }

  // The parts of text between the delimiters, empty ones included.
  function Split(text: string, d: char): (parts: seq<string>)
    ensures parts != []
  {
    if text == "" then [""] else Grown(Split(text[..|text| - 1], d), d, text[|text| - 1])
  }

  function Join(parts: seq<string>, d: char): string
    requires parts != []
  {
    var n := |parts| - 1;
    if n == 0 then parts[0] else Join(parts[..n], d) + [d] + parts[n]
  }

  function Total(parts: seq<string>, d: char): nat {
    if parts == [] then 0 else Total(parts[..|parts| - 1], d) + Count(parts[|parts| - 1], d)
  }

  lemma {:induction false} CountConcat(s: string, t: string, d: char)
    ensures Count(s + t, d) == Count(s, d) + Count(t, d)
  {
    if t == "" {
      assert s + t == s;
    } else {
      CountConcat(s, t[..|t| - 1], d);
      assert (s + t)[..|s + t| - 1] == s + t[..|t| - 1];
    }
  }

  lemma {:induction false} CountZero(s: string, d: char)
    ensures Count(s, d) == 0 <==> d !in s
  {
    if s != "" {
      CountZero(s[..|s| - 1], d);
      assert s == s[..|s| - 1] + [s[|s| - 1]];
    }
  }

  lemma {:induction false} SplitSize(text: string, d: char)
    ensures |Split(text, d)| == 1 + Count(text, d)
  {
    if text != "" {
      SplitSize(text[..|text| - 1], d);
    }
  }

  // Splitting a joined text gives one part more for every delimiter hidden in a part.
  lemma {:induction false} SplitCount(parts: seq<string>, d: char)
    requires parts != []
    ensures |Split(Join(parts, d), d)| == |parts| + Total(parts, d)
  {
    SplitSize(Join(parts, d), d);
    var n := |parts| - 1;
    if n > 0 {
      SplitCount(parts[..n], d);
      SplitSize(Join(parts[..n], d), d);
      CountConcat(Join(parts[..n], d) + [d], parts[n], d);
      CountConcat(Join(parts[..n], d), [d], d);
    }
  }

  lemma SplitGrows(text: string, parts: seq<string>, last: string, d: char, c: char)
    requires Split(text, d) == parts + [last]
    ensures Split(text + [c], d) == if c == d then (parts + [last]) + [""] else parts + [last + [c]]
  {
    assert (text + [c])[..|text|] == text;
    assert (parts + [last])[..|parts|] == parts;
  }

  // Text without delimiters only grows the last part.
  lemma {:induction false} SplitSuffix(s: string, parts: seq<string>, last: string, t: string, d: char)
    requires d !in t && Split(s, d) == parts + [last]
    ensures Split(s + t, d) == parts + [last + t]
  {
    if t == "" {
      assert s + t == s && last + t == last;
    } else {
      var u, c := t[..|t| - 1], t[|t| - 1];
      SplitSuffix(s, parts, last, u, d);
      SplitGrows(s + u, parts, last + u, d, c);
      SplitOffLast(t);
      Assoc(s, u, [c]);
      Assoc(last, u, [c]);
    }
  }

  // Parts without delimiters come back unchanged.
  lemma {:induction false} SplitOfJoin(parts: seq<string>, d: char)
    requires parts != [] && forall p | p in parts :: d !in p
    ensures Split(Join(parts, d), d) == parts
  {
    var n := |parts| - 1;
    if n == 0 {
      SplitSuffix("", [], "", parts[0], d);
      assert "" + parts[0] == parts[0] && [] + [parts[0]] == parts;
    } else {
      SplitOfJoin(parts[..n], d);
      SplitAppend(Join(parts[..n], d), parts[..n], parts[n], d);
      SplitOffLast(parts);
    }
  }

  lemma SplitAppend(s: string, parts: seq<string>, t: string, d: char)
    requires parts != [] && Split(s, d) == parts && d !in t
    ensures Split(s + [d] + t, d) == parts + [t]
  {
    var n := |parts| - 1;
    SplitOffLast(parts);
    SplitGrows(s, parts[..n], parts[n], d, d);
    SplitSuffix(s + [d], parts, "", t, d);
    assert "" + t == t;
  }

  method SplitText(text: string, delimiter: char) returns (parts: seq<string>)
    ensures parts == Split(text, delimiter)
  {
    parts := [];
    var current := "";
    for i := 0 to |text|
      invariant Split(text[..i], delimiter) == parts + [current]
    {
      var ch := text[i];
      SplitGrows(text[..i], parts, current, delimiter, ch);
      assert text[..i + 1] == text[..i] + [ch];
      if ch == delimiter {
        parts := parts + [current];
        current := "";
      } else {
        current := current + [ch];
      }
    }
    assert text[..|text|] == text;
    parts := parts + [current];
  }

  // ---------- std::stoll and std::stoi ----------

  function SkipSpaces(s: string): string {
    if s != "" && Base64.IsSpace(s[0]) then SkipSpaces(s[1..]) else s
  }

  function LeadingDigits(s: string): (n: nat)
    ensures n <= |s|
  {
    if s != "" && IsDigit(s[0]) then 1 + LeadingDigits(s[1..]) else 0
  }

  lemma {:induction false} LeadingAreDigits(s: string)
    ensures AllDigits(s[..LeadingDigits(s)])
  {
    if s != "" && IsDigit(s[0]) {
      LeadingAreDigits(s[1..]);
      assert s[..LeadingDigits(s)] == [s[0]] + s[1..][..LeadingDigits(s[1..])];
    }
  }

  // White space, an optional sign and at least one digit; whatever follows is ignored.
  function ParseInteger(s: string): Option<int> {
    var t := SkipSpaces(s);
    var signed := t != "" && (t[0] == '-' || t[0] == '+');
    match ParseNatural(if signed then t[1..] else t)
    case None => None
    case Some(n) => Some(if signed && t[0] == '-' then -(n as int) else n as int)
  }

  function ParseNatural(s: string): Option<nat> {
    LeadingAreDigits(s);
    if LeadingDigits(s) == 0 then None else Some(Value(s[..LeadingDigits(s)]))
  }

  // A sign and digits are read up to the first character that is not a digit.
  lemma IntegerIsRead(d: string, rest: string)
    requires d != "" && AllDigits(d) && (rest != "" ==> !IsDigit(rest[0]))
    ensures ParseInteger(d + rest) == Some(Value(d) as int)
    ensures ParseInteger(['-'] + (d + rest)) == Some(-(Value(d) as int))
    ensures ParseInteger(['+'] + (d + rest)) == Some(Value(d) as int)
  {
    NaturalIsRead(d, rest);
    assert (d + rest)[0] == d[0];
    SignIsRead('-', d + rest);
    SignIsRead('+', d + rest);
  }

  lemma NaturalIsRead(d: string, rest: string)
    requires d != "" && AllDigits(d) && (rest != "" ==> !IsDigit(rest[0]))
    ensures ParseNatural(d + rest) == Some(Value(d))
  {
    DigitsUpTo(d, rest);
  }

  lemma SignIsRead(sign: char, t: string)
    requires sign == '-' || sign == '+'
    ensures ParseInteger([sign] + t) ==
            match ParseNatural(t)
            case None => None
            case Some(n) => Some(if sign == '-' then -(n as int) else n as int)
  {
    assert ([sign] + t)[1..] == t;
  }

  // White space in front is skipped.
  lemma SpaceIsSkipped(c: char, s: string)
    requires c in " \t\n\U{000B}\U{000C}\r"
    ensures ParseInteger([c] + s) == ParseInteger(s)
  {
    Base64.SkippedChars(c);
    assert ([c] + s)[1..] == s;
  }

  // Without a digit there, nothing is read.
  lemma NothingIsRead(rest: string)
    requires rest != "" ==> !IsDigit(rest[0]) && rest[0] != '-' && rest[0] != '+' && !Base64.IsSpace(rest[0])
    ensures ParseInteger(rest) == None && ParseInteger(['-'] + rest) == None && ParseInteger(['+'] + rest) == None
  {
    SignIsRead('-', rest);
    SignIsRead('+', rest);
  }

  lemma {:induction false} DigitsUpTo(d: string, rest: string)
    requires AllDigits(d) && (rest != "" ==> !IsDigit(rest[0]))
    ensures LeadingDigits(d + rest) == |d| && (d + rest)[..|d|] == d
  {
    if d != "" {
      DigitsUpTo(d[1..], rest);
      assert (d + rest)[1..] == d[1..] + rest;
    } else {
      assert d + rest == rest;
    }
  }

  function Stoll(s: string): Result<int64> {
    match ParseInteger(s)
    case None => Err(InvalidNumber)
    case Some(n) => if -0x8000_0000_0000_0000 <= n < 0x8000_0000_0000_0000 then Ok(n) else Err(NumberOutOfRange)
  }

  function Stoi(s: string): Result<int32> {
    match ParseInteger(s)
    case None => Err(InvalidNumber)
    case Some(n) => if -0x8000_0000 <= n < 0x8000_0000 then Ok(n) else Err(NumberOutOfRange)
  }

  lemma {:induction false} AllLeading(s: string)
    requires AllDigits(s)
    ensures LeadingDigits(s) == |s|
  {
    if s != "" {
      AllLeading(s[1..]);
    }
  }

  lemma NaturalParses(n: nat)
    ensures ParseNatural(Numeral(n)) == Some(n)
  {
    NumeralIsCanonical(n);
    AllLeading(Numeral(n));
    assert Numeral(n)[..|Numeral(n)|] == Numeral(n);
  }

  lemma NumeralParses(n: int)
    ensures ParseInteger(SignedNumeral(n)) == Some(n)
    ensures '|' !in SignedNumeral(n)
  {
    var m := if n < 0 then -n else n;
    NaturalParses(m);
    assert IsDigit(Numeral(m)[0]);
    assert n < 0 ==> SignedNumeral(n)[1..] == Numeral(m);
  }

  // ---------- serialize and deserialize ----------

  const BAR: char := '|'

  function Flag(b: bool): string {
    if b then "1" else "0"
  }

  // The fields in the order in which they are written.
  function Field(m: Message, i: nat): string
    requires i < 11
  {
    if i == 0 then m.messageId
    else if i == 1 then m.sender
    else if i == 2 then m.receiver
    else if i == 3 then m.chatId
    else if i == 4 then SignedNumeral(m.timestamp)
    else if i == 5 then SignedNumeral(m.status)
    else if i == 6 then Flag(m.isGroupMessage)
    else if i == 7 then Flag(m.deletedForAll)
    else if i == 8 then Base64.Encode(m.encryptedSessionKey)
    else if i == 9 then Base64.Encode(m.encryptedPayload)
    else Base64.Encode(m.encryptedSelfSessionKey)
  }

  function Fields(m: Message): (fields: seq<string>)
    ensures |fields| == 11
  {
    seq(11, i requires 0 <= i < 11 => Field(m, i))
  }

  // The fields, one by one, and the numbers that stand for flags and statuses.
  lemma FieldList(m: Message)
    ensures Fields(m)[..6]
            == [m.messageId, m.sender, m.receiver, m.chatId, SignedNumeral(m.timestamp), SignedNumeral(m.status)]
    ensures Fields(m)[6..8] == [if m.isGroupMessage then "1" else "0", if m.deletedForAll then "1" else "0"]
    ensures Fields(m)[8..] ==
            [Base64.Encode(m.encryptedSessionKey), Base64.Encode(m.encryptedPayload),
             Base64.Encode(m.encryptedSelfSessionKey)]
    ensures SENT == 0 && DELIVERED == 1
  {
  }

  function Serialize(m: Message): string {
    Envelope(m) + [BAR]
    + Base64.Encode(m.encryptedSessionKey) + [BAR] + Base64.Encode(m.encryptedPayload) + [BAR]
    + Base64.Encode(m.encryptedSelfSessionKey)
  }

  // The fields before the encrypted ones.
  function Envelope(m: Message): string {
    Heading(m) + [BAR] + Flag(m.isGroupMessage) + [BAR] + Flag(m.deletedForAll)
  }

  function Heading(m: Message): string {
    m.messageId + [BAR] + m.sender + [BAR] + m.receiver + [BAR] + m.chatId + [BAR]
    + SignedNumeral(m.timestamp) + [BAR] + SignedNumeral(m.status)
  }

  lemma JoinStep(fields: seq<string>, k: nat)
    requires 0 < k < |fields|
    ensures Join(fields[..k + 1], BAR) == Join(fields[..k], BAR) + [BAR] + fields[k]
  {
    assert fields[..k + 1][..k] == fields[..k];
  }

  lemma HeadingIsJoin(m: Message)
    ensures Heading(m) == Join(Fields(m)[..6], BAR)
  {
    var f := Fields(m);
    JoinStep(f, 1);
    JoinStep(f, 2);
    JoinStep(f, 3);
    JoinStep(f, 4);
    JoinStep(f, 5);
  }

  lemma EnvelopeIsJoin(m: Message)
    ensures Envelope(m) == Join(Fields(m)[..8], BAR)
  {
    var f := Fields(m);
    HeadingIsJoin(m);
    JoinStep(f, 6);
    JoinStep(f, 7);
  }

  // The wire joins the fields; without the last one it is a wire of the older format.
  lemma SerializeIsJoin(m: Message)
    ensures Serialize(m) == Join(Fields(m), BAR)
  {
    EnvelopeIsJoin(m);
    LastThree(Fields(m));
  }

  lemma LastThree(f: seq<string>)
    requires |f| == 11
    ensures Join(f, BAR) == Join(f[..8], BAR) + [BAR] + f[8] + [BAR] + f[9] + [BAR] + f[10]
  {
    JoinStep(f, 8);
    JoinStep(f, 9);
    JoinStep(f, 10);
    assert f[..11] == f;
  }

  function Decoded(s: string): Result<seq<byte>> {
    match Base64.Decode(s)
    case Some(d) => Ok(d)
    case None => Err(InvalidBase64)
  }

  // The exceptions are raised in the order of the fields.
  function Deserialize(wire: string): Result<Message> {
    var parts := Split(wire, BAR);
    if |parts| != 10 && |parts| != 11 then Err(FieldCount) else ReadParts(parts)
  }

  function ReadParts(parts: seq<string>): Result<Message>
    requires 10 <= |parts| <= 11
  {
    var timestamp :- Stoll(parts[4]);
    var status :- Stoi(parts[5]);
    var isGroup :- Stoi(parts[6]);
    var deleted :- Stoi(parts[7]);
    var sessionKey :- Decoded(parts[8]);
    var payload :- Decoded(parts[9]);
    var selfKey :- if |parts| == 11 then Decoded(parts[10]) else Ok([]);
    Ok(Message(parts[0], parts[1], parts[2], parts[3], sessionKey, selfKey, payload, timestamp, status,
               isGroup != 0, deleted != 0))
  }

  // What a wire text must look like to be read, and what is then read.
  lemma DeserializeReads(wire: string, m: Message)
    requires Deserialize(wire) == Ok(m)
    ensures var parts := Split(wire, '|');
      && (|parts| == 10 || |parts| == 11)
      && m.messageId == parts[0] && m.sender == parts[1] && m.receiver == parts[2] && m.chatId == parts[3]
      && ParseInteger(parts[4]) == Some(m.timestamp as int) && ParseInteger(parts[5]) == Some(m.status as int)
      && IsFlag(parts[6], m.isGroupMessage) && IsFlag(parts[7], m.deletedForAll)
      && Base64.Decode(parts[8]) == Some(m.encryptedSessionKey) && Base64.Decode(parts[9]) == Some(m.encryptedPayload)
      && (if |parts| == 11 then Base64.Decode(parts[10]) == Some(m.encryptedSelfSessionKey)
          else m.encryptedSelfSessionKey == [])
  {
    var parts := Split(wire, '|');
    StoiReads(parts[5]);
    StoiReads(parts[6]);
    StoiReads(parts[7]);
    FlagReads(parts[6], m.isGroupMessage);
    FlagReads(parts[7], m.deletedForAll);
  }

  // A flag is a number, and set unless it is zero.
  ghost predicate IsFlag(part: string, set': bool) {
    ParseInteger(part).Some? && (set' <==> ParseInteger(part).value != 0)
  }

  lemma StoiReads(part: string)
    ensures Stoi(part).Ok? ==> ParseInteger(part) == Some(Stoi(part).value as int)
  {
  }

  lemma FlagReads(part: string, set': bool)
    requires Stoi(part).Ok? && (set' <==> Stoi(part).value != 0)
    ensures IsFlag(part, set')
  {
  }

  // Which error is raised: the first in the order of the fields.
  lemma DeserializeFails(wire: string, parts: seq<string>)
    requires parts == Split(wire, '|')
    ensures |parts| != 10 && |parts| != 11 <==> Deserialize(wire) == Err(FieldCount)
    ensures Deserialize(wire) == Err(InvalidNumber) ==> exists i | 4 <= i < 8 :: ParseInteger(parts[i]) == None
    ensures Deserialize(wire) == Err(InvalidBase64) ==> exists i | 8 <= i < |parts| :: Base64.Decode(parts[i]) == None
  {
  }

  method DeserializeWire(wireData: string) returns (r: Result<Message>)
    ensures r == Deserialize(wireData)
  {
    var parts := SplitText(wireData, BAR);
    if |parts| != 10 && |parts| != 11 {
      return Err(FieldCount);
    }
    var timestamp :- Stoll(parts[4]);
    var status :- Stoi(parts[5]);
    var isGroup :- Stoi(parts[6]);
    var deleted :- Stoi(parts[7]);
    var sessionKey :- DecodeField(parts[8]);
    var payload :- DecodeField(parts[9]);
    var selfKey := [];
    if |parts| == 11 {
      selfKey :- DecodeField(parts[10]);
    }
    return Ok(Message(parts[0], parts[1], parts[2], parts[3], sessionKey, selfKey, payload, timestamp, status,
                      isGroup != 0, deleted != 0));
  }

  method DecodeField(s: string) returns (r: Result<seq<byte>>)
    ensures r == Decoded(s)
  {
    var d := Base64.Base64Decode(s);
    r := match d case Some(data) => Ok(data) case None => Err(InvalidBase64);
  }

  // ---------- the round trip ----------

  ghost predicate BarFree(m: Message) {
    BAR !in m.messageId && BAR !in m.sender && BAR !in m.receiver && BAR !in m.chatId
  }

  lemma EncodeHasNoBar(d: seq<byte>)
    ensures BAR !in Base64.Encode(d)
  {
    var v, p := Base64.Sextets(d), Base64.Padding(|d|);
    forall i | 0 <= i < |Base64.Encode(d)|
      ensures Base64.Encode(d)[i] != BAR
    {
      if i < |v| {
        assert Base64.Encode(d)[i] == Base64.Base64Char(v[i]);
      } else {
        assert Base64.Encode(d)[i] == p[i - |v|];
      }
    }
  }

  // Only the text fields can hold a bar.
  lemma OtherFields(m: Message)
    ensures forall i | 4 <= i < 11 :: BAR !in Fields(m)[i]
  {
    forall i | 4 <= i < 11
      ensures BAR !in Field(m, i)
    {
      NumberFields(m);
      EncodeHasNoBar(m.encryptedSessionKey);
      EncodeHasNoBar(m.encryptedPayload);
      EncodeHasNoBar(m.encryptedSelfSessionKey);
    }
  }

  lemma NumberFields(m: Message)
    ensures BAR !in SignedNumeral(m.timestamp) && BAR !in SignedNumeral(m.status)
    ensures BAR !in Flag(m.isGroupMessage) && BAR !in Flag(m.deletedForAll)
  {
    NumeralParses(m.timestamp);
    NumeralParses(m.status);
  }

  lemma TextFields(m: Message)
    requires BarFree(m)
    ensures forall f | f in Fields(m) :: BAR !in f
  {
    OtherFields(m);
    forall i | 0 <= i < 11
      ensures BAR !in Fields(m)[i]
    {
    }
  }

  lemma FlagParses(b: bool)
    ensures Stoi(Flag(b)) == Ok(if b then 1 else 0)
  {
    NumeralParses(0);
    NumeralParses(1);
  }

  lemma NumbersDecode(m: Message)
    ensures Stoll(SignedNumeral(m.timestamp)) == Ok(m.timestamp) && Stoi(SignedNumeral(m.status)) == Ok(m.status)
    ensures Stoi(Flag(m.isGroupMessage)) == Ok(if m.isGroupMessage then 1 else 0)
    ensures Stoi(Flag(m.deletedForAll)) == Ok(if m.deletedForAll then 1 else 0)
  {
    NumeralParses(m.timestamp);
    NumeralParses(m.status);
    FlagParses(m.isGroupMessage);
    FlagParses(m.deletedForAll);
  }

  lemma FieldsAreRead(m: Message, parts: seq<string>)
    requires 10 <= |parts| <= 11
    requires parts[0] == m.messageId && parts[1] == m.sender && parts[2] == m.receiver && parts[3] == m.chatId
    requires Stoll(parts[4]) == Ok(m.timestamp) && Stoi(parts[5]) == Ok(m.status)
    requires Stoi(parts[6]) == Ok(if m.isGroupMessage then 1 else 0)
    requires Stoi(parts[7]) == Ok(if m.deletedForAll then 1 else 0)
    requires Decoded(parts[8]) == Ok(m.encryptedSessionKey) && Decoded(parts[9]) == Ok(m.encryptedPayload)
    requires |parts| == 11 ==> Decoded(parts[10]) == Ok(m.encryptedSelfSessionKey)
    ensures ReadParts(parts) == Ok(if |parts| == 11 then m else m.(encryptedSelfSessionKey := []))
  {
  }

  lemma NumberParts(m: Message, parts: seq<string>)
    requires |parts| >= 8 && forall i | 4 <= i < 8 :: parts[i] == Field(m, i)
    ensures Stoll(parts[4]) == Ok(m.timestamp) && Stoi(parts[5]) == Ok(m.status)
    ensures Stoi(parts[6]) == Ok(if m.isGroupMessage then 1 else 0)
    ensures Stoi(parts[7]) == Ok(if m.deletedForAll then 1 else 0)
  {
    NumbersDecode(m);
  }

  lemma DataParts(m: Message, parts: seq<string>)
    requires 10 <= |parts| <= 11
    requires parts[8] == Base64.Encode(m.encryptedSessionKey) && parts[9] == Base64.Encode(m.encryptedPayload)
    requires |parts| == 11 ==> parts[10] == Base64.Encode(m.encryptedSelfSessionKey)
    ensures Decoded(parts[8]) == Ok(m.encryptedSessionKey) && Decoded(parts[9]) == Ok(m.encryptedPayload)
    ensures |parts| == 11 ==> Decoded(parts[10]) == Ok(m.encryptedSelfSessionKey)
  {
    DataPart(parts[8], m.encryptedSessionKey);
    DataPart(parts[9], m.encryptedPayload);
    if |parts| == 11 {
      DataPart(parts[10], m.encryptedSelfSessionKey);
    }
  }

  lemma DataPart(part: string, d: seq<byte>)
    requires part == Base64.Encode(d)
    ensures Decoded(part) == Ok(d)
  {
    Base64.Base64RoundTrip(d);
  }

  // Reading the fields of m, with or without the last one.
  lemma PartsAreRead(m: Message, parts: seq<string>)
    requires 10 <= |parts| <= 11 && forall i | 0 <= i < |parts| :: parts[i] == Field(m, i)
    ensures ReadParts(parts) == Ok(if |parts| == 11 then m else m.(encryptedSelfSessionKey := []))
  {
    NumberParts(m, parts);
    assert parts[8] == Field(m, 8) && parts[9] == Field(m, 9) && (|parts| == 11 ==> parts[10] == Field(m, 10));
    DataParts(m, parts);
    FieldsAreRead(m, parts);
  }

  lemma {:induction false} TotalPositive(parts: seq<string>, i: nat, d: char)
    requires i < |parts| && d in parts[i]
    ensures Total(parts, d) > 0
  {
    var n := |parts| - 1;
    CountZero(parts[n], d);
    if i < n {
      TotalPositive(parts[..n], i, d);
    }
  }

  lemma BarredIsRejected(m: Message)
    requires !BarFree(m)
    ensures Deserialize(Serialize(m)) == Err(FieldCount)
  {
    SerializeIsJoin(m);
    var f := Fields(m);
    var i := if BAR in f[0] then 0 else if BAR in f[1] then 1 else if BAR in f[2] then 2 else 3;
    TotalPositive(f, i, BAR);
    SplitCount(f, BAR);
  }

  lemma BarFreeIsRead(m: Message)
    requires BarFree(m)
    ensures Deserialize(Serialize(m)) == Ok(m)
  {
    SerializeIsJoin(m);
    TextFields(m);
    SplitOfJoin(Fields(m), BAR);
    PartsAreRead(m, Fields(m));
  }

  // For every message the wire is read back as the message itself or rejected for its field count,
  // and it is read back exactly when no text field contains a bar.
  lemma WireRoundTrip(m: Message)
    ensures Deserialize(Serialize(m)) == Ok(m) || Deserialize(Serialize(m)) == Err(FieldCount)
    ensures Deserialize(Serialize(m)) == Ok(m) <==> BarFree(m)
  {
    if BarFree(m) {
      BarFreeIsRead(m);
    } else {
      BarredIsRejected(m);
    }
  }

  // A wire of the older format, without the sender's own key, is read with that key left empty.
  lemma LegacyWire(m: Message)
    requires BarFree(m)
    ensures Deserialize(Join(Fields(m)[..10], BAR)) == Ok(m.(encryptedSelfSessionKey := []))
  {
    TextFields(m);
    var parts := Fields(m)[..10];
    assert forall p | p in parts :: p in Fields(m);
    SplitOfJoin(parts, BAR);
    PartsAreRead(m, parts);
  }
}
