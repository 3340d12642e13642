# Verification of the messenger and of the GoogleTest algorithms built with it

A Dafny model of the hard parts of the repository, with proofs for all inputs, all runs and all
reachable states. `dafny verify dfyconfig.toml` checks everything.

| file | models |
|---|---|
| `BipartiteMatching.dfy` | maximum bipartite matching and the two tests behind the unordered-elements matchers |
| `SimpleRegex.dfy` | the simple regular expression engine: validator, backtracking matcher, anchoring |
| `PrimeTables.dfy` | trial division, the sieve, and the hybrid prime table |
| `Shuffle.dfy` | the Fisher-Yates shuffle of a range |
| `Prerequisites.dfy` | the two worklists over expectation prerequisites |
| `Decimal.dfy` | printing 128-bit integers in decimal with 64-bit words |
| `StringLiteral.dfy` | printing strings as C++ literals |
| `Base64.dfy` | the base64 coder of the wire format and the independent decoder of GoogleMock |
| `MessageProtocol.dfy` | the wire format |
| `ChatState.dfy` | the chat server as functions of its state |
| `MessengerModel.dfy` | the whole messenger as a step system |
| `MessengerLinks.dfy`, `MessengerAccounts.dfy`, `MessengerReads.dfy` | what every run keeps: connections; accounts; keys and readable messages |
| `MessengerTheorems.dfy`, `MessengerDelivery.dfy`, `MessengerDeletion.dfy` | what every run promises: reading and sending; notifications; deletion |
| `Messenger.dfy` | the classes of the messenger, proved against the step system |
| `Crypto.dfy`, `Common.dfy` | the laws of an ideal cryptographic library; sequence lemmas |

## How the messenger is modelled

`Messenger.dfy` holds the classes of the program: the transport server and clients, the chat server,
the chat client. Their methods are proved against the functions of `ChatState.dfy` and
`MessengerModel.dfy`. A `Deployment` collects one server and any number of clients; its ghost fields
record the operations called and the state the step system is in after them, and its methods keep the
objects equal to that state. The theorems of the six files between them speak of all runs of the step
system, so they hold of the objects. Two records exist in the model only: `log` lists the stored
messages with the text each sender passed in, and `sends` lists the accepted group messages.

Assumptions, each in a contract:

- The cryptographic library is ideal (`Crypto.Ideal`): private-key decryption undoes public-key
  encryption, authenticated decryption undoes encryption with a 32-byte key, and public keys and
  wrapped keys are not empty.
- In a proper run (`MessengerModel.Proper`) generated keys are pairs, session keys have 32 bytes and
  user names contain no `:`. What holds of connections and of login needs none of this.
- Each mutex-guarded body is one step, and observers do not call back into the client during a
  delivery. Timestamps, message identifiers, random choices and password hashes are arguments. Texts
  are byte strings. Key files live in a map, and writing them succeeds.

## Where code and documentation disagree

The model follows the code.

- The repository's README (lines 150, 169, 204) promises that a deleted message disappears for all
  participants. For group messages it does not: every member's copy has an identifier of its own.
  `DeletedForAllIffAlone` says when the promise is kept, `ListsAfterDeletion` what everybody reads
  afterwards, and `OtherCopiesStay` gives a run in which another member still reads the message.
- `RE::Init` looks at the last character only, so a pattern ending in an escaped `$` is not anchored at
  the end. `FullMatchIsWholeMatch` is an equivalence, `EscapedDollarExample` an instance.
- `GetNextPrime` is documented as the smallest prime greater than p. For negative p the on-the-fly
  table returns -1, and the hybrid table 2 or -1 depending on its limit.
- Names joined by `::` are ambiguous once they may contain `:` (`KeysAreInjectiveIff`).
- A string field with a bar makes the wire text unreadable (`WireRoundTrip`). A direct message or a copy
  of a group message to somebody online then counts as delivered although nobody is notified
  (`DeliveryIsFaithful`, `GroupDeliveryIsFaithful`). Group names may contain one, and they are part of
  the group identifier.
- A NUL printed before an octal digit is read back as another character (`LiteralRoundTrip`).

## Model

| member | source | states |
|---|---|---|
| BipartiteMatching.FlipAugments | build-tests/_deps/googletest-src/googlemock/src/gmock-matchers.cc:86-107 | flipping an augmenting path keeps left and right mutually referent over graph edges, matches the source and the last right node in addition, and unmatches nobody |
| BipartiteMatching.PathLeavesClosed | build-tests/_deps/googletest-src/googlemock/src/gmock-matchers.cc:135-146 | an augmenting path never starts at a node whose edges all lead into a closed set of right nodes |
| BipartiteMatching.FlipKeepsClosed | build-tests/_deps/googletest-src/googlemock/src/gmock-matchers.cc:135-146 | a set that a failed search has left closed stays closed under every later augmentation, so one attempt per left node is enough |
| BipartiteMatching.MatchingBound | build-tests/_deps/googletest-src/googlemock/src/gmock-matchers.cc:135-146 | the König bound: if all edges of the unmatched left nodes lead into a closed set, no matching of the graph has more edges than there are matched left nodes |
| BipartiteMatching.SearchFromSource | build-tests/_deps/googletest-src/googlemock/src/gmock-matchers.cc:168-208 | a search from an unused left node: the invariant of lines 101-105 holds again, it returns true exactly when an augmenting path exists, only the searched node turns from unused to used, nothing is unmatched, a failure leaves a closed set, and a success keeps every closed set |
| BipartiteMatching.MaxBipartiteMatchState.constructor | build-tests/_deps/googletest-src/googlemock/src/gmock-matchers.cc:126-129 | all nodes start unused |
| BipartiteMatching.MaxBipartiteMatchState.TryAugment | build-tests/_deps/googletest-src/googlemock/src/gmock-matchers.cc:184-208 | every recursive call terminates (unseen right nodes decrease) and is a failed search that changes no match and expands all it marks, or a successful one that flips an augmenting path through nodes it has just marked |
| BipartiteMatching.MaxBipartiteMatchState.Compute | build-tests/_deps/googletest-src/googlemock/src/gmock-matchers.cc:132-163 | the pairs returned are a matching of the graph and no matching is larger |
| BipartiteMatching.FindMaxBipartiteMatching | build-tests/_deps/googletest-src/googlemock/src/gmock-matchers.cc:228-230 | returns a maximum matching for every matrix |
| BipartiteMatching.MaximumDecides | build-tests/_deps/googletest-src/googlemock/src/gmock-matchers.cc:437-453 | comparing the size of a maximum matching with the two sides decides whether a pairing exists: one that covers every matcher for Superset, every element for Subset, and both for ExactMatch |
| BipartiteMatching.FindPairing | build-tests/_deps/googletest-src/googlemock/src/gmock-matchers.cc:437-476 | true exactly when an injective pairing covers all matchers (Superset), all elements (Subset) or both (ExactMatch) |
| BipartiteMatching.CollectMatched | build-tests/_deps/googletest-src/googlemock/src/gmock-matchers.cc:391-400 | the two flag vectors say which rows and columns have an edge at all |
| BipartiteMatching.VerifyMatchMatrix | build-tests/_deps/googletest-src/googlemock/src/gmock-matchers.cc:370-435 | true exactly when no matcher (Superset) and no element (Subset) is without an edge and, for ExactMatch, both sides have the same size |
| BipartiteMatching.PairingPassesQuickTest | build-tests/_deps/googletest-src/googlemock/src/gmock-matchers.cc:370-435 | the quick test never rejects a matrix that has a pairing |
| BipartiteMatching.MatchAndExplain | build-tests/_deps/googletest-src/googlemock/include/gmock/gmock-matchers.h:3645-3653 | the conjunction of both tests is the existence of a pairing |
| BipartiteMatching.RawMatrix.SetEdge | build-tests/_deps/googletest-src/googlemock/include/gmock/gmock-matchers.h:3525-3544 | setting an edge sets that edge and leaves all others, because every pair of indices has a cell of its own |
| SimpleRegex.CharacterLists | build-tests/_deps/googletest-src/googletest/src/gtest-port.cc:730-751 | the character classes are the lists of the source |
| SimpleRegex.ClassAtoms | build-tests/_deps/googletest-src/googletest/src/gtest-port.cc:742-783 | an escaped d, s or w matches exactly the ten digits, the six white-space characters, or the 63 word characters; D, S and W match exactly the others |
| SimpleRegex.SingleAtoms | build-tests/_deps/googletest-src/googletest/src/gtest-port.cc:755-786 | the remaining atoms, each for one character: f, n, r, t and v for the control character they name, escaped punctuation and plain characters for themselves; the dot matches all but a newline |
| SimpleRegex.AtomSyntax | build-tests/_deps/googletest-src/googletest/src/gtest-port.cc:751-840 | a character may be escaped if it is in the list of punctuation or of class letters, and may stand for itself unless it is special |
| SimpleRegex.RepetitionLanguage | build-tests/_deps/googletest-src/googletest/src/gtest-port.cc:856-875 | an atom with ?, *, + or none of them matches the words of matching characters of length at most one, any, at least one, exactly one |
| SimpleRegex.ParseIffPrinted | build-tests/_deps/googletest-src/googletest/src/gtest-port.cc:796-847 | the grammar: a string parses to a pattern exactly when the pattern is well formed and prints as that string, so each valid regex has one reading |
| SimpleRegex.ValidateRegex | build-tests/_deps/googletest-src/googletest/src/gtest-port.cc:796-847 | accepts exactly the strings that the grammar generates, and never reads beyond the terminator |
| SimpleRegex.ItemLanguage | build-tests/_deps/googletest-src/googletest/src/gtest-port.cc:856-875 | the language of an atom with ?, * or +: the words of matching characters of an allowed length |
| SimpleRegex.HeadMatchItem | build-tests/_deps/googletest-src/googletest/src/gtest-port.cc:856-875 | a regex headed by a repetition matches at the head exactly when for some allowed count the rest matches after that many characters |
| SimpleRegex.NoLongerRun | build-tests/_deps/googletest-src/googletest/src/gtest-port.cc:865-874 | after a character that does not match, no longer repetition can succeed |
| SimpleRegex.MatchRepetitionAndRegexAtHead | build-tests/_deps/googletest-src/googletest/src/gtest-port.cc:856-875 | true exactly when some prefix is in the language of the repetition followed by the rest; terminates and stays inside both strings |
| SimpleRegex.MatchRegexAtHead | build-tests/_deps/googletest-src/googletest/src/gtest-port.cc:880-904 | true exactly when some prefix of the text (all of it after a final $) is in the language of the regex |
| SimpleRegex.MatchesFrom | build-tests/_deps/googletest-src/googletest/src/gtest-port.cc:914-924 | a substring in the language exists exactly when a match at the head of some suffix does, the first one only after ^ |
| SimpleRegex.MatchRegexAnywhere | build-tests/_deps/googletest-src/googletest/src/gtest-port.cc:914-924 | true exactly when some substring is in the language, anchored as ^ and $ say; false for a null text |
| SimpleRegex.FullTextPrints | build-tests/_deps/googletest-src/googletest/src/gtest-port.cc:956-968 | the pattern built by Init is the given one with ^ in front, and with $ at the end unless it already ends in that character |
| SimpleRegex.RE.constructor | build-tests/_deps/googletest-src/googletest/src/gtest-port.cc:942-969 | the fields of a regex built from a C string |
| SimpleRegex.RE.Init | build-tests/_deps/googletest-src/googletest/src/gtest-port.cc:942-969 | sets the pattern, decides validity, and builds the full pattern from a valid one only |
| SimpleRegex.RE.FullMatch | build-tests/_deps/googletest-src/googletest/src/gtest-port.cc:931-933 | true exactly when the regex is valid and the anchored pattern matches the text |
| SimpleRegex.RE.PartialMatch | build-tests/_deps/googletest-src/googletest/src/gtest-port.cc:937-939 | true exactly when the regex is valid and some substring is in its language |
| SimpleRegex.LanguageInhabited | build-tests/_deps/googletest-src/googletest/src/gtest-port.cc:755-786 | every well-formed body matches some word |
| SimpleRegex.FullMatchIsWholeMatch | build-tests/_deps/googletest-src/googletest/src/gtest-port.cc:956-968 | full matching means that the whole text is in the language, for all texts, if and only if the pattern does not end in an escaped $ |
| SimpleRegex.EscapedDollarExample | build-tests/_deps/googletest-src/googletest/src/gtest-port.cc:962-968 | the smallest pattern for which it does not: an escaped $ fully matches the text $x |
| PrimeTables.PrimeByTrial | build-tests/_deps/googletest-src/googletest/samples/prime_tables.h:55-64 | no divisor up to the square root makes a number prime |
| PrimeTables.IsPrime | build-tests/_deps/googletest-src/googletest/samples/sample1.cc:45-66 | odd-only trial division with the exit i > n / i decides primality of every integer |
| PrimeTables.QuotientGuard | build-tests/_deps/googletest-src/googletest/samples/sample1.cc:53-60 | the exit test by quotient is the test by square |
| PrimeTables.Euclid | build-tests/_deps/googletest-src/googletest/samples/prime_tables.h:66-72 | there is a prime above every number, so the search ends |
| PrimeTables.OnTheFlyPrimeTable.IsPrime | build-tests/_deps/googletest-src/googletest/samples/prime_tables.h:55-64 | trial division decides primality of every integer |
| PrimeTables.OnTheFlyPrimeTable.GetNextPrime | build-tests/_deps/googletest-src/googletest/samples/prime_tables.h:66-72 | the least prime above p for p >= 0, and -1 for negative p |
| PrimeTables.MarkedFactorAddsNothing | build-tests/_deps/googletest-src/googletest/samples/prime_tables.h:107-114 | skipping factors that are already struck out loses nothing |
| PrimeTables.EvenFactorAddsNothing | build-tests/_deps/googletest-src/googletest/samples/prime_tables.h:107-114 | skipping even factors above 2 loses nothing |
| PrimeTables.UnstruckIsPrime | build-tests/_deps/googletest-src/googletest/samples/prime_tables.h:107-114 | what remains after all factors up to the square root, each starting at its square, is prime |
| PrimeTables.PreCalculatedPrimeTable.constructor | build-tests/_deps/googletest-src/googletest/samples/prime_tables.h:80-84 | the table is exact from the start |
| PrimeTables.PreCalculatedPrimeTable.CalculatePrimesUpTo | build-tests/_deps/googletest-src/googletest/samples/prime_tables.h:100-116 | the flag at n is set exactly when n is prime, for all 0 <= n <= max |
| PrimeTables.PreCalculatedPrimeTable.MarkMultiples | build-tests/_deps/googletest-src/googletest/samples/prime_tables.h:112-114 | the inner loop strikes out exactly the multiples of i from its square on |
| PrimeTables.PreCalculatedPrimeTable.IsPrime | build-tests/_deps/googletest-src/googletest/samples/prime_tables.h:87-89 | primality below the table limit |
| PrimeTables.PreCalculatedPrimeTable.GetNextPrime | build-tests/_deps/googletest-src/googletest/samples/prime_tables.h:91-97 | the least prime above p if the table holds one, else -1 |
| PrimeTables.HybridPrimeTable.constructor | build-tests/_deps/googletest-src/googletest/samples/sample8_unittest.cc:49-57 | with force_on_the_fly there is no table |
| PrimeTables.HybridPrimeTable.IsPrime | build-tests/_deps/googletest-src/googletest/samples/sample8_unittest.cc:61-66 | decides primality on both sides of the table limit |
| PrimeTables.HybridPrimeTable.GetNextPrime | build-tests/_deps/googletest-src/googletest/samples/sample8_unittest.cc:68-74 | the least prime above p for p >= 0 on both sides of the table limit; for negative p the result differs with and without a table, as stated |
| Shuffle.ShuffleRange | build-tests/_deps/googletest-src/googletest/src/gtest-internal-inl.h:304-324 | the range becomes the Fisher-Yates reordering given by the draws, and nothing outside it changes |
| Shuffle.ShuffleAll | build-tests/_deps/googletest-src/googletest/src/gtest-internal-inl.h:326-330 | the same for the whole vector |
| Shuffle.ShuffledIsReorder | build-tests/_deps/googletest-src/googletest/src/gtest-internal-inl.h:315-323 | every draw sequence gives a permutation |
| Shuffle.FirstDrawLandsLast | build-tests/_deps/googletest-src/googletest/src/gtest-internal-inl.h:315-323 | the element that the first draw selects ends up last, and the rest is shuffled by the other draws |
| Shuffle.DrawsAreDetermined | build-tests/_deps/googletest-src/googletest/src/gtest-internal-inl.h:315-323 | different draw sequences give different permutations of distinct elements |
| Shuffle.EveryOrderIsDrawn | build-tests/_deps/googletest-src/googletest/src/gtest-internal-inl.h:315-323 | every permutation comes from some draw sequence |
| Shuffle.ShuffleIsBijection | build-tests/_deps/googletest-src/googletest/src/gtest-internal-inl.h:315-323 | the draw sequences correspond one to one to the permutations |
| Shuffle.DrawsAreCounted | build-tests/_deps/googletest-src/googletest/src/gtest-internal-inl.h:315-323 | there are width! draw sequences |
| Prerequisites.NeededStep | build-tests/_deps/googletest-src/googlemock/src/gmock-spec-builders.cc:136-153 | the transitive prerequisites are the direct ones with theirs |
| Prerequisites.PushedPaths | build-tests/_deps/googletest-src/googlemock/src/gmock-spec-builders.cc:136-153 | pushing the direct prerequisites of a popped expectation trades its paths for theirs, the measure by which the loop without a visited set ends |
| Prerequisites.Expectation.AllPrerequisitesAreSatisfied | build-tests/_deps/googletest-src/googlemock/src/gmock-spec-builders.cc:136-153 | on an acyclic graph it ends, and answers true exactly when every transitive prerequisite is satisfied |
| Prerequisites.Expectation.RetireAllPreRequisites | build-tests/_deps/googletest-src/googlemock/src/gmock-spec-builders.cc:109-132 | retires exactly the transitive prerequisites and keeps the invariant that a retired expectation has only retired prerequisites, which justifies the early return and the pruning |
| Prerequisites.ExpandedContainsNeeded | build-tests/_deps/googletest-src/googlemock/src/gmock-spec-builders.cc:109-132 | an empty worklist over pruned expansion has reached every transitive prerequisite |
| Decimal.DivideLimbs | build-tests/_deps/googletest-src/googletest/src/gtest-printers.cc:303-313 | the two-limb quotient and digit are those of division by ten, and no 64-bit value overflows |
| Decimal.DivideByTen | build-tests/_deps/googletest-src/googletest/src/gtest-printers.cc:303-313 | one step of the long division on 64-bit words |
| Decimal.PrintUnsigned | build-tests/_deps/googletest-src/googletest/src/gtest-printers.cc:291-322 | prints the decimal numeral of every 128-bit value, within the 40-byte buffer |
| Decimal.PrintSigned | build-tests/_deps/googletest-src/googletest/src/gtest-printers.cc:324-331 | prints the signed numeral of every 128-bit value, down to the least one |
| Decimal.NumeralIsCanonical | build-tests/_deps/googletest-src/googletest/src/gtest-printers.cc:291-322 | the numeral has the value of the number and no leading zero |
| Decimal.CanonicalIsNumeral | build-tests/_deps/googletest-src/googletest/src/gtest-printers.cc:291-322 | it is the only digit string of that kind |
| Decimal.SignedNumeralInjective | build-tests/_deps/googletest-src/googletest/src/gtest-printers.cc:324-331 | different numbers print differently |
| StringLiteral.PrintAsCharLiteralTo | build-tests/_deps/googletest-src/googletest/src/gtest-printers.cc:151-197 | writes the escape of a character and reports its format |
| StringLiteral.CharacterTable | build-tests/_deps/googletest-src/googletest/src/gtest-printers.cc:151-197 | each byte by its escape: letter escapes, printable characters as they are, hexadecimal escapes for all others |
| StringLiteral.NamedEscapes | build-tests/_deps/googletest-src/googletest/src/gtest-printers.cc:154-183 | the ten bytes with a letter escape, and no others have one |
| StringLiteral.QuotesSwap | build-tests/_deps/googletest-src/googletest/src/gtest-printers.cc:200-211 | inside a string a single quote is printed as it is and a double quote escaped, the reverse of a character literal; every other byte is printed alike |
| StringLiteral.HexTable | build-tests/_deps/googletest-src/googletest/src/gtest-printers.cc:188-193 | the hexadecimal digits after a backslash and x are those of the byte, without a leading zero |
| StringLiteral.PrintAsStringLiteralTo | build-tests/_deps/googletest-src/googletest/src/gtest-printers.cc:200-211 | the same inside a string, where the two quotes swap roles |
| StringLiteral.PrintCharsAsStringTo | build-tests/_deps/googletest-src/googletest/src/gtest-printers.cc:340-363 | writes the quoted contents, split wherever a hexadecimal digit follows a hexadecimal escape, and reports whether there was such an escape |
| StringLiteral.InsideRest | build-tests/_deps/googletest-src/googletest/src/gtest-printers.cc:340-363 | a lexer by sections 5.13.3 and 5.13.5 of ISO/IEC 14882:2017 reads back every printed literal, exactly unless a NUL stands before an octal digit |
| StringLiteral.LiteralRoundTrip | build-tests/_deps/googletest-src/googletest/src/gtest-printers.cc:340-363 | reading back the printed literal gives the original bytes if and only if no NUL is directly followed by an octal digit |
| StringLiteral.NulOneExample | build-tests/_deps/googletest-src/googletest/src/gtest-printers.cc:153-156 | the smallest string that is not read back: NUL followed by the digit 1 |
| Base64.Base64Encode | src/network/MessageProtocol.cpp:65-80 | the text is the base64 encoding of section 4 of RFC 4648 |
| Base64.GroupsAreBits | src/network/MessageProtocol.cpp:65-80 | four sextets are the 24 bits of three bytes, and a short last group is that of the bytes with zeros behind them |
| Base64.EncodingShape | src/network/MessageProtocol.cpp:65-80 | four characters for three bytes, group by group, and one or two pads for a last group of two bytes or one |
| Base64.Base64Decode | src/network/MessageProtocol.cpp:82-105 | decodes with the pad trimming of the source and reports malformed text; the buffer is large enough |
| Base64.DecodableChars | src/network/MessageProtocol.cpp:82-105 | the characters that can be decoded are the pad and the alphabet, each with its own value |
| Base64.EncodePads | src/network/MessageProtocol.cpp:96-102 | the trailing pads of an encoding are exactly those its length calls for |
| Base64.Base64RoundTrip | src/network/MessageProtocol.cpp:65-105 | decoding undoes encoding for every byte string |
| Base64.TableEntry | build-tests/_deps/googletest-src/googlemock/src/gmock-internal-utils.cc:202-222 | the table built by UnBase64Impl maps each character of the alphabet to its value, also in the URL-safe form |
| Base64.TableRange | build-tests/_deps/googletest-src/googlemock/src/gmock-internal-utils.cc:206-211 | a character is mapped to a sextet only if it is the character of that sextet, or - or _; every other character is mapped to 65, which is rejected |
| Base64.MoreBits | build-tests/_deps/googletest-src/googlemock/src/gmock-internal-utils.cc:228-254 | one turn of the bit accumulator completes the next byte and keeps the remaining bits |
| Base64.Base64Unescape | build-tests/_deps/googletest-src/googlemock/src/gmock-internal-utils.cc:228-254 | the accumulator computes the packed value of all significant characters, and fails with an empty result exactly on a foreign character |
| Base64.UnescapeInverse | build-tests/_deps/googletest-src/googlemock/src/gmock-internal-utils.cc:228-254 | any text whose significant characters are those of an encoding of d decodes to d |
| Base64.DecodersAgree | build-tests/_deps/googletest-src/googlemock/src/gmock-internal-utils.cc:228-254 | both decoders give d back on the standard encoding of d, and the second also on the padless and URL-safe forms (section 5 of RFC 4648) |
| MessageProtocol.SplitText | src/network/MessageProtocol.cpp:9-22 | the loop computes the split at a delimiter |
| MessageProtocol.SplitOfJoin | src/network/MessageProtocol.cpp:9-22 | splitting undoes joining of parts without the delimiter |
| MessageProtocol.SplitCount | src/network/MessageProtocol.cpp:9-22 | each delimiter inside a part adds one part |
| MessageProtocol.SerializeIsJoin | src/network/MessageProtocol.cpp:26-40 | the wire text is the eleven fields joined by bars |
| MessageProtocol.FieldList | src/network/MessageProtocol.cpp:26-40 | the eleven fields in order: four texts, two numbers, two flags written 1 or 0, three base64 texts |
| MessageProtocol.DeserializeWire | src/network/MessageProtocol.cpp:42-63 | reads ten or eleven fields, with every error of the source |
| MessageProtocol.DeserializeReads | src/network/MessageProtocol.cpp:48-63 | a decoded message has the parts of the wire text at their places, the numbers they stand for, flags that are nonzero numbers, and the decoded bytes |
| MessageProtocol.DeserializeFails | src/network/MessageProtocol.cpp:43-61 | the field-count error exactly for neither ten nor eleven parts; the other errors only where a number or a base64 text cannot be read |
| MessageProtocol.IntegerIsRead | src/network/MessageProtocol.cpp:52-55 | a number is read as the longest run of digits after an optional sign, whatever follows |
| MessageProtocol.WireRoundTrip | src/network/MessageProtocol.cpp:26-63 | for every message, deserializing its wire text gives the message or the field-count error, and the message exactly when no string field contains a bar |
| MessageProtocol.LegacyWire | src/network/MessageProtocol.cpp:59-61 | a wire text of ten fields decodes to the message with an empty self key |
| ChatState.KeyIdentifiesPair | src/chat/ChatServer.cpp:190-195 | two names without ':' share their conversation key with no other pair |
| ChatState.KeysAreInjectiveIff | src/chat/ChatServer.cpp:190-195 | keys tell all pairs of names over an alphabet apart if and only if ':' is not in the alphabet |
| ChatState.LexMeans | src/chat/ChatServer.cpp:190-195 | the order of names that the key uses: the first difference decides, and a prefix comes first |
| ChatState.GroupIdInjective | src/chat/ChatServer.cpp:98 | a group identifier determines counter and name, whatever the name contains |
| ChatState.CreatedGroupIsNew | src/chat/ChatServer.cpp:81-102 | a created group never collides with an existing one, so its record is stored; its members are the owner and the known users among those given |
| ChatState.ListingIsUnique | src/chat/ChatServer.cpp:7-12 | the sorted list of a set is determined |
| ChatState.StoreRefines | src/chat/ChatServer.cpp:134-141 | storing appends to the flat log of which all conversations are views |
| ChatState.DeleteRefines | src/chat/ChatServer.cpp:162-180 | deletion leaves in the log exactly the messages whose id or sender differs, so that only a sender deletes, and returns true exactly when there is a message with both |
| ChatState.ErasedMeans | src/chat/ChatServer.cpp:162-180 | erasing leaves of a history exactly the messages that differ in id or sender, and shrinks a vector exactly when there is a message with both |
| ChatState.HistoriesRefineLog | src/chat/ChatServer.cpp:134-180 | after any sequence of stores and deletions, each conversation is the log restricted to the unordered pair, and each group conversation the log restricted to the group |
| Messenger.ChatServer.RegisterUser | src/chat/ChatServer.cpp:15-25 | adds a user unless the name is taken |
| Messenger.ChatServer.Authenticate | src/chat/ChatServer.cpp:27-31 | true exactly when the name is known and its password hash is the one given |
| Messenger.ChatServer.GetPublicKey | src/chat/ChatServer.cpp:33-40 | the registered key, or the empty text |
| Messenger.ChatServer.CreateGroup | src/chat/ChatServer.cpp:81-102 | the new state and identifier of a group, or nothing for an unknown owner |
| Messenger.ChatServer.ListGroups | src/chat/ChatServer.cpp:104-114 | the sorted identifiers of exactly the groups that have the name among their members |
| Messenger.ChatServer.GetGroupMembers | src/chat/ChatServer.cpp:116-123 | the sorted members of a group |
| Messenger.ChatServer.StoreMessage | src/chat/ChatServer.cpp:134-141 | appends to the history of the group or of the pair |
| Messenger.ChatServer.GetConversation | src/chat/ChatServer.cpp:143-151 | the history of the pair, empty if there is none |
| Messenger.ChatServer.GetGroupConversation | src/chat/ChatServer.cpp:153-160 | the history of the group, empty if there is none |
| Messenger.ChatServer.DeleteMessageForAll | src/chat/ChatServer.cpp:162-180 | afterwards the server holds exactly the messages it held whose id or sender differs; true exactly when one had both |
| Messenger.RemoveIf | src/chat/ChatServer.cpp:167-169 | keeps, in order, exactly the messages whose id or sender differs |
| Messenger.EraseFromAll | src/chat/ChatServer.cpp:165-178 | one pass over the vectors of a history |
| Messenger.TcpServer.SendTo | src/network/TcpServer.cpp:13-26 | calls the handler of the receiver, if there is one |
| Messenger.Deployment.IsOnline | src/network/TcpServer.cpp:28-31 | in every state that operations reach, a name is online exactly when some client is logged in under it |
| Messenger.TcpClient.Connect | src/network/TcpClient.cpp:11-30 | connects only when not connected and the name is free |
| Messenger.TcpClient.Disconnect | src/network/TcpClient.cpp:32-39 | removes the handler only when connected, under the name used to connect |
| Messenger.TcpClient.Send | src/network/TcpClient.cpp:41-46 | nothing is sent unless connected |
| MessengerLinks.OneHolder | src/network/TcpClient.cpp:11-46 | in every run, a client is logged in exactly when its transport is connected, and the server has a handler for u exactly when a client is logged in under u, which is then the only one and the handler's |
| MessengerLinks.OnlyTheHolderDisconnects | src/chat/ChatClient.cpp:36-53 | whoever holds a name stays connected and logged in through every step except its own logout; a client that lost the race cannot disconnect it |
| MessengerLinks.StepKeepsLinks | src/chat/ChatClient.cpp:25-102 | every step keeps the agreement of clients and transport server |
| Messenger.ChatClient.constructor | src/chat/ChatClient.cpp:11-23 | a new client listens on its own transport |
| Messenger.ChatClient.RegisterOnServer | src/chat/ChatClient.cpp:25-34 | new keys replace the old ones even if the name is taken; they are saved only if it is not |
| Messenger.ChatClient.Login | src/chat/ChatClient.cpp:36-47 | the cases of the source, in order: already in, wrong password, no key file, name held by another client, success |
| Messenger.ChatClient.Logout | src/chat/ChatClient.cpp:49-53 | disconnects if connected and marks the client as logged out |
| Messenger.ChatClient.SendMessage | src/chat/ChatClient.cpp:55-72 | the step of the model: refused when logged out or the receiver is unknown, else delivered if possible and stored with the status |
| Messenger.ChatClient.SendGroupMessage | src/chat/ChatClient.cpp:74-94 | the step of the model over the sorted members |
| Messenger.ChatClient.DeleteMessageForAll | src/chat/ChatClient.cpp:96-102 | refused when logged out or the id is empty; else exactly the own messages with the id leave the server, and true exactly when there was one |
| Messenger.ChatClient.DecryptToView | src/chat/ChatClient.cpp:123-144 | shows the decrypted text and the other fields of the message as they are, decrypting with the self key of a sent message or else the ordinary one; fails exactly where the source throws |
| Messenger.ChatClient.GetConversation | src/chat/ChatClient.cpp:146-153 | the views of the conversation, or a failure if one message cannot be decrypted |
| Messenger.ChatClient.GetGroupConversation | src/chat/ChatClient.cpp:155-163 | the same for the copies addressed to this user |
| Messenger.ChatClient.HandleIncoming | src/chat/ChatClient.cpp:189-205 | one notification with the sender's name, the decrypted text and the identifiers, or none after an error |
| Messenger.Deployment.Record | src/chat/ChatClient.cpp:25-102 | after every recorded operation the objects are in the state that the step system reaches by all operations so far |
| Messenger.Deployment.Register | src/chat/ChatClient.cpp:25-34 | registration of a client as a step of the run; true exactly when no registration under its name came before |
| Messenger.Deployment.Login | src/chat/ChatClient.cpp:36-47 | login of a client as a step of the run; true exactly when it is in already, or the hash is that of the first registration under its name and nobody is logged in under it |
| Messenger.Deployment.Logout | src/chat/ChatClient.cpp:49-53 | logout of a client as a step of the run |
| Messenger.Deployment.SendMessage | src/chat/ChatClient.cpp:55-72 | a message as a step of the run; true exactly when the client is logged in and the receiver has registered |
| Messenger.Deployment.SendGroupMessage | src/chat/ChatClient.cpp:74-94 | a group message as a step of the run |
| Messenger.Deployment.DeleteMessageForAll | src/chat/ChatClient.cpp:96-102 | a deletion as a step of the run; true exactly when the client is logged in and has sent a message on record with that id, which is not empty |
| Messenger.Deployment.CreateGroup | src/chat/ChatClient.cpp:116-118 | a new group as a step of the run |
| Messenger.Deployment.GetConversation | src/chat/ChatClient.cpp:146-153 | in every state that operations reach, a logged-in client is given exactly the direct messages on record between it and the peer, in order: for each the text its sender passed in, and sender, receiver, identifier, time, status and flags as stored |
| Messenger.Deployment.GetGroupConversation | src/chat/ChatClient.cpp:155-163 | in every state that operations reach, a logged-in client is given exactly the copies on record addressed to it, field by field; without deletions these are all accepted messages for a member of the group, and none for anybody else |
| MessengerReads.SecuredInRuns | src/chat/ChatClient.cpp:25-94 | in every run a logged-in client holds the pair whose public key is registered for its name, and each stored message opens, with its text, under the registered keys of its receiver (and of its sender, if direct) |
| MessengerReads.StepSecures | src/chat/ChatClient.cpp:25-102 | every step keeps that |
| MessengerTheorems.ConversationsAgree | src/chat/ChatClient.cpp:123-153 | in every run, two logged-in users read identical lists from opposite ends: the direct messages between them in the order of the log, each with the text that was sent and its other fields as stored |
| MessengerTheorems.DirectSendIsLogged | src/chat/ChatClient.cpp:55-72 | after every run, a direct send succeeds exactly when the client is logged in and the receiver has registered; then the log grows by one entry with the sender's name and the receiver, text, identifier and time passed in, and otherwise not at all |
| MessengerTheorems.GroupSendStoresOneCopyEach | src/chat/ChatClient.cpp:74-94 | after every run, a group send returns true exactly when the sender is logged in and the group has members; then the group's history on the server grows by exactly one copy per member, in sorted order, with the identifiers and times drawn for them, and no other history changes |
| MessengerTheorems.GroupListShows | src/chat/ChatClient.cpp:155-163 | after every run, deletions included, a logged-in client reads exactly the copies on record that are addressed to it, in order, with text and fields |
| MessengerTheorems.MembersReadTheSame | src/chat/ChatClient.cpp:155-163 | in every run without deletions, all logged-in members read the accepted messages of the group, in order, with sender and text; others read nothing |
| MessengerReads.KeyFilesInRuns | src/chat/ChatClient.cpp:25-34 | in every run, with any library and any names, whoever has an account has a key file |
| MessengerAccounts.AccountsInRuns | src/chat/ChatClient.cpp:25-34 | in every run, with any library and any names, the server and the key directory hold exactly the accounts that registrations created, each with the password hash and the keys of the first registration under its name |
| MessengerAccounts.RegistrationSucceedsExactly | src/chat/ChatClient.cpp:25-34 | after every run, a registration succeeds exactly when none under the name came before |
| MessengerAccounts.LoginSucceedsExactly | src/chat/ChatClient.cpp:36-47 | after every run, with any library and any names, login succeeds exactly when the client is in already, or the hash is the one of the first registration under its name and nobody is logged in under the name; so a wrong password is refused |
| MessengerAccounts.LogoutEnds | src/chat/ChatClient.cpp:49-53 | after every run, a client that logs out is out and disconnected, and its name is free if it held it |
| MessengerDelivery.DeliveryIsFaithful | src/chat/ChatClient.cpp:55-72 | after every run, a message is stored as delivered exactly when somebody is logged in as the receiver; that client notifies its observers of exactly the text sent, unless a bar breaks the wire format, and no other client notices anything |
| MessengerDelivery.GroupDeliveryIsFaithful | src/chat/ChatClient.cpp:74-94 | the same for group messages: each copy is stored as delivered exactly when somebody is logged in as its member, and each client logged in as a member notifies its observers exactly once, unless a bar in sender, member, group or identifier breaks the wire format; no other client notices anything |
| MessengerDeletion.ListsAfterDeletion | src/chat/ChatClient.cpp:96-102 | after every run and for every identifier, each logged-in client reads after a deletion exactly the entries it read before whose identifier differs or whose sender is not the deleting user; the deletion returns true exactly when there is an entry with both |
| MessengerDeletion.OthersCannotDelete | src/chat/ChatServer.cpp:162-180 | after every run, a deletion by a client that sent no message with the identifier returns false, and nobody's list changes |
| MessengerDeletion.DeletionReachesOneMessage | src/chat/ChatClient.cpp:96-102 | after every run, deleting a message with an identifier of its own leaves every logged-in client the log without that entry; so its list changes exactly if it is an end of the direct message, or the receiver of the group copy |
| MessengerDeletion.DeletedForAllIffAlone | src/chat/ChatClient.cpp:74-102 | after every run and an accepted group send, deleting the copy for one member leaves exactly the copies for all others on the server, so the message is gone for all participants if and only if that member is the whole group |
| MessengerDeletion.OtherCopiesStay | src/chat/ChatClient.cpp:96-102 | a run in which it is not: alice and bob register, log in and share a group; alice sends a message to it and deletes it; bob still reads the text |
| Crypto.SomeLibraryIsIdeal | src/chat/ChatClient.cpp:62-65 | the laws assumed of the cryptographic library can be met |

## Left out

- The Qt and Cocoa interfaces, logging, commands, observers and the main program: they carry no property of their own.
- Contacts, user lists and group names of the chat server: they would add only easy members.
- OpenSSL: the laws of `Crypto.Ideal` stand for it. The EVP block coder is the coder of section 4 of RFC 4648; the trimming of white space around its input is not part of this model.
- Failing file and stream operations, and a missing HOME directory.
- Threads inside one method, calls from an observer back into its client, and clients that are destroyed while connected.
- Freshness of message identifiers: assumed only of the one identifier that is deleted, in DeletionReachesOneMessage, DeletedForAllIffAlone and OtherCopiesStay; ListsAfterDeletion does without.
- MessengerTheorems.MembersReadTheSame: speaks of runs without deletions, because a deletion takes one copy from one member; what everybody reads after a deletion is stated by ListsAfterDeletion.
- The 64-bit wrap-around of the group counter: the counter is unbounded.
- PrimeTables.PreCalculatedPrimeTable.constructor: requires max >= 1, because the sieve writes the flag of 1 whatever the size; smaller tables are not part of this model.
- PrimeTables.PreCalculatedPrimeTable.GetNextPrime: requires p >= -1, because below that the source reads in front of the array.
- PrimeTables.HybridPrimeTable.constructor: requires max_precalculated >= 1 if there is a table, for the reason given for the table itself.
- PrimeTables.HybridPrimeTable.GetNextPrime: requires p >= -1 if there is a table, for the reason given for the table itself.
- PrimeTables.IsPrime: machine-integer overflow of the prime samples is not modelled; integers are unbounded.
- Base64.Base64Unescape: takes a char as unsigned; where it is signed, a character from 128 on indexes in front of the table, which is not part of this model.
- SimpleRegex.MatchRepetitionAndRegexAtHead: requires texts shorter than the largest size value, which bounds the count of a repetition.
- StringLiteral.PrintAsCharLiteralTo: narrow characters only; the instances of the template for wide characters are not part of this model.
- StringLiteral.PrintAsStringLiteralTo: narrow characters only, likewise.
- StringLiteral.PrintCharsAsStringTo: narrow characters only; wide strings are not part of this model.
- Shuffle.ShuffleRange: the random generator is replaced by a sequence of draws, each in its range; the checks of the range arguments are its precondition.
- BipartiteMatching.VerifyMatchMatrix: the explanation written to the listener is not modelled, only the verdict.
- The rest of GoogleTest and all generated build files.
