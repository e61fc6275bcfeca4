# A model of the TLS scanner

The scanner asks a server what it will negotiate, one aborted handshake at a time: it
writes a ClientHello, reads records back until the flight is over, parses what it finds,
and asks again with a smaller offer. A policy layer then orders what was found, reports
what could not be determined, and prints it.

This project models that path from the bytes on the wire to the printed report, and proves
what it promises.

| file | part of the scanner |
|---|---|
| `Bytes.dfy`, `Reader.dfy` | big-endian numbers, and the reader whose cursor every parse advances |
| `Framing.dfy` | cutting a stream into records, reassembling handshake bytes, splitting them into messages |
| `ServerHello.dfy`, `ServerKeyExchange.dfy`, `Flight.dfy` | what a server says, when it has finished saying it, and the read loop |
| `Answers.dfy` | what the read loop makes of a whole flight, alerts included, in any records and any reads |
| `ClientHello.dfy`, `Fidelity.dfy` | the printer of nested length prefixes, with its padding, and when what it writes says what was asked |
| `Suites.dfy` | the cipher suite catalogue as a parameter |
| `Probing.dfy`, `Retries.dfy`, `Enumeration.dfy`, `Ordering.dfy`, `Phases.dfy` | the probe loops against a budget of connections, and which connections are tried again |
| `Scans.dfy`, `Concurrency.dfy`, `Runs.dfy` | the version scan as interleaved steps, and a whole run of it with the questions after it |
| `Speeches.dfy`, `Servers.dfy`, `Questions.dfy` | servers described by the bytes they send, and what the version scan and the later questions then find |
| `EarlyData.dfy`, `Determination.dfy` | reading a ticket's 0-RTT offer out of a recorded, encrypted stream, and when the answer may be called determined |
| `Sorting.dfy`, `Findings.dfy`, `Report.dfy`, `Wrapping.dfy` | findings, the rule table, filtering, sorting, and line wrapping |

How it is set up:

- The loops of the source are methods with loops, its reader, prober and epoch are classes
  whose fields the methods update, and its in-place algorithms work on arrays. Each is
  proved equal to a recursive function, and the properties are lemmas about that function.
- A server is a parameter: a function from the ordinal of a connection and the bytes written
  to it to the reads that follow. A run is deterministic once the server is given, so a
  server that remembers is one of these functions too. The results on enumeration hold for
  every such function; the exact results are about the ones that choose by a rule, and
  `Servers.SomeServerServes` shows there are such servers.
- Record protection is ideal: a finite map holds everything that was ever sealed, and a
  record opens exactly when it was sealed with the same key, nonce and header.
- Random bytes, public key shares, key derivation, catalogue entries, policy lists and
  texts are parameters.

What turned out otherwise than the source says:

- `pkg/tls/wire/client_hello.go:364-368` claims that no conversion of a length can quietly
  produce a hello that says something other than what was asked for. It can, in two ways: a
  long server name is accepted and goes out as something that is not one record
  (`ClientHellos.LongNameGoesOutBroken`), and 128 supported versions go out as one record
  that announces none (`Fidelity.ManyVersionsGoOutAsNone`; `Fidelity.VersionsGoOutBroken` names
  one). `Fidelity.SaysExactly` is the
  exact condition: an accepted hello says what was asked if and only if its handshake fits
  the record's length field, it has at most 127 supported versions, and its random is 32
  bytes.
- `pkg/tls/wire/server_response.go:16-19` says that a server may warn and then carry on, and
  that reading the warning as a refusal loses the answer. A warning is not read as a refusal,
  but `FlightIsComplete` (lines 93-98 there) stops the reading at any alert, so the answer is
  lost whenever the handshake comes in a later read: `Answers.WarningLosesFlight` gives the
  input for every flight. `Answers.AnswerExactly` and `Answers.ServerFlightRoundTrip` give the
  exact condition, that the read with the alert's last byte also has the flight's (for
  everything in it) or the hello's (for the hello). `Servers.HushedEnumeration` and
  `Servers.HushedVersion` say what is then reported: a list that lacks what the server picked
  and is called complete, or a version called unsupported, with nothing noted; and
  `Questions.HushedGroups` and `Questions.HushedHash` that a weak group or a retired hash the
  server does take is then reported as not taken. The reads decide about a fatal alert behind
  a whole flight too: `Answers.LateAlertDecides`.
- `pkg/tls/probe/checks.go:137-196` offers the finite-field groups as weak ones, but below
  TLS 1.3 only a named curve is looked for in the answer, so a server that takes one of the
  fields is reported as taking none (`Questions.FiniteFieldGoesUnreported`).
- `pkg/tls/probe/probe.go:9-13` puts the cost of an enumeration at the number of accepted
  suites plus one. `Enumerations.VersionProbeExact` shows that this is so if and only if some
  suite offered is not accepted; otherwise the last question is not asked and the cost is the
  number of suites, as `Servers.AcceptingEverythingCostsOneLess` shows of a server.
- A result that says a check could not be run carries level none, so asking the report for
  notes and worse withholds every one of them (`Reports.OpenQuestionsWithheld`).

## Model

| member | source | states |
|---|---|---|
| Readers.Reader.Bytes | pkg/tls/wire/reader.go:50-61 | takes exactly the next bytes and leaves the rest, or fails and leaves everything |
| Readers.Reader.SubReader | pkg/tls/wire/reader.go:131-138 | a bounded reader over exactly the announced bytes, the outer one past them |
| Readers.Reader.Uint16List | pkg/tls/wire/reader.go:142-163 | an odd count is refused before anything is read; an even one is read to the end as its 16-bit values |
| Readers.WordsInverse | pkg/tls/wire/reader.go:142-163 | reading a list of 16-bit values gives back the list that was written |
| Readers.PutWordsInverse | pkg/tls/wire/reader.go:142-163 | writing what was read from an even number of bytes gives back the bytes |
| Framing.SplitRecords | pkg/tls/wire/server_response.go:44-58 | the loop computes the frames of the stream |
| Framing.FramesConserve | pkg/tls/wire/server_response.go:44-58 | the pieces and the tail end to end are the input, each piece is one frame, and the tail is too short to be one |
| Framing.FramesUnique | pkg/tls/wire/server_response.go:44-58 | any list of frames followed by an unfinished one is divided back into that list and that tail |
| Framing.FramesPrefixStable | pkg/tls/wire/server_response.go:44-58 | more bytes never change the frames already read |
| Framing.FramesOfCut | pkg/tls/wire/server_response.go:44-58 | a stream cut inside its last frame, or anywhere before, yields only frames before the last |
| Framing.Reassemble | pkg/tls/wire/server_response.go:61-90 | the loop computes the handshake bytes, the first whole alert, the change-cipher-spec flag and the encrypted records |
| Framing.ReassemblyGrows | pkg/tls/wire/server_response.go:61-90 | with more bytes handshake data only grows at its end, an alert stays the first, and nothing encrypted is forgotten |
| Framing.ReassemblyExact | pkg/tls/wire/server_response.go:61-90 | a cipher change is seen exactly when some record is one, and the encrypted records are exactly the records of that type |
| Framing.SplitHandshake | pkg/tls/wire/server_response.go:128-147 | the loop over the reader computes the messages of the handshake bytes |
| Framing.MessagesInverse | pkg/tls/wire/server_response.go:128-147 | encoded messages are read back one by one, whatever unfinished bytes follow |
| Framing.MessagesConserve | pkg/tls/wire/server_response.go:128-147 | the messages re-encoded, with the tail, are the input: nothing is invented, dropped or reordered |
| Framing.MessagesPrefixStable | pkg/tls/wire/server_response.go:128-147 | more bytes only add messages at the end |
| ServerHellos.ParseServerHello | pkg/tls/wire/server_response.go:178-251 | the method computes what the fields of the body mean, or nothing when they cannot be read |
| ServerHellos.TakeFieldsIff | pkg/tls/wire/server_response.go:178-237 | a body is read as these fields if and only if it is those fields encoded, with bytes after them only where there was an extension block |
| ServerHellos.TakeExtensionsIff | pkg/tls/wire/server_response.go:225-237 | an extension block is read as a list if and only if it is that list encoded, every extension inside its own prefix |
| ServerHellos.TableIsLastWins | pkg/tls/wire/server_response.go:225-237 | the map holds, for each kind that occurs, the data of its last occurrence, and nothing else |
| ServerHellos.VersionOfLastExtension | pkg/tls/wire/server_response.go:239-243 | the version is the first two bytes of the last supported_versions extension where it has two, and the legacy field otherwise |
| KeyExchanges.SignificantBits | pkg/tls/wire/server_response.go:336-356 | the bit length of the big-endian integer, whatever zeros lead it: 0 for 0, else the power of two just above it |
| KeyExchanges.BitLengthUnique | pkg/tls/wire/server_response.go:336-356 | no other number is the bit length |
| KeyExchanges.ParseServerKeyExchange | pkg/tls/wire/server_response.go:271-332 | the method computes what the two encodings are read as |
| KeyExchanges.ParseFiniteFieldInverse | pkg/tls/wire/server_response.go:279-331 | an encoded prime, generator and public value report the true size of the prime, whether the generator is two, and the signature algorithm exactly from TLS 1.2 where one is there |
| KeyExchanges.ParseFiniteFieldSound | pkg/tls/wire/server_response.go:279-331 | a message that parses is one that was encoded, and its algorithm is read exactly when the version is at least TLS 1.2 and two bytes remain |
| KeyExchanges.ParseCurveInverse | pkg/tls/wire/server_response.go:299-331 | an encoded named curve and point report the curve and the signature algorithm |
| Flights.FlightIsComplete | pkg/tls/wire/server_response.go:93-124 | true exactly when an alert, an encrypted record or a message that ends a flight has been read |
| Flights.CompleteMonotone | pkg/tls/wire/server_response.go:93-124 | a flight that is over stays over under more bytes |
| Flights.FlightFactsPersist | pkg/tls/wire/server_response.go:379-432 | the alert, the encrypted flag, the done flag and the presence of a hello persist in every longer successful parse |
| Flights.ParseFlight | pkg/tls/wire/server_response.go:379-432 | the loop notes the messages one after another and fails where one of them does |
| Flights.BadHelloUnreadable | pkg/tls/wire/server_response.go:379-432 | a hello that cannot be read makes the whole flight unreadable, wherever it stands |
| Flights.ExchangeNeedsHello | pkg/tls/wire/server_response.go:379-432 | a key exchange that cannot be read makes the flight unreadable, and one with no hello before it is passed over |
| Flights.AlertAlone | pkg/tls/wire/server_response.go:379-432 | without messages there is a flight exactly when there is an alert, and it has the alert and no hello |
| Flights.Collect | pkg/tls/probe/probe.go:262-278 | the read loop stops at the first failed or completing read and returns what had arrived |
| Flights.FailedReadEnds | pkg/tls/probe/probe.go:262-278 | a read that fails is the last one made, and what it brought counts |
| Answers.CompleteExactly | pkg/tls/probe/probe.go:262-278 | whatever records carry the messages of a flight, alerts and encrypted records anywhere among them, the first k bytes are complete if and only if they reach the stopping byte: the last of the first alert or encrypted record or of the handshake, whichever comes first |
| Answers.EndsExactly | pkg/tls/wire/server_response.go:100-124 | a hello ends a flight if and only if its version is TLS 1.3 or its random is the one of a retry request |
| Answers.StopsAtCompletion | pkg/tls/probe/probe.go:262-278 | however the bytes are cut into reads, the loop makes every read up to the one with the completing byte and none after it |
| Answers.AnswerExactly | pkg/tls/probe/probe.go:262-289 | what handshake returns is what the whole flight says if and only if the read with the stopping byte also brings the last of the handshake; where no alert or encrypted record comes before that it always does, whatever the records and reads |
| Answers.ServerFlightRoundTrip | pkg/tls/probe/probe.go:262-289 | below TLS 1.3, with or without alerts anywhere in the flight: the hello comes back if and only if it is in by the read that stops the loop, every encoded field if and only if all of the flight is, and the first alert if and only if it is |
| Answers.HushedFlight | pkg/tls/wire/server_response.go:93-98 | a flight whose hello is not in by then leaves an answer with the alert and nothing else |
| Answers.WarningLosesFlight | pkg/tls/wire/server_response.go:16-19 | every flight is lost behind a warning that comes in a read of its own |
| Answers.LateAlertDecides | pkg/tls/wire/server_response.go:93-98 | with an alert behind the last of the handshake every field comes back, and the flight is taken for a refusal if and only if the alert is fatal and the read with the last of the handshake brings it too |
| Answers.RefusalBehindFlight | pkg/tls/wire/server_response.go:93-98 | every flight with a fatal alert behind it is a refusal in one read and accepted in two |
| Speeches.HeardExactly | pkg/tls/probe/probe.go:236-290 | at every version: a refusal, a flight, a retry request or a TLS 1.3 hello is heard whole if and only if all of it is in by the read that stops the loop |
| ClientHellos.Marshal | pkg/tls/wire/client_hello.go:75-166 | the printer writes the head, the extensions in order and the padding, or refuses |
| ClientHellos.MarshalExtensions | pkg/tls/wire/client_hello.go:193-276 | the appended block is the extensions of the hello in their order |
| ClientHellos.Repadded | pkg/tls/wire/client_hello.go:170-191 | everything before the extension block is kept and the block gains one padding extension at its end |
| ClientHellos.RefusedExactly | pkg/tls/wire/client_hello.go:75-166 | a hello is refused for the first of five reasons that holds, each told by the lengths of its fields, and for nothing else |
| ClientHellos.OversizedIsEmpty | pkg/tls/wire/client_hello.go:364-375 | a handshake too long for its record is announced as empty |
| ClientHellos.PaddedOutOfRange | pkg/tls/wire/client_hello.go:138-143 | no record has 256 to 511 bytes: one that would has exactly 520, every other the size it had |
| ClientHellos.OneRecordExactly | pkg/tls/wire/client_hello.go:75-166 | the output is one record if and only if the handshake fits its length field |
| ClientHellos.MarshalRoundTrip | pkg/tls/wire/client_hello.go:75-166 | when it is, it is one ClientHello with the version, random, session id, suites, compression list and extension bytes that were written |
| Fidelity.SaysExactly | pkg/tls/wire/client_hello.go:364-368 | an accepted hello says what was asked if and only if the handshake fits, the versions are at most 127 and the random is 32 bytes: one record under 0x0301, the six fields, the name, groups, algorithms, versions and key share read out of its extensions, each of the six flags there exactly when asked for and with its data, and no kind twice or unasked |
| Fidelity.ManyVersionsGoOutAsNone | pkg/tls/wire/client_hello.go:377-383 | a hello with 128 versions is accepted, goes out as one record, and announces none |
| ClientHellos.WordListReadBack | pkg/tls/wire/client_hello.go:346-355 | a list of 16-bit values is read back if and only if its byte count fits 16 bits |
| ClientHellos.VersionListReadBack | pkg/tls/wire/client_hello.go:377-383 | the list of versions is read back if and only if there are at most 127 |
| ClientHellos.ServerNameReadBack | pkg/tls/wire/client_hello.go:196-206 | the server name is read back if and only if it fits with its own prefix |
| ClientHellos.LongNameGoesOutBroken | pkg/tls/wire/client_hello.go:364-375 | a hello that is accepted and goes out as something other than one record |
| Suites.OfferAt | pkg/tls/cipher_suite/cipher_suite.go:159-181 | the loop and the sort compute the offer of a version |
| Suites.SortsByValue | pkg/tls/cipher_suite/cipher_suite.go:178 | a list is the sorted one if and only if it ascends and holds what was sorted |
| Suites.ForVersionExact | pkg/tls/cipher_suite/cipher_suite.go:159-181 | an offer is strictly ascending, without zero, and holds exactly the suites negotiable at the version |
| Suites.OfferedAt | pkg/tls/cipher_suite/cipher_suite.go:159-181 | a suite of the catalogue is offered from its own version on, those of TLS 1.3 there and the others below it |
| Suites.KindsExact | pkg/tls/cipher_suite/cipher_suite.go:90-113 | which key exchanges are over a finite field and which keep a recorded session secret, by the entry of an id |
| Suites.CategoryExact | pkg/tls/cipher_suite/cipher_suite.go:117-157 | the first policy list that names a suite decides about it, and an unknown or unlisted one is insufficient |
| Suites.RankIsOrder | pkg/tls/cipher_suite/cipher_suite.go:48-65 | the ranks order the categories from good over sufficient and phase-out to insufficient |
| Suites.OffersBelowTls13 | pkg/tls/cipher_suite/cipher_suite.go:159-181 | offers below TLS 1.3 only grow with the version and share nothing with a TLS 1.3 offer |
| Probing.Prober.TakeConnection | pkg/tls/probe/probe.go:229-231 | every attempt is counted and one beyond the budget is refused |
| Probing.Prober.Handshake | pkg/tls/probe/probe.go:236-290 | one connection: refused by the budget, or the reply to the bytes of the hello |
| Probing.Prober.HandshakeWithRetry | pkg/tls/probe/probe.go:295-337 | attempts until there is an answer, the budget refuses, the run is cancelled or the limit is reached |
| Retries.SilenceStalls | pkg/tls/probe/probe.go:262-289 | a connection that brings less than one record brings nothing that can be read |
| Retries.RetriedUntilAnswered | pkg/tls/probe/probe.go:295-337 | after k connections that could not be made or brought nothing readable, within the retries, the next that answers is the answer, for k + 1 connections |
| Retries.GivenUp | pkg/tls/probe/probe.go:295-337 | when every attempt goes so, the question has failed for exactly one connection more than there are retries |
| Retries.CancelledAtOnce | pkg/tls/probe/probe.go:322-326 | a cancelled connection ends the question with no further one |
| Retries.BudgetEnds | pkg/tls/probe/probe.go:295-337 | the attempt the budget refuses ends the question, counted and not granted |
| Retries.Unwritable | pkg/tls/probe/probe.go:236-290 | a hello that cannot be written costs its connections like one nobody answers |
| Probing.IndexOf | pkg/tls/probe/version.go:211-219 | the first place a value stands, or -1 |
| Probing.DeleteAt | pkg/tls/probe/version.go:155-209 | the in-place shift of the slice is deletion from the sequence |
| Probing.Prober.Enumerate | pkg/tls/probe/version.go:155-209 | the loop over the shrinking slice computes the rounds of the enumeration |
| Servers.VersionReports | pkg/tls/probe/version.go:104-143 | below TLS 1.3 a version result reports the fields the server encoded in its first flight: whether the two extensions were sent, the curve or the true size and generator of the prime, and the signature algorithm from TLS 1.2 |
| Servers.ExchangeByCatalogue | pkg/tls/probe/probe.go:339-342 | an exchange is read as one over a finite field exactly where the catalogue's entry of the suite chosen says so |
| Probing.Prober.ProbeVersion | pkg/tls/probe/version.go:48-100 | the first handshake, the verdict on it, and the enumeration after it |
| Enumerations.AcceptedExactly | pkg/tls/probe/version.go:76-100 | a version is accepted if and only if the flight that answered it has no fatal alert, has a hello, and that hello is of the version asked; otherwise nothing of it is reported but the description of a fatal alert, and nothing more is asked |
| Enumerations.Unanswered | pkg/tls/probe/version.go:48-74 | without suites a version is not attempted and free; refused by the budget it is not attempted and noted; failed it is a transport error |
| Servers.OtherVersionDeclined | pkg/tls/probe/version.go:84-89 | a server that answers with another version than asked, a flight or a TLS 1.3 hello in any records and reads, is reported as not speaking the one asked: no suites, one connection, nothing noted |
| Servers.RefusalReported | pkg/tls/probe/version.go:69-74 | a refusal is reported with the description it gave |
| Retries.VersionRetried | pkg/tls/probe/version.go:48-100 | a server slow to let anyone in is judged by the first answer it gives |
| Retries.VersionUnreachable | pkg/tls/probe/version.go:56-67 | one that lets nobody in is a transport error, with nothing noted |
| Servers.GreetingReports | pkg/tls/probe/version.go:104-115 | at TLS 1.3 a version result reports the leading group of the last key share extension sent, no group where there is none, and nothing else |
| Enumerations.EnumerationSound | pkg/tls/probe/version.go:155-209 | against any server: the picks and what is left divide the offer without duplicates, incomplete is reported exactly when a phase was noted, and complete only when nothing was left or exactly what was left had been offered and answered by a refusal or without a hello; Servers.HushedEnumeration shows that the last need not be a refusal |
| Enumerations.VersionProbeExact | pkg/tls/probe/version.go:48-100 | a server that chooses by a rule is found to accept exactly what the rule would take, best first and complete, for one connection more than the suites found if and only if some suite offered is not accepted, and for as many otherwise |
| Enumerations.FoundInServerOrder | pkg/tls/probe/version.go:145-154 | with its own preference, the suites found stand in the server's order |
| Enumerations.FoundInCatalogueOrder | pkg/tls/probe/version.go:145-154 | following the client, they stand in strictly ascending registry order |
| Orderings.FirstOutOfOrder | pkg/tls/probe/checks.go:74-86 | the nested loop computes the first inversion |
| Orderings.OutOfOrderExact | pkg/tls/probe/checks.go:74-86 | (0, 0) when the ranks never fall along the list, and otherwise the pair at the lexicographically first inverted positions |
| Orderings.PolicyOrderIs | pkg/tls/probe/checks.go:74-86 | a list is in order if and only if no suite stands before one of a better category |
| Orderings.InversionIsWorse | pkg/tls/probe/checks.go:74-86 | the pair reported is a suite before one of a better category |
| Orderings.BelowTls13 | pkg/tls/probe/probe.go:198-212 | the loop finds the first of the newest accepted versions below TLS 1.3 |
| Orderings.NewestBelowIs | pkg/tls/probe/probe.go:184-212 | that version is below the limit, none below the limit is newer, and it is absent only when there is none |
| Orderings.NewestIsFirst | pkg/tls/probe/probe.go:184-212 | of several results for that version it is the first |
| Orderings.Reversed | pkg/tls/probe/checks.go:88-95 | the filled slice is the reverse |
| Orderings.ProbeOrder | pkg/tls/probe/checks.go:18-69 | the two questions and the verdict on their answers |
| Orderings.NothingToOrder | pkg/tls/probe/checks.go:18-36 | with fewer than two suites the order counts as enforced and nothing is asked, and without a version nothing is reported |
| Orderings.OrderOfRule | pkg/tls/probe/checks.go:18-69 | a server with its own order is found out to have one and is reported exactly when that order falls in rank, at its first inversion; one that follows the client is reported for nothing |
| Orderings.EndToEnd | pkg/tls/probe/checks.go:18-69 | the same from the version probe on, whatever older or TLS 1.3 versions are accepted with it: what is reported is decided by the server's own list |
| Orderings.ViolationIsReal | pkg/tls/probe/checks.go:58-66 | whatever the server does, a reported violation is the first inversion of the list it was read from and both picks agreed |
| Servers.QuestionHeard | pkg/tls/probe/probe.go:347-375 | at every version, TLS 1.3 too, where the largest offer fits a record, every hello asked goes out, says what was asked, and is read as the version and suites asked |
| Servers.QuestionIsOrdinary | pkg/tls/probe/probe.go:347-375 | the fields a server reads: below TLS 1.3 extended_master_secret and renegotiation_info, at TLS 1.3 neither but the version, psk_dhe_ke and an X25519 share, at both the OCSP request, the point format and the ordinary groups and algorithms, and never a ticket |
| Servers.UsuallyWritable | pkg/tls/probe/probe.go:347-375 | the largest offer fits under any name of up to 255 bytes and any catalogue of up to 28672 suites a version |
| Servers.ChoosesExactly | pkg/tls/probe/probe.go:236-290 | a connection that goes by a rule, with or without a warning, is taken for its choice if and only if the read that stops the loop brings the hello |
| Servers.ServerFollows | pkg/tls/probe/probe.go:236-290 | at every version, TLS 1.3 too, a server that goes by a rule in the bytes it sends, its hello in time behind any warning, follows that rule as the probes see it |
| Servers.HushedEnumeration | pkg/tls/probe/version.go:155-209 | where a warning stops the reading before the hello, the enumeration ends there, complete, without what the server picked and with nothing noted |
| Servers.HushedVersion | pkg/tls/probe/version.go:48-100 | where that is the first answer, the version is reported as not accepted, with nothing noted |
| Servers.SomeServerHushes | pkg/tls/wire/server_response.go:16-19 | for every version below TLS 1.3 and every ranking there is a server that warns so |
| Servers.SomeServerServes | pkg/tls/probe/probe.go:236-290 | for any rules at all, one for each version, there is one server that goes by all of them |
| Servers.EnumeratedFromBytes | pkg/tls/probe/version.go:48-100 | from bytes to list at any version, TLS 1.3 too: exactly the server's suites, best first and complete, for exactly the connections that takes |
| Servers.FoundFromBytes | pkg/tls/probe/version.go:48-100 | from bytes to verdict at the newest version below TLS 1.3, whatever other versions are accepted: exactly the server's suites, best first, and its own order or its having none reported for what it is |
| Servers.AcceptingEverythingCostsOneLess | pkg/tls/probe/probe.go:9-13 | a server that accepts everything it is offered costs as many connections as it has suites, not one more |
| Scans.ScanIsVersionProbe | pkg/tls/probe/version.go:48-100 | the small steps of a scan, run alone, are the version probe |
| Concurrency.RunInv | pkg/tls/probe/version.go:18-46 | in every interleaving at most the limit of scans is in flight, every slot holds the result of its own version or none, grants are the attempts up to the budget, and the refusals are at most the phases noted and those about to be |
| Concurrency.SemaphoreHolds | pkg/tls/probe/version.go:19-28 | at no moment are more scans between semaphore and release than the setting allows, or one where it allows none |
| Concurrency.SemaphoreAdmits | pkg/tls/probe/version.go:19-28 | and as many as it allows can be there at once |
| Concurrency.RunOverComplete | pkg/tls/probe/version.go:18-46 | when a run is over every slot is filled with its own version and there is a phase noted for every refused attempt |
| Concurrency.WrittenOnce | pkg/tls/probe/version.go:30-41 | a slot has been written exactly once when it has a result, and otherwise never |
| Concurrency.CanGoOn | pkg/tls/probe/version.go:26-43 | no reachable state short of the end is stuck |
| Concurrency.RunBounded | pkg/tls/probe/version.go:26-43 | every run ends: its steps are bounded by the work there was |
| Concurrency.ScheduleMakesNoDifference | pkg/tls/probe/version.go:18-46 | against a server without a memory and with a budget that covers the scans one by one, every schedule ends with the results of the scans run alone, for the same connections |
| Runs.ScheduleFindsRules | pkg/tls/probe/version.go:18-46 | against a server with a rule for every version, which may remember what it likes, every schedule finds at every version exactly the rule's suites, best first and complete, for the sum of the costs and with nothing noted |
| Runs.WholeRun | pkg/tls/probe/probe.go:118-180 | the observation of any such run has those lists, and its order verdict is that of the newest version below TLS 1.3: enforced exactly when the rule there is the server's own, violated exactly when that order falls in rank |
| Runs.WholeRunFromBytes | pkg/tls/probe/probe.go:118-180 | the same against a server described at every version by the bytes it sends for the bytes it is sent |
| Runs.SomeServerServesAll | pkg/tls/probe/probe.go:118-180 | for any rules at all there is such a server |
| Questions.OrderAsked | pkg/tls/probe/checks.go:18-69 | against any server: where there is a version to ask at, whether the server has an order is missing exactly when one of the two questions was noted as unanswered |
| Questions.QuestionsDifferIn | pkg/tls/probe/checks.go:104-250 | the hello of each later question is the ordinary one of its version for these suites but for what it asks about: DEFLATE before null, just the four weak groups without a share, or just the retired algorithms |
| Questions.CompressionAsked | pkg/tls/probe/checks.go:104-135 | against any server: where there is a version to ask at, no method is reported exactly when the question was noted as unanswered |
| Questions.HushedOrder | pkg/tls/probe/checks.go:37-46 | where a warning stops the reading before the hello, the order is noted as undetermined |
| Questions.HushedCompression | pkg/tls/probe/checks.go:104-135 | and so is compression |
| Questions.CompressionFromBytes | pkg/tls/probe/checks.go:104-135 | the hello offers DEFLATE before the null method, and of a server described by its bytes the method reported is the one in its hello; a refusal is noted |
| Questions.GroupsAsked | pkg/tls/probe/checks.go:148-196 | against any server: a silence is noted and reports no weak group, and at most one group is reported |
| Questions.SelectedExact | pkg/tls/probe/checks.go:148-160 | at each version the group reported as selected is the one the last result for it settled on, and there is none where no result has one |
| Questions.GroupsFromBytes | pkg/tls/probe/checks.go:148-196 | the hello offers exactly the weak groups, at TLS 1.3 without a share, and the group reported is the one the server's hello or retry names, or the named curve its exchange is over |
| Questions.FiniteFieldGoesUnreported | pkg/tls/probe/checks.go:137-196 | a server that answers an offer of weak groups, finite fields among them, with an exchange over a finite field is reported as accepting none, with nothing noted |
| Questions.HushedGroups | pkg/tls/probe/checks.go:148-196 | where a warning stops the reading before the hello, no weak group is reported and nothing noted, whatever the server settled on |
| Questions.SignatureAsked | pkg/tls/probe/checks.go:206-305 | against any server: the answer about SHA-1, or about SHA-224, is missing exactly when that question or the whole check was noted |
| Questions.SigningExact | pkg/tls/probe/checks.go:307-319 | the suites asked about are those found whose key exchange keeps a session secret, in their order |
| Questions.SignatureFromBytes | pkg/tls/probe/checks.go:206-305 | a server that signs with a retired hash when offered nothing else is reported to, one that refuses is reported not to, and one whose signature cannot be read leaves a phase, for SHA-1 and SHA-224 each by itself |
| Questions.RetiredAlgorithms | pkg/tls/probe/checks.go:206-305 | the algorithms offered are RSA, DSA and ECDSA with the hash asked about, and a signature with any of them counts |
| Questions.SomeServerConducts | pkg/tls/probe/checks.go:206-305 | for every pair of such conducts there is a server that has them |
| Questions.HushedHash | pkg/tls/probe/checks.go:258-305 | where a warning stops the reading before the hello, a retired hash is reported as not accepted, with nothing noted, whatever the server signed with |
| Questions.SomeSignerIsHushed | pkg/tls/probe/checks.go:258-305 | for every retired hash there is such a server that signs with it |
| Questions.RenegotiationExact | pkg/tls/probe/checks.go:321-347 | secure renegotiation is what the newest version below TLS 1.3 echoed, client-initiated renegotiation is left open there, and it is ruled out where only TLS 1.3 is spoken |
| Phases.FinishProbe | pkg/tls/probe/probe.go:149-179 | the run after the version scan: nothing when no version was accepted, otherwise order, compression, groups, signatures, renegotiation and session in their order and the phases noted by all of them |
| Phases.AskedInTurn | pkg/tls/probe/probe.go:149-179 | every question is asked once, of the accepted versions and in this order, and each answer is reported as its own |
| Questions.OpenIffNoted | pkg/tls/probe/probe.go:149-179 | against any server: there is an observation exactly where a version was accepted, and what it leaves open, order, compression, either hash or the session, is what its phases name |
| Phases.NoRefusalUnreported | pkg/tls/probe/probe.go:118-180 | over every schedule, grants are the smaller of attempts and budget, the session leg included, and an observation has at least as many phases incomplete as connections were refused |
| EarlyDatas.NonceInjective | pkg/tls/probe/early_data.go:140-149 | two sequence numbers below 2^64 never give one nonce |
| Determinations.NonceIs | pkg/tls/probe/early_data.go:140-149 | the nonce is the iv with the sequence number, as twelve bytes, added in bit by bit |
| Determinations.XorAt | pkg/tls/probe/early_data.go:140-149 | exclusive or is that of every bit |
| Determinations.SealingIs | pkg/tls/probe/early_data.go:140-156 | a record opens under its key and nonce with its five header bytes authenticated beside the payload |
| EarlyDatas.Epoch.Open | pkg/tls/probe/early_data.go:140-166 | a record opens exactly when it was sealed under this key, sequence number and header; that alone moves the number |
| EarlyDatas.StripIff | pkg/tls/probe/early_data.go:158-165 | stripping gives a content and a type if and only if the plaintext is that content, that non-zero type and any zeros |
| EarlyDatas.EarlyDataFromTicket | pkg/tls/probe/early_data.go:263-312 | the method computes the size in the first early_data extension, or none where the ticket cannot be read that far |
| EarlyDatas.TicketRoundTrip | pkg/tls/probe/early_data.go:263-312 | every encoded ticket is read for what its first early_data extension offers |
| EarlyDatas.OfferedExact | pkg/tls/probe/early_data.go:289-312 | what a ticket offers is the first four bytes of its first early_data extension, and nothing where that is shorter |
| EarlyDatas.InspectEarlyData | pkg/tls/probe/early_data.go:174-259 | the loop with its two epochs and its flag computes the walk over the records |
| Determinations.NoKeysUndetermined | pkg/tls/probe/early_data.go:175-191 | for any stream: undetermined for want of secrets if and only if one is missing, and for the suite if and only if both are there and an epoch has no keys |
| Determinations.DeterminedMeans | pkg/tls/probe/early_data.go:174-259 | a determined answer had both key sets, and in the stream a record that opens under the application keys, or one of the handshake epoch with a Finished or with a ticket that says something of early data |
| Determinations.TicketBeforeFinished | pkg/tls/probe/early_data.go:229-251 | the last of these happens: a ticket sealed in the handshake epoch is believed with no Finished and no application record |
| Determinations.LostIsUndetermined | pkg/tls/probe/early_data.go:203-221 | a protected record that opens under no key that may be due leaves the answer undetermined whatever follows, for one reason before the change of keys and for another after it |
| Determinations.InspectionExactly | pkg/tls/probe/early_data.go:193-259 | an answer is undetermined only for such a record or because the records ended before the keys changed; records read to their end after it say that nothing is offered |
| Determinations.ForeignRecordUndetermined | pkg/tls/probe/early_data.go:203-221 | from the bytes: a record sealed under neither key set, behind any honest stream without an offer, leaves it undetermined |
| EarlyDatas.NoncesNeverReused | pkg/tls/probe/early_data.go:193-231 | over any bytes at all the keys change at most once, the number of every opening is the count of openings before it in its epoch, and no epoch uses a nonce twice |
| EarlyDatas.HonestStream | pkg/tls/probe/early_data.go:174-259 | an honest stream, with any padding, unprotected records anywhere and a record cut short at its end, gives the size of the first offering ticket, none where it is zero or there is none, and is undetermined exactly when no key change could be seen |
| EarlyDatas.FirstOfferExact | pkg/tls/probe/early_data.go:223-251 | of the application records the first with an offering ticket decides |
| EarlyDatas.AnswerIs | pkg/tls/probe/early_data.go:243-259 | a size of zero is no offer |
| EarlyDatas.TicketAfterFinished | pkg/tls/probe/early_data.go:223-251 | the inspection of the shortest honest stream, a record with a Finished and a record with any ticket, returns what the ticket offers |
| Sorting.SortedStrings | pkg/tls/connection_analysis/analysis/key_exchange.go:183-194 | the in-place sort of a copy leaves its input alone and gives the sorted list |
| Sorting.SortSorts | pkg/tls/connection_analysis/analysis/key_exchange.go:183-194 | the result is ordered, holds exactly what was sorted, and keeps the order of what ranks the same |
| Sorting.SortForgetsOrder | pkg/tls/connection_analysis/analysis/key_exchange.go:183-194 | under a total order the result does not depend on the order it was given |
| Sorting.BeforeIsTotal | pkg/tls/connection_analysis/analysis/key_exchange.go:188 | comparing strings is such an order |
| Sorting.StableUnique | cmd/altshift_web_security/report.go:62-66 | there is only one ordered and stable arrangement of a list |
| Findings.IterationOrderForgotten | pkg/tls/connection_analysis/analysis/key_exchange.go:22-62 | whatever order a map is iterated in, the sorted names are the same |
| Findings.AnalyzeKeyExchangeParameters | pkg/tls/connection_analysis/analysis/key_exchange.go:14-93 | the findings are a function of the observation, through two iterations in any order, and none where the groups were not tested |
| Findings.GroupFindingsExact | pkg/tls/connection_analysis/analysis/key_exchange.go:14-93 | each rule is raised exactly where it should be: insufficient for a selected group neither good nor on its way out, phase-out for one that is, weak for any stooped to, and small for a prime under 2048 bits |
| Findings.UntestedSilent | pkg/tls/connection_analysis/analysis/key_exchange.go:14-20 | where groups were not asked about nothing is reported |
| Findings.GroupFindingsList | pkg/tls/connection_analysis/analysis/key_exchange.go:14-93 | each finding lists the names of just those groups, in order |
| Findings.FindingsAreDressed | pkg/tls/connection_analysis/analysis/key_exchange.go:14-141 | each has the policy's level for its rule, its title, and in its message the names or numbers it lists |
| Findings.NamesApartByComma | pkg/tls/connection_analysis/analysis/versions.go:212-222 | joined names are separated by a comma and a space |
| Findings.AnalyzeFiniteField | pkg/tls/connection_analysis/analysis/key_exchange.go:101-141 | the loop computes the finding about the smallest prime |
| Findings.FiniteFieldExact | pkg/tls/connection_analysis/analysis/key_exchange.go:101-141 | a finding is raised exactly when an accepted version was measured below the minimum, about the earliest of those with the smallest prime |
| Findings.BuildRules | pkg/tls/connection_analysis/analysis/analysis.go:81-107 | the loop with its seen map computes the rule table |
| Findings.RuleIdsExact | pkg/tls/connection_analysis/analysis/analysis.go:81-107 | each non-empty rule id raised has one row, no other has one, and rows stand in the order of first occurrence |
| Findings.RowTexts | pkg/tls/connection_analysis/analysis/analysis.go:81-107 | a row has its rule's title and description, and leaves off an empty or missing one |
| Findings.AnalyzeConnection | pkg/tls/connection_analysis/analysis/analysis.go:47-79 | the results of every check in order, then one open question for each phase cut short |
| Findings.RunIsBlocks | pkg/tls/connection_analysis/analysis/analysis.go:47-79 | the run is the results of the checks end to end in their order, then one open question at level none for each phase in its order, with its name and reason, and nothing else |
| Findings.FoundIffReported | pkg/tls/connection_analysis/analysis/analysis.go:47-79 | a result is in the run if and only if some check returned it or it is a phase's open question |
| Findings.RefusalIsReported | pkg/tls/connection_analysis/analysis/analysis.go:58-67 | from any schedule of the version scan to the report: after a refused connection there is an open question at level none for every phase noted, at least one, and its rule has a row |
| Reports.FilterResults | cmd/altshift_web_security/report.go:41-58 | the loop keeps what is at or above the level, in order |
| Reports.KeptByLevel | cmd/altshift_web_security/report.go:20-58 | what each choice of level keeps, level by level |
| Reports.OpenQuestionsWithheld | cmd/altshift_web_security/report.go:41-58 | an open question survives the filter if and only if nothing is withheld |
| Reports.SortResults | cmd/altshift_web_security/report.go:62-66 | in place, the stable arrangement with the worst first |
| Reports.ReportOrder | cmd/altshift_web_security/report.go:62-66 | a list is that arrangement if and only if levels never rise along it and within every level it is as the analysis had it |
| Reports.ReportByLevel | cmd/altshift_web_security/report.go:20-66 | the report is the errors, then the warnings, then the notes, then the rest, each in the order the analysis had |
| Reports.PruneRules | cmd/altshift_web_security/report.go:69-95 | the two loops keep exactly the rules something was raised under |
| Reports.LogConsistent | cmd/altshift_web_security/report.go:41-95 | after filtering, sorting and pruning the table has exactly the non-empty rule ids of the surviving results, each once, as a sublist of the table the analysis built |
| Reports.FinishRun | cmd/altshift_web_security/tls.go:171-175 | the filter, the sort and the pruning applied in that order to a run |
| Wrapping.Wrap | cmd/altshift_web_security/report.go:196-221 | the loop computes the greedy lines, breaking at white space as Unicode has it and counting encoded bytes |
| Wrapping.SizeIsBytes | cmd/altshift_web_security/report.go:196-221 | the length of a line is that of its bytes |
| Wrapping.SpacesAre | cmd/altshift_web_security/report.go:196-221 | words end at the code points Unicode calls white space |
| Wrapping.WrapKeepsWords | cmd/altshift_web_security/report.go:196-221 | the words of the lines are the words of the text, and only a line of a single word overruns |
| Wrapping.WrapIsShortest | cmd/altshift_web_security/report.go:196-221 | no other lines with the same words and the same right to overrun are fewer |

## Left out

- Answers.ServerFlightRoundTrip: is stated below TLS 1.3, where the whole flight is in the clear; at TLS 1.3 a flight ends with its ServerHello and is covered by Answers.AnswerExactly and Speeches.HeardExactly.
- Speeches.HeardExactly: a refusal is one fatal alert in a record of its own; a server that says part of a flight and then refuses is not described. The alerts of a flight come before the last of its handshake and the encrypted records after it; Answers.AnswerExactly and Answers.ServerFlightRoundTrip have them anywhere.
- Servers.FoundFromBytes: is stated below TLS 1.3, where the order of suites is asked about at all; Servers.EnumeratedFromBytes and Runs.WholeRunFromBytes cover TLS 1.3.
- Questions.GroupsFromBytes: that the server picks among what was offered is not needed and not assumed.
- EarlyDatas.HonestStream: a ticket or a Finished split over two encrypted records is not put together again by the source, and is not seen; the model counts only messages whole within one record. Key updates are not part of an honest stream.
- Enumerations.EnumerationSound: does not say that later hellos are of the version first negotiated, because the source does not look.
- Concurrency.RunInv: starting a scan, taking a connection, hearing its answer, writing a slot and releasing the semaphore are single steps; hearing an answer and noting what it leaves unfinished are one step.
- Reports.SortResults: the library's stable sort is not shown in the source and stands as an insertion sort; Reports.ReportOrder shows that no other stable sort could give anything else.
- The wording of messages and errors: errors are told apart only where the source acts on the difference, and a parse failure is an absent value.
- Nil receivers, readers and rules, which the source answers with an error or passes over; a nil result, version or group list is modelled, as an absent one.
- Sockets, dialling, deadlines, backoff and cancellation: what a connection does is the server's choice, and a cancelled run is a failure that is not retried.
- The size of the read buffer: a read brings any number of bytes.
- The connection counter's 64-bit width: it does not wrap in the model.
- Key derivation, key logs and ciphers: keys come from a parameter, and the AEAD is ideal.
- Generating random bytes and key shares, and their failing.
- What the session leg finds (OCSP stapling, the recorded connection): it is a parameter, and only its use of the budget is modelled.
- The other analyzers, which are parameters of Findings.AnalyzeConnection, and the catalogue, policy lists, rule ids and texts.
- Header analysis, security.txt, command line handling, and JSON and SARIF output.
