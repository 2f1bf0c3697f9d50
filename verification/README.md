# Sederial, modelled and verified in Dafny

Sederial is a split-DNS forwarder: it accepts DNS queries over UDP and TCP, answers some names from local A
policy, selects a group of upstream servers for the others by the longest configured suffix, and relays one
validated response. This project models the parts of it that decide what is accepted, what is sent and what is
answered, and proves what those parts promise together.

To check everything, run `dafny verify dfyconfig.toml` with Dafny 4.11.

## What is modelled

**The wire codec.** `Names`, `Types`, `Options`, `Messages`, `Records` and `Reader` model name decompression, the
message parser and the two walks over EDNS options. `Reader` is the imperative parser with its cursor; each of its
methods equals a step of the specification functions in `Records`, and `Grammar` proves that those functions accept
exactly a declarative grammar that has no cursor, no count guard and no loop state: names that *expand* by a relation,
questions and records that lie side by side, options that fill their RDATA, known RDATA layouts consumed exactly.
`WireMeaning` reads every field of the decoded packet off the octets, by offset and number, and does the same for the
classification of queries; the theorems about acceptance and replies are stated in its terms.

**Edits under parsed offsets.** The forwarder keeps a decoded view of a packet while it changes the packet's bytes.
`HeaderEdits` proves that replacing the ID or clearing RA never lets view and bytes disagree, because no name is read
from the header. `Cookies`, `CookieRetry` and `CookieRewrite` model the COOKIE rewriter, which grows an option and
patches two lengths in place. A compression pointer may target the middle of a label and labels then read forward, so
a question can run into the cookie behind it. `CookieRewrite.RewriteKeepsAllButName` says exactly when a rewrite keeps
the meaning of a query whose only additional record is its OPT: the name at the start of the question must still
decode to the same labels. Two results say so in terms of what the query reads. `CookieRewrite.RewriteKeepsMeaning`
needs the name to decode from the octets before RDLENGTH, as every uncompressed name does and many compressed ones.
`CookieRewrite.RewriteKeepsNameBeforeChange` is the converse as well: the question is kept if and only if its name
decodes from the octets before the first one that the rewrite changes, which is in RDLENGTH whenever the size changes.
It leaves open only names with a pointer across that octet, whose two targets may happen to spell the same labels.
`CompressedQuestion.CompressedRewriteChangesQuestion` is a validated exchange in which a compressed question changes.

**Replies.** `Replies` prints local answers, errors and TC replies; `ReplyRoundTrip` and `ReplyMeaning` prove that
each of them parses to what it was meant to say, including the answer whose owner is the pointer `0xc00c`.
`ReplyContent` says in numbers what the reply to any packet has to be, without the functions that choose or print it.

**The exchange.** `Transport` frames messages over a stream that reads and writes any number of octets or fails.
`Exchanges` says what one exchange is, over UDP with the move to TCP after a truncated answer, or over TCP with one
cached stream and a single reconnect, and `Acceptance` which octets answer a query. `Attempts` says what one server
gets: a list of exchanges in which a BADCOOKIE leads to the next as section 5.3 of RFC 7873 asks, and `Walks` what one
group gets: attempts in order under one deadline. What these lists imply (bounds on what is sent, which query is
answered, which response wins) is proved about them, and `Upstream` proves that the methods of the forwarder produce
such lists and nothing else. `Forwarding` composes everything into the reply to a client packet.

**Routing and workers.** `Routing` proves the lookup to be a declarative longest match over names that are spelled by
labels put before a suffix. `Pool` is the worker pool as a step system over every interleaving.

## How the environment enters

* Time is a natural number that only grows, the stop flag is only raised, and every system call may fail with any
  kind of error that a system call can report. Datagrams, stream contents and transaction IDs are arbitrary.
* A loop that waits checks its deadline in every turn. `Transport.Platform.patience` says that only finitely many
  checks can succeed before time moves past a deadline; its value is arbitrary.
* What is sent, and every write with the time and deadline of the check before it, is recorded in a ghost trace.
  `Transport.Platform.Valid` says that each write was preceded by a check that still had time, and the methods that
  write require that check.
* What the system does is recorded too (`Transport.Moment`): checks that found time left and checks that found none,
  calls that may wait, calls that failed for good, IDs that could not be read, datagrams, and what each read of a
  frame moved; those pieces together are all octets that arrived (`Transport.Platform.Valid`).
* An exchange ends in the first answer that arrived, validated against what was sent, or in an error with a cause
  (`Exchanges.GoodTry`): the last call failed, the deadline passed, a stop, a last frame that is rejected or a length
  that no message has, or 64 datagrams that are ignored. It never ends in an error after an answer, unless the first
  check after its arrival found that it was too late, and it does not merely let time pass: but for a fixed number,
  each check comes with a call. Between exchanges, attempts and replies there is at most the check or two that the
  code makes.
* A pool run is any sequence of enabled steps. A step is one access to the queue under its lock, one load or store of
  a flag, or one completion sent or received.

## Where comments and code differ

* src/upstream.rs:81-82 says that failing to obtain a transaction ID aborts the walk. That holds for the first ID of
  an attempt (line 98). The ID of a cookie retry is read at line 201, and its failure moves on to the next server
  (lines 113-117). The model follows the code: a walk is cut short for an ID only if nothing else was asked for since
  the end of the last attempt (`Walks.Cut`).
* src/upstream.rs:92-93 retains the last validated SERVFAIL or REFUSED, yet lines 97, 130 and 139 return an error when
  the request has expired even if one was retained. `Walks.WalkMeaning` gives the exact condition: a walk with a
  validated response ends in an error if and only if there was a stop, the request expired, or the next attempt could
  not begin.
* The next attempt cannot begin if its ID cannot be read, or if its own two-second budget runs out before its first
  check (lines 96-98). Either ends the walk, although later servers have not been tried: an attempt counts as one only
  after a check that found time left and an ID that could be read (`Walks.GoodAttempt`).
* In src/dns/name.rs:70-76 the visited set is consulted before the direction of a pointer, so a repeated target is
  reported as a loop even where it would also be an invalid pointer.

## Model

| member | source | states |
|---|---|---|
| Names.DecodeName | src/dns/name.rs:56-114 | The decoding loop, with its visited set, hop cap, length cap and frozen cursor, returns the labels, the cursor and the error kind of the recursive decoder about which the lemmas below speak |
| Names.DecodeIffNameSpan | src/dns/name.rs:56-114 | Decoding succeeds with given labels and end if and only if the octets expand to those labels through at most 128 backward pointers, within 255 octets, and end where they physically end |
| Names.RejectedNamesDoNotExpand | src/dns/name.rs:67-101 | A rejected name that does expand is rejected only for length or depth, and then really exceeds one of those limits; a reported loop therefore has no expansion of any length |
| Names.ExpansionIsUnique | src/dns/name.rs:56-114 | Octets at a position expand to at most one list of labels through one list of jumps |
| Names.JumpsAreDistinct | src/dns/name.rs:69-79 | No expansion jumps twice to the same target, so the visited set rejects nothing that expands |
| Names.DecodedIsValid | src/dns/name.rs:56-114 | Decoded names satisfy the label and name limits, and the cursor moves strictly forward, stays in range and stops at the physical end |
| Names.DecodeReadsNoHeader | src/dns/name.rs:74-76 | Decoding from behind the header gives the same result on any two messages that agree from offset 12 on, errors included |
| Names.DecodeReadsPrefix | src/dns/name.rs:56-114 | A name that decodes inside a prefix of a message decodes to the same labels and end in the whole message |
| Names.PhysicalEndReadsPrefix | src/dns/name.rs:66-112 | Where a name physically ends depends only on the octets before that end, wherever its pointers lead |
| Names.EncodeName | src/dns/name.rs:117-123 | Encoding appends the uncompressed form and leaves what was there |
| Names.DecodeOfEncode | src/dns/name.rs:117-123 | Every valid name that is encoded anywhere in any message decodes to itself and to the end of its encoding |
| Names.DecodePointerTo | src/dns/name.rs:69-89 | A two-octet pointer to an earlier encoded name decodes to that name and ends after two octets |
| Names.SameNameIsSameLabels | src/dns/name.rs:20-24 | Comparison as mutual suffixes is equality label by label and octet by octet, up to the case of the letters A to Z |
| Names.SubdomainIffBelow | src/dns/name.rs:37-45 | A name is below a suffix if and only if some labels put before the suffix spell the name, octet by octet up to the case of the letters A to Z |
| Names.SuffixesOfOneName | src/dns/name.rs:37-45 | Two suffixes of one name with equally many labels are the same name |
| Types.WireCodesRoundTrip | src/dns/types.rs:54-188 | Every 16-bit code of a record type, class or response code survives reading and writing, named or not |
| Types.CodeNumbers | src/dns/types.rs:54-188 | Each named record type, the class IN, each named response code and the standard opcode stand for one number, which is given |
| Options.ValidateIffFilled | src/dns/parser.rs:232-243 | The validating walk accepts RDATA exactly when options lie side by side up to its end |
| Options.TilingIsUnique | src/dns/parser.rs:232-243 | RDATA can be divided into options in only one way |
| Options.LocateCookie | src/dns/cookie.rs:39-66 | The locating loop with its moving cursor computes the walk whose result the next two lemmas describe |
| Options.LocateFindsFirst | src/dns/cookie.rs:39-66 | Over options that lie side by side, locating finds exactly the first COOKIE option, malformed exactly when that one has a bad length |
| Options.LocatedSlotFits | src/dns/cookie.rs:46-58 | A located slot lies within the RDATA, its length octets precede its data and hold its length, and RDLENGTH is where the slot says |
| Reader.Reader.Take | src/dns/parser.rs:47-58 | Returns exactly the next octets and advances by their number, or reports the end and does not move |
| Reader.Reader.Name | src/dns/parser.rs:67-69 | Decodes against the whole message from the cursor and moves the cursor to the physical end |
| Reader.Reader.ReadResourceRecord | src/dns/parser.rs:80-101 | Reads the envelope of one record and stops at its data, whether or not the data is there |
| Reader.ValidateOptions | src/dns/parser.rs:232-243 | The loop over option headers accepts exactly the RDATA that the option walk accepts, and fails only as an EDNS error |
| Reader.ReadSections | src/dns/parser.rs:179-217 | The three counted record loops, with their updates of OPT, cookie and authentication state, give one fold over the sections in order |
| Reader.ParseMessage | src/dns/parser.rs:120-229 | The imperative parser returns the packet, or the error with its reply context, of the parser that the grammar characterises |
| Grammar.ParserIsSound | src/dns/parser.rs:120-298 | An accepted message is a sentence of the grammar, and the packet is read off its questions and records alone |
| Grammar.ParserIsComplete | src/dns/parser.rs:120-298 | Every sentence of the grammar is accepted, with the packet of any of its readings; hence a message has one reading |
| Grammar.ParserAcceptsGrammar | src/dns/parser.rs:120-298 | The parser accepts exactly the sentences of the grammar |
| Grammar.GuardAcceptsMessages | src/dns/parser.rs:150-167 | The early guard on counts rejects no sentence of the grammar |
| Grammar.QuestionsTakeSpace | src/dns/parser.rs:15-16 | Questions take at least 5 octets each, which is what the guard relies on |
| Grammar.RecordsTakeSpace | src/dns/parser.rs:15-16 | Records take at least 11 octets each, which is what the guard relies on |
| Grammar.ValidateDataIff | src/dns/parser.rs:246-298 | RDATA is accepted exactly when it is the layout of its type, consumed to the last octet |
| WireMeaning.HeaderMeaning | src/dns/message.rs:61-90 | Every header field by its octets: the ID and the counts by offset, QR, opcode, TC, RA and the low code by bit |
| WireMeaning.OptMeaning | src/dns/parser.rs:185-209 | A parsed packet has OPT metadata if and only if some record has type 41, and then UDP size, extended code, version and DO are those of the octets of that record |
| WireMeaning.OptIsAdditional | src/dns/parser.rs:186-192 | A record of type 41 in a message that parses lies behind the answers and authorities that the header counts |
| WireMeaning.AuthenticationMeaning | src/dns/parser.rs:214-216 | A packet counts as authenticated if and only if it has a record of type 249 or 250, or one of type 24 in the additional section |
| WireMeaning.CookieMeaning | src/dns/parser.rs:185-209 | The cookie field is there if and only if the OPT record has an option 10, and holds offset and length of the first of them, or a mark that the length is neither 8 nor 16 to 40 |
| WireMeaning.CodeMeaning | src/dns/message.rs:170-175 | The response code is the low four bits of the fourth octet with the extended code of OPT above them |
| WireMeaning.LimitMeaning | src/dns/message.rs:177-181 | A size exceeds the client's UDP limit if and only if it is over 512 and, with OPT, over the announced size or over 1232 |
| WireMeaning.QuestionMeaning | src/dns/parser.rs:70-79 | The questions of a packet are those of the grammar, as many as the header counts; the first name is spelled from offset 12, followed by its type and class numbers |
| WireMeaning.DecisionMeaning | src/dns/message.rs:188-226 | The classification of any message by its octets: a response is ignored, a query is refused with 4, 1, 16 or 5 in that order of checks, and everything else is accepted, in both directions |
| HeaderEdits.ParseSameBody | src/dns/parser.rs:135-229 | Two messages that differ only in ID and in flags other than opcode are accepted alike, fail alike, and decode alike but for header and bytes |
| HeaderEdits.WithIdIsSound | src/dns/message.rs:164-168 | After replacing the ID, a fresh parse yields the old decoded view with only bytes and ID changed |
| HeaderEdits.WithoutRecursionIsSound | src/dns/reply.rs:17-20 | Clearing RA keeps a packet parsable with every other header field, question, record and the combined response code |
| CookieRetry.CookieIsFirstOption | src/dns/parser.rs:185-209 | On every accepted packet with OPT the cookie field is that of the first COOKIE option in the list the validator accepted; malformed only for a bad cookie length |
| CookieRetry.AcceptedSlotFits | src/dns/cookie.rs:39-66 | The slot of every accepted packet satisfies the offset, length and RDLENGTH relations and lies behind the OPT envelope |
| CookieRetry.AcceptedCookies | src/dns/cookie.rs:69-76 | On accepted packets every later slice through the slot is in range |
| CookieRetry.CookieNeedsOpt | src/dns/parser.rs:185-209 | A packet with a cookie has EDNS |
| CookieRetry.BadCookieAllowsRetry | src/dns/cookie.rs:90-128 | After a validated BADCOOKIE the retry is never absent: the same bytes if the server returned the cookie that was sent, TCP if a rewrite would move what lies behind the cookie, otherwise a rewrite, which is discarded exactly when it would exceed 65535 octets |
| CookieRetry.RewriteSucceeds | src/dns/cookie.rs:130-153 | On a slot of an accepted packet the rewriter's arithmetic fails only by message size |
| Cookies.RewriteCookie | src/dns/cookie.rs:130-153 | Splicing into one buffer and patching the option length and then RDLENGTH in place gives the bytes that the rewrite lemmas describe, and fails for the same inputs |
| CookieRewrite.RetryRewrites | src/dns/cookie.rs:90-128 | A rewrite changes only RDLENGTH, the option length and the cookie data, leaves every other octet at its offset, and writes the client's eight octets followed by the server's cookie |
| CookieRewrite.RewrittenParses | src/dns/cookie.rs:130-153 | Octets rewritten in that way parse exactly when the question name in them decodes, and then differ from the query in that name and the cookie alone |
| CookieRewrite.RewriteKeepsAllButName | src/dns/cookie.rs:90-153 | A rewrite of a query whose only record is its OPT keeps everything but possibly the question name, carries client and server cookie, and asks for no further rewrite; it keeps the question if and only if the new octets still spell it |
| CookieRewrite.RewriteKeepsMeaning | src/dns/cookie.rs:90-153 | If the question name decodes from the octets before RDLENGTH, every rewrite keeps the whole meaning, and the name still does so |
| CookieRewrite.RewriteKeepsNameBeforeChange | src/dns/cookie.rs:90-153 | Unless a pointer of the name covers the first changed octet, a rewrite keeps the question if and only if the name decodes from the octets before that one, which is in RDLENGTH if the size changes |
| Names.ExpandsBeforeChange | src/dns/name.rs:56-114 | Messages that first differ at some octet, covered by no pointer, and spell the same name there do so without that octet or any behind it |
| CookieRewrite.UncompressedStandsAlone | src/dns/cookie.rs:90-153 | Questions written without compression decode from the octets before RDLENGTH |
| CompressedQuestion.CompressedRewriteChangesQuestion | src/dns/message.rs:343-350 | There is a forwardable query and a validated BADCOOKIE response for which the rewritten query asks another question |
| Replies.MakeReply | src/dns/reply.rs:148-205 | The printer, which appends part by part, produces header, question, answer and OPT side by side with the counts of what is there |
| ReplyRoundTrip.PrintedFlags | src/dns/reply.rs:156-173 | A reply has QR and RA, TC as asked, the query's opcode, RD and CD, and the low four bits of the code |
| ReplyRoundTrip.ReplyParses | src/dns/reply.rs:148-205 | Every printable reply parses, to exactly the question, code, flags, OPT and cookie it was printed from, and fits in 512 octets |
| ReplyMeaning.ErrorReplyAnswers | src/dns/reply.rs:120-130 | An error reply parses and corresponds to its query, with its ID, question, code and DO bit, without a cookie |
| ReplyMeaning.LocalAReplyAnswers | src/dns/reply.rs:87-108 | A local answer is suppressed exactly when the client supplied a server cookie; otherwise it parses and corresponds to the query, and carries one A record owned by the question name with the configured TTL and address exactly for IN A and ANY |
| ReplyMeaning.TruncatedReplyKeepsMeaning | src/dns/reply.rs:131-144 | A TC reply for a response without invented OPT parses to the same combined 12-bit code and the same cookie octets, corresponds to the query and has TC |
| ReplyMeaning.FailureContextIsSafe | src/dns/parser.rs:120-133 | The context of a parse failure comes from a query header, holds only a valid question, and EDNS data only for an EDNS error |
| ReplyMeaning.FormatReplyAnswers | src/dns/reply.rs:51-65 | Every reply to a packet that does not parse is a FORMERR response under the packet's ID that itself parses, with OPT, the DO bit and the question exactly if the failure kept them |
| ReplyMeaning.RejectionParses | src/dns/reply.rs:111-130 | A rejected packet, whatever its number of questions, gets a reply that parses, under its ID, with the code of the rejection |
| ReplyMeaning.RejectionCodeFits | src/dns/message.rs:188-226 | A code that needs OPT is used for a rejection only when the query has OPT |
| SentQueries.SentIsSound | src/dns/message.rs:294-303 | The bytes of a first attempt are those of the query behind the new ID; they parse to its decoded view although nothing was parsed again, and stay forwardable |
| SentQueries.RetryIsSound | src/dns/message.rs:343-350 | The bytes of a retry parse to its decoded view, under the new ID, with every other octet as given |
| SentQueries.RetryOfSameBytes | src/dns/message.rs:343-350 | Retrying unchanged bytes always succeeds and changes only the ID |
| SentQueries.RetryOfRewrite | src/dns/message.rs:343-350 | Retrying the rewrite of a plain query (OPT its only additional record, question name decodable from the octets before RDLENGTH) succeeds and yields a plain, forwardable query with the same question and EDNS fields |
| SentQueries.RewriteIsNew | src/dns/cookie.rs:90-128 | Behind the ID, a rewrite always differs from the bytes that were sent |
| Acceptance.AcceptedIffAnswers | src/dns/message.rs:321-335 | A message is accepted as the answer to a sent query if and only if its octets say so: the same ID, QR, no TC, the same opcode and question, OPT of version 0 and only if the query has it, no authentication, and a cookie of 16 to 40 octets that starts with the query's eight, or none where none is required and the code is not 23 |
| Acceptance.TruncatedIffCutOff | src/dns/parser.rs:20-39 | A datagram calls for TCP if and only if its octets are a response with TC, the same ID and opcode, and one question, the same, that can be read from offset 12 whatever follows |
| Transport.Platform.Remaining | src/transport.rs:33-51 | Time left is reported only before the deadline without a stop; a stop takes precedence over expiry |
| Transport.ReadExact | src/transport.rs:78-102 | Any sequence of partial reads and transient failures fills the buffer with consecutive octets, and end of file counts as none only before the first octet |
| Transport.ReadFrame | src/transport.rs:112-136 | A frame that is returned took exactly its own octets from the stream; none is returned only at a frame boundary at the end; short lengths and cut frames are errors; an error after a whole frame means a stop or expiry; what was moved is recorded |
| Transport.WriteFrame | src/transport.rs:144-176 | Success has written exactly one frame, failure a prefix of one, and every write follows a successful check against the given deadline |
| Transport.FramingRoundTrip | src/transport.rs:78-176 | Reading a stream of frames returns the messages in order and then the end, for every chunking and every transient error, unless the connection fails or a budget expires |
| Transport.FrameIsUnique | src/transport.rs:112-136 | Octets have at most one first frame |
| Upstream.SendOverTcp | src/upstream.rs:312-324 | Success means one message written, one frame read and validated against exactly that message as the last to arrive, and the stream still in step; failure means that the last call failed, expiry, a stop, or a last frame that is rejected, and that no frame answered the message in time |
| Upstream.Judge | src/upstream.rs:319-323 | A message is accepted if and only if it parses and is validated against the bytes that were sent, and if and only if its octets answer theirs (`Acceptance.AnswersOctets`); the error says which of the two failed |
| Upstream.Forwarder.ExpireIdle | src/upstream.rs:62-70 | The cached stream is dropped exactly when it has been idle for two seconds by the clock that is read |
| Upstream.Forwarder.TcpExchange | src/upstream.rs:269-309 | At most two copies of one message are sent, two only after the exchange on a matching unexpired stream failed without an answer in time; after such a failure another connection is asked for unless there is no time; the reused stream is kept exactly when it worked; after any failure nothing is cached; a cached stream has read as many correlated frames as it wrote; an error has a cause, and no answer that arrived in time is dropped |
| Upstream.Forwarder.UdpExchange | src/upstream.rs:215-266 | One datagram is sent, and TCP is used only after a truncated response with the right header and question; every earlier datagram was rightly ignored, the last one is the answer, and giving up on the peer takes 64 ignored ones; any other error has a cause, and no answer that arrived in time is dropped |
| Upstream.Forwarder.RunExchange | src/upstream.rs:104-107 | Whatever the transport, an exchange is a good one: it began with time left, spent its time in calls, and ended in the first answer to its own query or in an error with a cause and without an answer in time |
| Upstream.Forwarder.RetryExchange | src/upstream.rs:192-206 | A retry keeps the deadline and every octet behind the ID, and does not begin only for want of time, a stop, an ID, or bytes that parse |
| Upstream.Forwarder.FinishBadcookie | src/upstream.rs:147-190 | After a first BADCOOKIE the exchanges follow the cookie protocol to its outcome, and everything that is sent belongs to them |
| Attempts.ChainShape | src/upstream.rs:147-190 | At most three exchanges with one server, two for a TCP client; only a BADCOOKIE is followed by another exchange; a second datagram carries new bytes and a third exchange goes over TCP |
| Attempts.StepMeaning | src/upstream.rs:156-188 | Only code 23 is followed by another exchange: the rewritten query if the new cookie can be put into it, the first time over the client's own transport and then over TCP; otherwise the same bytes over TCP |
| Attempts.AttemptEnds | src/upstream.rs:147-190 | Whatever is not code 23 is the outcome, and so is a 23 over TCP with nothing left to try; any other 23 ends an attempt only if the rewrite would be too long or the retry could not begin |
| Attempts.NoAnswerIsDropped | src/upstream.rs:101-120 | An attempt that fails had no validated response but a BADCOOKIE that asks for a retry, and none of its exchanges failed after an answer that arrived in time |
| Attempts.AttemptAnswers | src/upstream.rs:101-122 | What an attempt hands back is validated against the last query sent and answers it octet by octet, has OPT only if the client's query has, and answers the client's question unless a query that is not plain was rewritten |
| Attempts.BadCookieIsSettled | src/upstream.rs:156-188 | A BADCOOKIE is handed back only from TCP, and to a TCP client only after the rewritten query was tried or when there is nothing to rewrite |
| Attempts.AttemptIsServerWork | src/upstream.rs:96-120 | One server gets at most 8 sends of at most 3 messages, at most 2 of them datagrams, never two datagrams with the same bytes behind the ID, and no datagram for a TCP client |
| Attempts.BadCookieIsNeverAbsent | src/upstream.rs:155 | A validated BADCOOKIE never takes the branch for queries without a cookie |
| Walks.AttemptMeaning | src/upstream.rs:95-122 | An attempt sends the client's own query first, on the client's own transport, keeps the bounds on its work, hands back an answer to that query validated against the last message sent, and fails only without any answer in time but such that ask for a retry |
| Upstream.Forwarder.Forward | src/upstream.rs:83-141 | Every request is one good walk: servers in order and one after the other, each a full attempt with its own budget under the request's deadline, the result of the plain walk over their outcomes, and an end before that only on a stop, on expiry of the request, or when the next attempt could not begin. Another server is asked only after a failure or a response with code 2 or 5; a response with any other code is the result unless the request expired or was stopped |
| Walks.WalkMeaning | src/upstream.rs:94-140 | A response whose code is neither 2 nor 5 is final and ends the walk, or nothing was final, every server was tried and every later attempt failed; a walk ends in an error if and only if there was a stop, expiry of the request, a next attempt that could not begin, or no response from any server; a saved response changes nothing about the first three |
| Walks.WalkRetries | src/upstream.rs:121-140 | Only code 2 or 5 is followed by another server; any other code is the result in time, and servers are left out only after it, for want of time, on a stop, or when the next attempt could not begin |
| Routing.NewGroup | src/routing.rs:58-68 | A group is accepted unchanged if and only if it has 1 to 8 servers without repetition, and size is checked first |
| Routing.NewTable | src/routing.rs:111-142 | A table is built if and only if no two rules of either kind name the same suffix, and is then prepared for lookup; otherwise the error names the first repetition |
| Routing.SortKeeps | src/routing.rs:135-136 | Preparing the lookup order permutes the rules and puts more labels first |
| Routing.SelectIsLongestMatch | src/routing.rs:149-171 | Selection is the declarative longest match over routes and local records together, where a rule matches the names that end in the labels of its suffix, octet by octet up to case; the default is used only when nothing matches |
| Routing.PreparedSelectsLongest | src/routing.rs:149-171 | The same for every table that construction can yield |
| Routing.WinnerIsUnique | src/routing.rs:149-171 | There is only one selection that is a longest match |
| Routing.MatchesDoNotTie | src/routing.rs:161-165 | Two matching rules never have equally many labels, within or across the two kinds |
| Routing.OrderDoesNotMatter | src/routing.rs:111-171 | Permuting the configuration changes neither acceptance nor any selection |
| Routing.SelectIgnoresCase | src/routing.rs:149-171 | Names that differ only in ASCII case are routed alike |
| Forwarding.RequestHandler.RespondToQuery | src/forwarding.rs:102-132 | If the name selects a group, one walk over its servers takes place, and the reply says what the longest match and the result of that walk call for (`ReplyContent.SaysSelected`); all sends and writes are those of the walk, before the deadline; silence means expiry, shutdown, or that this reply is to be suppressed |
| Forwarding.RequestHandler.Respond | src/forwarding.rs:48-133 | Every reply parses, has QR and the client's ID, fits the client's UDP limit, and says what is due (`ReplyContent.SaysWhatIsDue`): code 1 for a packet that does not parse, the code of the refusal, 3 for a name without a rule, the configured address for a local A or ANY query, 2 for a failed walk, the response octet for octet behind the client's ID, or its code with TC and no answers if a datagram would be too long; responses get neither reply nor traffic; RA is clear without upstreams; every send goes to a server the name is routed to and every write is under the deadline; silence without expiry or stop means that there is no reply to give |
| Forwarding.SilenceHasReason | src/forwarding.rs:63-107 | A packet gets no reply only if it is oversized, has no header, is no query, or holds a cookie of 16 to 40 octets, or if its exchange was cancelled |
| Forwarding.ReplySays | src/forwarding.rs:63-133 | The reply that the handler computes says what is due to the packet, by its octets, the longest match of its name and the result of the walk |
| ReplyContent.LocalSays | src/dns/reply.rs:87-108 | A local answer has code 0 in class 1 and 5 in any other, and for types 1 and 255 of class 1 one A record of the question name with the configured TTL and address |
| ReplyContent.SaysTheSame | src/dns/reply.rs:17-20 | Clearing RA changes nothing of what a reply says |
| Forwarding.EligibleServersOfTable | src/forwarding.rs:102-108 | With a table built from distinct rules, a query can reach the servers of its one longest match only: those of the route, those of the default if nothing matches, none for a local record; and it selects a group exactly in the first two cases |
| Forwarding.RelayRepliesTo | src/forwarding.rs:127-132 | A validated response under the client's ID answers the client's own query |
| Forwarding.TruncatedRepliesTo | src/forwarding.rs:128-129 | The TC form of a validated response answers the client's own query within the UDP limit |
| Pool.StepKeeps | src/server/pool.rs:97-191 | Every step of any worker or of the owner keeps the pool's invariant |
| Pool.AcceptedJobsAreAccounted | src/server/pool.rs:137-161 | In every reachable state the queue is bounded and empty once closed, jobs are taken first in first out, and every accepted job is queued, cleared by closing, held by exactly one worker, handled, or discarded after a stop |
| Pool.SubmissionsEnter | src/server/pool.rs:137-150 | In any run a submitted job joins the end of the queue unless a stop was raised or the queue is full; then nothing changes |
| Pool.PollsTakeTheHead | src/server/pool.rs:97-131 | In any run a worker that looks at the queue takes its head, waits if the queue is empty, or leaves after a stop |
| Pool.NoJobIsBegunTwice | src/server/pool.rs:99-108 | No run begins one accepted job twice |
| Pool.StopEndsWork | src/server/pool.rs:99-108 | In any run each worker begins at most one job after the stop flag is raised |
| Pool.ShutdownReportsPanics | src/server/pool.rs:165-191 | A shutdown that collected every completion finds all workers ended and the queue empty, and reports success if and only if no worker panicked |
| Pool.PendingIsOwed | src/server/pool.rs:110-131 | The pending count is the number of completions sent and not received plus the workers that have yet to send theirs |

## Left out

- Upstream.Forwarder.Forward: an error has a cause in what the system or the peer did during the attempt, but that no further retry of a failed call could have helped is not stated.
- CookieRewrite.RewriteKeepsAllButName: covers queries whose OPT is the only additional record; other records may hold names that read through the cookie, and the code parses every retry again.
- CookieRewrite.RewriteKeepsMeaning: sufficient only; `CookieRewrite.RewriteKeepsNameBeforeChange` is the equivalence.
- CookieRewrite.RewriteKeepsNameBeforeChange: does not decide names with a pointer across the first changed octet, because both of its targets can spell the same labels.
- Forwarding.RequestHandler.Respond: correspondence of the question is stated for queries without a cookie and for plain queries with one, since a rewrite can change a compressed question.
- Routing.NewTable: that the library's sort is stable is part of the model but nothing depends on it, because matching rules never tie.
- Pool.ShutdownReportsPanics: liveness of the condition variable and of the shutdown deadline is not modelled; a shutdown may give up at any time.
- Transport.Platform.Configure: binding, connecting, socket timeouts and TCP_NODELAY are one call that succeeds or fails.
- Sockets, threads, signals, clocks and `/dev/urandom`: arbitrary values in place of them, as described above.
- Mutex poisoning and memory orderings: pool steps are atomic and sequentially consistent.
- Dropping a pool and detaching its threads: `close` is modelled, the drop handler that repeats it is not.
- src/config.rs, src/main.rs, src/logging.rs and src/server.rs: configuration, command line, log counters and listener plumbing.
- `DomainName::from_str`, display code and error text: presentation forms of names and errors.
- `UpstreamAddress::new`: a server is any value that can be compared.
- Authenticity: correlation is all that the program claims, and all that is proved.
