# mcRPC, modelled and proved in Dafny

mcRPC is a text RPC spoken by a bounded C++ implementation (fixed buffers, pointer
walking) and an unbounded Python one over a shared chat channel. This project models
both sides and proves how they relate.

- **Wire codec** (`Text`, `Wire`, `Buffers`, `CppParser`, `PyParser`, `Refinement`,
  `Framing`, `Outbound`, `Grammar`). `Wire.Parse(d, line)` is the request grammar as one function
  with a dialect `d` marking every place where the C++ and the Python parser differ.
  The two imperative parsers are proved against it, the C++ one over real character
  arrays. `Grammar` writes out the pieces of a line and proves that exactly these lines are
  accepted. Results: exactly when the bounded parser is the unbounded one cut to size, the
  canonical form of every accepted line, and what may surround a line without changing it.
- **Request/reply protocol** (`Registry`, `Node`, `McRpc`, `Tokens`, `Correlator`,
  `Targets`, `Channel`). `Targets` says which client targets keep a request and its replies
  apart from all others. `Channel` is a step system of one client, a fleet of nodes and a channel that
  is the log of everything sent: losing a line is never reading it, duplicating is reading
  it twice, reordering is reading any index. Results are over all reachable states.
- **Discovery** (`Csv`, `Uptime`, `Discover`), **stagger** (`Jitter`), **lifecycle**
  (`Lifecycle`) and **call results** (`CallResult`).

A C string is a NUL-free `string`; a pointer into it is an offset, and reading at its end
gives the terminator. A `const char*` that may be null is `CString`. Characters are ASCII
wherever Python classifies them. `unsigned long` is the 64-bit one of LP64 targets; ids
below 2^32 do not depend on it. Command handlers are arbitrary functions or, on the
channel, an arbitrary outcome chosen at each delivery. The clock is an integer passed in.

## What the code does differently from what one would expect

- The parsers are documented to match, but they differ on `Group:` in mixed case, on ids
  of more than fifteen digits and on ids from 2^32, and then always but for one family:
  more than fifteen zeros, then a blank, then the zeros past the fifteenth again as the
  command and as the first eight arguments (`Refinement.AgreeExactly`,
  `Refinement.AgreeByAccident`). `Group:a ping` and `a#1000000000000000 ping` are read
  differently (`Refinement.MixedGroupLine`, `Refinement.SixteenDigitsDiffer`).
- `OutboundBuilder::request` can return true for a line it dropped the target or the id
  from; on which lengths is `Outbound.RequestIsWhole`, one input is
  `Outbound.DroppedTargetIsNotReported`.
- A reply body that fits the buffer can be lost whole to its own `#id ` tag
  (`Node.BodyIsWholeOrLost`); one of 191 characters always is (`Node.FullBodyIsLost`).
- `build` takes any target text. A target that is a request by itself makes nodes answer
  under its own id or none, and no other target does (`Targets.IdsAreKeptExactly`: `a#7x`,
  `all ping`). A target after which the line starts with a `#digits` word makes the client
  take its own echo for a reply, and no other does (`Targets.EchoesAreQuietExactly`: `#7 x`,
  a blank). The channel results are about the targets that pass both, those of the grammar
  and `all` among them.
- A sender name with a colon defeats the prefix stripper, and only such a name does
  (`Framing.StripFramed`).
- The Python procedure pattern accepts one trailing newline (`CallResult.PatternExactly`),
  so `a.b` and a newline pass there only (`CallResult.NewlineIsAccepted`).
- `appendKv` returns true for values with a tab and for repeated keys, which no reader gets
  back (`CallResult.TabIsNotReadBack`, `CallResult.RepeatedKeyIsNotReadBack`); when a result
  reads back is `CallResult.CallResultRoundTrip`.
- The two slot seeds differ on some identities with outer whitespace or more than 64
  characters (`Jitter.SeedsAgreeExactly`), for one on a name with a space in front
  (`Jitter.SpacedNameDiffers`).
- The canonical CSV depends on input order exactly past 24 distinct tokens, the text as
  well as the list (`Csv.TextIsStableExactly`, `Csv.ListIsStableExactly`).
- A discovery line reads back exactly when its name is one visible word and no tag, the
  fields written whole have distinct non-empty '='-free keys and no whitespace, and the stump of the field that was cut leaves them alone
  (`Discover.TruncationIsSafe`). A value with whitespace can look like two fields
  (`Discover.SpacedValueLooksLikeTwoFields`), and a line cut right after a repeated key and
  its '=' empties the earlier field (`Discover.RepeatedKeyErases`).
- Capabilities have a buffer of 95 characters and a field of 71, so longer lists are
  announced cut and never read back (`Discover.CapsReadBackExactly`).
- The short ids differ as soon as one of the first eight characters is no hex digit
  (`Uptime.ShortIdsAgreeExactly`), as for `node-1` (`Uptime.NamesShortenDifferently`).

## Model

| member | source | states |
|---|---|---|
| `CppParser.Parse` | src/Parser.cpp:50-140 | Result code and every buffer of the Request, on success and on failure, are those of the grammar function for the C++ dialect; a null line is Empty. |
| `CppParser.ReadTokenInto` | src/Parser.cpp:23-35 | A token after blanks, cut to 71 characters and terminated, with the pointer left behind it; without one the buffer is untouched. |
| `CppParser.ReadTargetInto` | src/Parser.cpp:62-87 | The `@hex`, `group:` and name branches fill kind and target as the grammar says. |
| `CppParser.SplitGluedId` | src/Parser.cpp:89-105 | The `strchr` block on any target: digits after '#' become the id and the target ends at the '#'. |
| `CppParser.ReadIdInto` | src/Parser.cpp:107-120 | At most fifteen digits are read through idbuf, converted by strtoul and cut to 32 bits; none is Malformed. |
| `CppParser.ReadArgsInto` | src/Parser.cpp:133-137 | The stored arguments are the first eight words of the rest, each cut to 71 characters. |
| `CppParser.ReadCommandInto` | src/Parser.cpp:122-139 | The command is lowered in place, `discover` renamed, and the arguments follow; without one MissingCommand and nothing stored. |
| `CppParser.StripSenderPrefix` | src/Parser.cpp:37-48 | Strips up to the first colon and blanks only if a blank follows that colon. |
| `PyParser.Parse` | python/mcrpc/parser.py:60-141 | Result and request are those of the grammar function for the Python dialect, on success and on failure. |
| `PyParser.StripSenderPrefix` | python/mcrpc/parser.py:38-53 | The same stripping function as C++, so the two strip alike on every text. |
| `Wire.GluedIdNeverFires` | src/Parser.cpp:89-105 | For every line the stored target has no '#', so the glued-id block changes nothing. |
| `Wire.HashLineIsMalformed` | src/Parser.cpp:76-79 | In both languages a line that starts with '#' is Malformed. |
| `Wire.LeadingBlanks` | src/Parser.cpp:9-11 | Blanks in front of a line change no result in either language. |
| `Grammar.AcceptsExactly` | src/Parser.cpp:50-140 | In both languages a line is accepted with request r if and only if it is, piece by piece, blanks, line ends, a target in one of its spellings, an id or none, a command word and argument words, and r is what these pieces say; the rename of `discover`, and for C++ the cut to 71 characters, the first fifteen digits, their value modulo 2^32 and the eight arguments are written out. |
| `Grammar.MissesCommandExactly` | src/Parser.cpp:122-125 | MissingCommand, with which request, if and only if the line is such a front and no command word behind it. |
| `Grammar.EmptyExactly` | src/Parser.cpp:54-60 | Empty and MissingTarget for exactly the lines of blanks and line ends, told apart, and with the cleared request. |
| `Grammar.EverySpellingIsRead` | python/mcrpc/parser.py:122-141 | A printed request with its command in any letter case, or `discover` in any letter case for `discovery`, is read as that request, in both languages. |
| `Grammar.DiscoverIsDiscovery` | src/Parser.cpp:126-131 | `all discover` is read as `discovery` to all. |
| `Grammar.ClassesByCode` | src/Parser.cpp:9-21 | The character classes and the lowering by character codes. |
| `Grammar.NumeralsByCode` | src/Parser.cpp:107-120 | Numerals are printed and read digit by digit, the last digit for the ones. |
| `Refinement.BoundedRefinesUnbounded` | src/Parser.cpp:50-140 | On every line without a mixed-case group and with a fitting id, the C++ result is the Python result with tokens cut to 71 characters and arguments to the first eight, failures included. |
| `Refinement.AgreeExactly` | python/mcrpc/parser.py:60-141 | On every line that equality holds if and only if the group prefix is not in mixed case and the id digits either fit fifteen places and 32 bits, or are all zero and repeated, past the fifteenth, as the command and the first eight arguments after a blank. |
| `Refinement.AgreeByAccident` | src/Parser.cpp:107-120 | That last case exists: lines with sixteen zeros as id and eight or more arguments after the command. |
| `Refinement.LongIdLineDiffers` | src/Parser.cpp:107-120 | A line to node a with more than fifteen id digits, not all zero, is read differently whatever follows. |
| `Refinement.SixteenDigitsDiffer` | src/Parser.cpp:107-120 | `a#1000000000000000 ping` is such a line. |
| `Refinement.MixedGroupLine` | src/Parser.cpp:76-79 | `Group:a ping` is read as two different address kinds. |
| `Refinement.MixedGroupDiffers` | python/mcrpc/parser.py:87-93 | A mixed-case `group:` always gives two different address kinds. |
| `Framing.StripFramed` | python/mcrpc/parser.py:38-53 | The payload of `name: line` is recovered, leading blanks aside, if and only if the name has no colon. |
| `Framing.StripExactly` | src/Parser.cpp:37-48 | Every chat text: without a colon it stays; with one it is stripped up to the first colon and the blanks behind it if there is such a blank, and else stays. |
| `Framing.SenderIsTransparent` | src/Parser.cpp:37-48 | For a colon-free name, parsing the stripped `name: line` equals parsing the line, in both languages and for every line. |
| `Framing.TrailingBlanks` | src/Parser.cpp:54-60 | Blanks after a line change its result exactly when the line is blanks and then line ends only; so never for an accepted line. |
| `Buffers.ReplyBuffer.Append` | include/mcrpc/McRpcTypes.h:82-90 | All of the text or nothing; the buffer stays below 192 bytes, terminated and free of inner NULs. |
| `Buffers.ReplyBuffer.AppendChar` | include/mcrpc/McRpcTypes.h:92-97 | One character or nothing, same invariant. |
| `Buffers.ReplyBuffer.Printf` | src/Dispatcher.cpp:9-17 | Formats into a scratch buffer of the same size, then appends what was kept, all or nothing. |
| `Buffers.ReplyBuffer.ReadsAsText` | include/mcrpc/McRpcTypes.h:73-76 | A C reader of the data array sees exactly the text of the buffer. |
| `Buffers.CopyToken` | include/mcrpc/McRpcTypes.h:131-136 | The destination reads as the source cut to one less than its size; an empty destination is left alone. |
| `Buffers.LowerInPlace` | src/Parser.cpp:126-128 | The C string in the buffer is lowered up to its terminator. |
| `Buffers.Ieq` | include/mcrpc/McRpcTypes.h:118-129 | True exactly when both are null or the texts are equal in lower case. |
| `Outbound.Request` | include/mcrpc/OutboundBuilder.h:17-29 | Buffer and result code of the append chain, ignored failures included; a null argument refuses and changes nothing. |
| `Outbound.RequestWithArgs` | include/mcrpc/OutboundBuilder.h:31-41 | The same with the argument loop, which skips nulls and stops at the first argument that does not fit. |
| `Outbound.ArgsWritten` | include/mcrpc/OutboundBuilder.h:31-41 | For any pointers: nulls are left out, the arguments are written in order up to the first that does not fit, whose space stays behind, and true is returned exactly when all were written. |
| `Outbound.RequestIsWhole` | include/mcrpc/OutboundBuilder.h:17-29 | True with the whole line written if and only if the whole line fits, and true with a piece dropped if and only if the lengths of target, id text and command say so; any texts, empty ones included. |
| `Outbound.DroppedTargetIsNotReported` | include/mcrpc/OutboundBuilder.h:25-28 | An input on which the target is dropped and true returned. |
| `Outbound.ParseOfLine` | src/Parser.cpp:50-140 | Parsing the printed form of any well-formed request gives that request, in both dialects. |
| `Outbound.AcceptedIsWellFormed` | src/Parser.cpp:50-140 | Every accepted line yields a well-formed request, in both dialects. |
| `Outbound.WellFormedIsTheImage` | python/mcrpc/parser.py:60-141 | The well-formed requests are exactly those some line parses to. |
| `Outbound.CanonicalForm` | include/mcrpc/OutboundBuilder.h:31-41 | Printing the request of any accepted line succeeds exactly when the line fits 191 bytes, and then parses back to the same request; without arguments it always succeeds within 160 bytes. |
| `Correlator.BuiltLineParsesBack` | python/mcrpc/builder.py:6-22 | build_request prints the canonical line of a well-formed request, which both parsers read back unchanged. |
| `Registry.CommandRegistry.RegisterCommand` | src/CommandRegistry.cpp:5-21 | The table after a call: handler and help replaced in place for a known name, appended for a new one, refused when full or null. |
| `Registry.CommandRegistry.FindCommand` | src/CommandRegistry.cpp:23-29 | The entry whose name matches ignoring case, or none. |
| `Registry.TableIsMap` | src/CommandRegistry.cpp:5-21 | After any calls the table has no two names alike and is exactly a lowercase-keyed map that refuses once it holds 48 keys. |
| `Registry.FindIsLookup` | src/CommandRegistry.cpp:23-29 | After any calls find is lookup in that map, for every name. |
| `Registry.OrderIsKept` | src/CommandRegistry.cpp:5-21 | No call reorders or renames entries or changes another name's entry; refusal happens exactly when full, even for a known name. |
| `Node.HexIdPrefixMatch` | include/mcrpc/CanonicalCsv.h:80-93 | True exactly for a non-empty hex prefix of the id, ignoring case. |
| `Node.AddressedMeans` | src/Dispatcher.cpp:19-35 | In both languages a request is for this node if and only if it is to all or self, or names its group, its name, or a prefix of its id, ignoring case. |
| `Node.AnswersExactly` | src/Dispatcher.cpp:48-62 | A node of either language answers a line if and only if it parses it as a request that is for it. |
| `Node.AnswerText` | src/Dispatcher.cpp:37-87 | The C++ answer: without an id exactly the body, with one `#id ` and then the body if both fit 191 characters; the body is that of the handler found, `ok` or `err internal` for an empty one, `err unknown_command` for none. |
| `Node.AnswerTextPython` | python/mcrpc/dispatcher.py:52-68 | The Python answer: without an id exactly the body, with one `#id ` and the whole body. |
| `Node.Dispatcher.IsAddressedToUs` | src/Dispatcher.cpp:19-35 | True exactly when the address kind and target select this node. |
| `Node.Dispatcher.WritePrefixed` | src/Dispatcher.cpp:37-46 | The reply is the tag, then the body if it still fits. |
| `Node.Dispatcher.Dispatch` | src/Dispatcher.cpp:48-87 | Whether there is a reply, its text, and the request handed back, for any handler and any line, null included. |
| `Node.SameAddressing` | python/mcrpc/dispatcher.py:37-50 | C++ and Python accept the same parsed requests, and the whole-id comparison is implied by the prefix match. |
| `Node.PythonDispatcher.Dispatch` | python/mcrpc/dispatcher.py:52-68 | The reply of the Python dispatcher for any line, unknown commands and empty bodies included, or none. |
| `Node.DispatchersAgreeExactly` | python/mcrpc/dispatcher.py:52-68 | After the same registrations, none refused, and with handlers that say the same, on a line both parsers read alike the dispatchers answer alike, unknown commands included, exactly when the tagged reply fits the C++ buffer. |
| `Node.AtMostOneNode` | src/Dispatcher.cpp:19-35 | In a fleet with distinct names and distinct ids of one length, a name or a whole id is accepted by at most one node. |
| `Node.PrefixReachesItsNodes` | src/Dispatcher.cpp:29-32 | `@p` is accepted by exactly the nodes whose id starts with p, ignoring case. |
| `Node.BodyIsWholeOrLost` | src/Dispatcher.cpp:37-46 | A tagged reply holds the whole body exactly when both fit, and the bare tag exactly when they do not. |
| `Node.FullBodyIsLost` | src/Dispatcher.cpp:37-46 | A body of 191 characters is lost to any tag. |
| `Node.RepliesCauseNoReply` | src/Dispatcher.cpp:48-59 | A reply to a request with an id, sent under a colon-free name, is dispatched by no node for any body or handler. |
| `Node.OnEvent` | src/McRpc.cpp:142-152 | The event line, pieces that do not fit dropped. |
| `Node.EventIsWhole` | src/McRpc.cpp:142-152 | `event name payload` whole when it fits, and which pieces are dropped when it does not, from the lengths. |
| `Node.EventsCauseNoReply` | src/McRpc.cpp:142-152 | No event line, for any name and payload, is dispatched by a node not named `event`. |
| `Node.EventsAreQuietExactly` | src/Dispatcher.cpp:33-35 | Events are quiet at exactly the nodes whose name is not `event` in any case. |
| `Node.DiscoverIsUnreachable` | src/Parser.cpp:126-131 | No parsed request finds an entry registered as `discover`. |
| `McRpc.HandleInbound` | src/McRpc.cpp:28-37 | What is published for one chat text: the dispatched reply of the stripped line with its delay, or nothing. |
| `McRpc.PublishesTheReply` | src/McRpc.cpp:28-47 | What is published is the dispatcher's reply unchanged, with the delay, in numbers, of the node's id or, without one, of its name. |
| `McRpc.PublishedInTime` | src/McRpc.cpp:34-47 | What is published is never empty; replies to `all` wait in 400..3599 ms, others at most 120 ms. |
| `Tokens.SplitTagged` | python/mcrpc/response.py:45-51 | A line tagged `#id ` tokenizes to the tag and the tokens of what follows. |
| `Tokens.DecimalTag` | python/mcrpc/response.py:45-51 | The tag reads as exactly the printed id, and the rest is left. |
| `Tokens.ReadPairsOf` | python/mcrpc/codec.py:8-23 | Reading printed pairs with distinct keys appends them to the dict in order. |
| `Tokens.Overlay` | python/mcrpc/codec.py:8-23 | Reading tokens into a dict keeps the places of its keys and overlays it with what the tokens are by themselves. |
| `Correlator.RequestCorrelator.BuildEntry` | python/mcrpc/client.py:62-88 | Counter, table and entry after build; a refused line has used up its id. |
| `Correlator.BuildExactly` | python/mcrpc/client.py:62-88 | Refused exactly for an empty command or no target; the counter moves exactly when no id was given, refused or not; otherwise one entry with the asked target (`all` for a broadcast), command, arguments and line goes in under its id, and nothing else changes. |
| `Correlator.DueExactly` | python/mcrpc/client.py:80-95 | What was built is still outstanding at a later expire if and only if that comes before now plus the timeout given, or the client's own. |
| `Correlator.BuiltLineIs` | python/mcrpc/builder.py:6-22 | The line built is `target#id command`, and every further argument adds a space and itself. |
| `Correlator.RequestCorrelator.ExpireEntries` | python/mcrpc/client.py:90-95 | Exactly the entries with a later deadline stay, unchanged; the others are returned, each once, in the order in which they were inserted. |
| `Correlator.RequestCorrelator.TakeEntry` | python/mcrpc/client.py:97-100 | The entry is returned and removed, or nothing happens. |
| `Correlator.RequestCorrelator.ClassifyInbound` | python/mcrpc/client.py:119-149 | Event, request and response are told apart in that order, and an entry is consumed exactly when asked and not broadcast. |
| `Correlator.BroadcastIsNeverConsumed` | python/mcrpc/client.py:146-149 | An entry with meta broadcast survives every classification. |
| `Correlator.SecondReplyFindsNothing` | python/mcrpc/client.py:140-149 | The same reply heard again finds nothing and changes nothing. |
| `Correlator.Conservation` | python/mcrpc/client.py:59-105 | Over any run with automatic ids the issued ids split disjointly into outstanding, delivered and expired, with as many removals as removed ids. |
| `Correlator.GoneForGood` | python/mcrpc/client.py:90-100 | An id delivered or expired at any point of a run never becomes outstanding again. |
| `Correlator.ExpiredExactlyWhenDue` | python/mcrpc/client.py:90-95 | Over any run an id counts as expired if and only if some expire step of the run found it outstanding with its deadline reached. |
| `Correlator.OldestFirst` | python/mcrpc/client.py:59-95 | With automatic ids the table is always in id order, so expire returns the oldest request first. |
| `Targets.ReadOfClientLine` | src/Parser.cpp:50-140 | What a node reads of `target#id rest`, sender prefix and NULs included: the target's own request if it is one, otherwise a request under the number the first fifteen digits of the id give in 32 bits; for any target, id and rest. |
| `Targets.IdAsReadExactly` | src/Parser.cpp:107-120 | That number is the id exactly below 2^32, and the id modulo 2^32 up to fifteen digits. |
| `Targets.IdsAreKeptExactly` | python/mcrpc/builder.py:6-22 | Every request a node reads from such a line has the line's id if and only if the target alone is no request. |
| `Targets.IdSurvivesExactly` | src/Parser.cpp:107-120 | With such a target an accepted line keeps its id, of any size, if and only if the id is below 2^32. |
| `Targets.ClassifyFramed` | python/mcrpc/client.py:119-149 | Any line under any sender name: a line whose first word is `#digits` is a response to that id, any other touches no entry. |
| `Targets.ClassifiesExactly` | python/mcrpc/client.py:119-149 | Every line under every sender name: an event if its first word is `event`; otherwise a request to the host if and only if Python parses it with one of the fifteen listed commands; otherwise a response to the id of its first word. |
| `Targets.RequestsAreOther` | python/mcrpc/client.py:111-138 | Every printed request heard leaves the table alone and is `other` exactly when its command is listed; one to the name `event` without an id is an event. |
| `Targets.TakesExactly` | python/mcrpc/client.py:140-149 | An entry goes exactly when it was handed out, asked to be consumed, and is not broadcast; the others stay unchanged. |
| `Targets.EchoesAreQuietExactly` | python/mcrpc/client.py:119-149 | In no state of the table does a client's own line find an entry, if and only if `target#0` does not start with a `#digits` word. |
| `Targets.GrammarTargetsAreSafe` | python/mcrpc/builder.py:6-22 | Every target in wire form passes both conditions. |
| `Targets.LooseTargetAnswersElsewhere` | python/mcrpc/builder.py:6-22 | With target `a#7x` the node parses id 7 whatever the client's id. |
| `Targets.IdlessTargetLosesTheId` | python/mcrpc/builder.py:6-22 | With target `all ping` every node reads a request without an id. |
| `Targets.EchoOfHashTarget` | python/mcrpc/client.py:119-149 | The echo of a request to `#7 x` is a response to id 7. |
| `Targets.EchoOfBlankTarget` | python/mcrpc/client.py:119-149 | The echo of a request to a blank target is a response to its own id. |
| `Channel.EveryMatchIsGenuine` | python/mcrpc/client.py:119-149 | In every reachable state, an entry handed out for a line was built by the client under the reply's id, and the line is the reply of a node that parsed this very request and found it addressed to itself. |
| `Channel.EveryReplyIsMatched` | python/mcrpc/client.py:140-149 | In every reachable state, every node reply is a response to its own request and finds its entry exactly while that is outstanding. |
| `Channel.NoReplyStorm` | src/Dispatcher.cpp:48-87 | In every reachable state the replies per node and request are at most the deliveries of that request to that node, and every reply answers a client request its node accepted. |
| `Channel.HearingCases` | src/Dispatcher.cpp:48-62 | Of all lines on the channel only client requests make a node speak, and then under that request's tag. |
| `Channel.UntaggedReply` | python/mcrpc/client.py:119-149 | A reply without a tag is a response to some id if and only if its own first word is a `#digits` tag. |
| `Channel.AcceptedIsMatched` | python/mcrpc/client.py:62-149 | From any fresh client, a request that some node accepts needs one delivery to get a reply that finds its entry: a reachable run of two steps. |
| `Channel.PingIsAccepted` | src/Dispatcher.cpp:48-87 | `ping` to the node `a` under id 1 is such a request. |
| `Csv.CanonicalizeCsv` | include/mcrpc/CanonicalCsv.h:30-77 | Succeeds exactly when the canonical text and its terminator fit the buffer; every byte of the buffer afterwards, on success and on failure: the tokens that fit, joined, over what was there. |
| `Csv.CollectInto` | include/mcrpc/CanonicalCsv.h:35-52 | The table holds the first 24 distinct normalised tokens in order of arrival. |
| `Csv.SortTable` | include/mcrpc/CanonicalCsv.h:54-64 | The in-place insertion sort leaves the sorted list of a table without duplicates and the rest of the table alone. |
| `Csv.JoinInto` | include/mcrpc/CanonicalCsv.h:66-76 | The bounded join succeeds exactly when join and terminator fit, and otherwise stops after the longest front of the list that fits; every byte of the buffer. |
| `Csv.JoinedReads` | include/mcrpc/CanonicalCsv.h:66-76 | A buffer the join fitted reads as the joined text. |
| `Csv.SortedIsUnique` | include/mcrpc/CanonicalCsv.h:54-64 | A strictly increasing list is determined by its set. |
| `Csv.TokensAreCanonical` | include/mcrpc/CanonicalCsv.h:30-77 | The listed tokens are strictly increasing, and are all those asked for if and only if there are at most 24. |
| `Csv.ListsAreAscending` | include/mcrpc/CanonicalCsv.h:54-64 | In both languages an earlier token is a proper prefix of a later one, or has the smaller character where they first differ. |
| `Csv.WantedExactly` | include/mcrpc/CanonicalCsv.h:35-52 | The tokens asked for are the first 31 characters of each non-empty text, letters lowered. |
| `Csv.TableGrows` | include/mcrpc/CanonicalCsv.h:35-52 | More input only adds tokens at the end of the table, so the first to arrive fill it. |
| `Csv.PythonTokensExactly` | python/mcrpc/discover.py:91-95 | The reader lists exactly the pieces between commas that are not blank, stripped and lowered. |
| `Csv.StripIsInside` | python/mcrpc/discover.py:91-95 | Stripping removes exactly the outer whitespace. |
| `Csv.OrderDoesNotMatter` | include/mcrpc/CanonicalCsv.h:35-52 | Inputs with the same set of at most 24 normalised tokens give the same text. |
| `Csv.ListIsStableExactly` | include/mcrpc/CanonicalCsv.h:35-52 | All inputs with the same normalised tokens give the same list if and only if there are at most 24 of them. |
| `Csv.TextIsStableExactly` | include/mcrpc/CanonicalCsv.h:30-77 | The same for the text, whatever characters the tokens hold. |
| `Csv.ReadBackExactly` | python/mcrpc/discover.py:91-95 | The Python reader returns exactly the sorted list if and only if no token has a comma or outer whitespace. |
| `Csv.CutReadsBackExactly` | python/mcrpc/discover.py:91-95 | A text cut to n characters reads back as the sorted list if and only if nothing was cut and the tokens are plain. |
| `Csv.WritingTwiceChangesNothing` | include/mcrpc/CanonicalCsv.h:30-77 | Writing the listed tokens again gives the same bytes. |
| `Uptime.FormatUptimeInto` | include/mcrpc/UptimeFormat.h:19-41 | Refused exactly for a null or under-four-byte buffer, otherwise the text cut to the buffer. |
| `Uptime.TextsAre` | include/mcrpc/UptimeFormat.h:19-41 | The text for every count given as days, hours, minutes and seconds: the two largest units, the second left out when zero. |
| `Uptime.SixteenBytesSuffice` | include/mcrpc/UptimeFormat.h:19-41 | Sixteen bytes never cut the text of a 32-bit count. |
| `Uptime.DecodeOfFormat` | include/mcrpc/UptimeFormat.h:19-41 | Decoding gives the count below an hour, whole minutes below a day, whole hours above. |
| `Uptime.PythonPrintsTheSame` | python/mcrpc/uptime.py:4-17 | The Python function, divmod and clamp at zero, prints what C++ prints for any integer, and so decodes alike. |
| `Uptime.SameTextExactly` | include/mcrpc/UptimeFormat.h:19-41 | Two counts print alike if and only if they agree to that precision. |
| `Uptime.ShortId8Into` | include/mcrpc/UptimeFormat.h:44-56 | The first eight characters with A-F lowered; refused for a null or empty id. |
| `Uptime.ShortIdIs` | include/mcrpc/UptimeFormat.h:44-56 | Its characters by their codes. |
| `Uptime.ShortIdsAgreeExactly` | python/mcrpc/uptime.py:20-24 | The two languages shorten an id alike if and only if its first eight characters, or all of a shorter one, are hex. |
| `Uptime.NamesShortenDifferently` | python/mcrpc/uptime.py:20-24 | `node-1` stays itself in C++ and becomes `de1` in Python. |
| `Discover.DiscoverBuilder.Add` | include/mcrpc/DiscoverBuilder.h:24-30 | Appends the key and the value cut to 71 characters, unless null or full at 24. |
| `Discover.DiscoverBuilder.WriteTo` | include/mcrpc/DiscoverBuilder.h:38-48 | The reply is the device name followed by the pieces up to the first that does not fit. |
| `Discover.LongestPrefix` | include/mcrpc/DiscoverBuilder.h:41-47 | What is written is the name and the first k pieces, where j pieces fit if and only if j <= k. |
| `Discover.TruncationIsSafe` | python/mcrpc/discover.py:98-111 | For any name and fields the reader gets the device name and the fields written whole in order, plus at most the next key with no value, if and only if the name is one visible word that is no `#id` tag, those fields have distinct non-empty '='-free keys and no whitespace, and every pair in the stump of the next field is either one of them or its key, if new, with no value. All fields are written whole exactly when the line fits. |
| `Discover.SpacedValueLooksLikeTwoFields` | include/mcrpc/DiscoverBuilder.h:38-48 | A value holding whitespace and a pair is written exactly like two fields. |
| `Discover.TaggedTruncationIsSafe` | python/mcrpc/discover.py:98-111 | The same behind a `#id ` tag, with the id, and for any visible name. |
| `Discover.HarmIsErasure` | include/mcrpc/DiscoverBuilder.h:38-48 | With a visible '='-free key the stump does harm exactly when it is cut right after the '=' and an earlier field has that key with a value. |
| `Discover.RepeatedKeyErases` | include/mcrpc/DiscoverBuilder.h:38-48 | Three fields of 71 characters, the last with the key of the first, do not read back. |
| `Discover.BuildDiscover` | src/McRpc.cpp:98-132 | The builder's name and fields in order, for any identity, capabilities and contributions. |
| `Discover.OwnFields` | src/McRpc.cpp:98-132 | The text of a node's own fields: id, fw, v=1.2, the tag or else the profile, up and caps, each left out under its own condition, values cut to 71 characters. |
| `Discover.ContributedIs` | include/mcrpc/DiscoverBuilder.h:24-30 | Features fill what is left of 24 fields in their order, with values cut to 71 characters; the rest is dropped. |
| `Discover.AnnouncedExactly` | src/McRpc.cpp:98-132 | The announced line is a front of the name or `node`, the node's own fields and those of the features, and all of it if and only if it has at most 191 characters. |
| `Discover.EssentialsSurvive` | src/McRpc.cpp:98-132 | With a node id set, the written line starts with name, id, fw and v whole and in this order, within 164 bytes, whatever else is added. |
| `Discover.EssentialsAreRead` | python/mcrpc/discover.py:98-111 | The reader gets the device name, `id`, `fw` and `v` of a node with an id if and only if the name is one visible word and no tag, id and firmware are visible, and nothing after them, whole or cut, gives one of the three keys another value. |
| `Discover.CapsReadBackExactly` | src/McRpc.cpp:98-132 | Announced capabilities read back as the canonical list if and only if their text has at most 71 characters and the tokens are plain. |
| `Jitter.IdentityHash` | include/mcrpc/ReplyJitter.h:30-38 | The loop computes FNV-1a with products modulo 2^32. |
| `Jitter.HashOfA` | include/mcrpc/ReplyJitter.h:30-38 | The published FNV-1a values of the empty text and of `a`. |
| `Jitter.HashStep` | include/mcrpc/ReplyJitter.h:30-38 | Every further character is xored in and multiplied by 16777619 modulo 2^32. |
| `Jitter.XorByBits` | include/mcrpc/ReplyJitter.h:34 | The recursive xor is the bitwise one, for every bit of any two numbers. |
| `Jitter.MaskIsRemainder` | python/mcrpc/reply_jitter.py:15-23 | Bitwise and with k ones is the remainder by 2^k, for every integer. |
| `Jitter.HashesAgree` | python/mcrpc/reply_jitter.py:15-23 | The exact product masked and the wrapping product give the same 32-bit hash on every ASCII text. |
| `Jitter.SlotSeedOf` | include/mcrpc/ReplyJitter.h:44-73 | The scan finds the first eight lowered characters when the first 64 are hex and at least eight, else the identity. |
| `Jitter.SeedByLength` | include/mcrpc/ReplyJitter.h:40-73 | A text that starts with exactly h hex characters has those eight lowered as its seed if there are at least 64, or at least eight and nothing else; otherwise itself. |
| `Jitter.SeedsAgreeExactly` | python/mcrpc/reply_jitter.py:26-33 | When the two languages choose the same seed, as a condition on every identity. |
| `Jitter.PlainIdentitiesAgree` | python/mcrpc/reply_jitter.py:26-33 | They do for at most 64 characters without outer whitespace. |
| `Jitter.SpacedNameDiffers` | python/mcrpc/reply_jitter.py:26-33 | A name with a space in front gives two different seeds. |
| `Jitter.ShortIdSharesSeed` | include/mcrpc/ReplyJitter.h:40-73 | A hex id and the short id announced for it have the same seed. |
| `Jitter.DelayTellsSlot` | include/mcrpc/ReplyJitter.h:82-91 | A broadcast delay lies in 400..3599, so the clamp never acts, and its slot can be read off. |
| `Jitter.SlotsKeepNodesApart` | include/mcrpc/ReplyJitter.h:82-91 | k slots apart means at least 200 (k - 1) + 1 ms apart for any entropy. |
| `Jitter.DelaysAgree` | python/mcrpc/reply_jitter.py:44-63 | Wherever the seeds agree the two languages compute the same delay, Python after masking its entropy to sixteen bits. |
| `Jitter.DelayMsFor` | include/mcrpc/ReplyJitter.h:75-96 | The delay of a request, staggered only for `all`, with its window. |
| `Jitter.DelayIs` | include/mcrpc/ReplyJitter.h:75-91 | The delay in numbers: 400 plus 200 times the slot of sixteen plus the entropy modulo 200 for a broadcast, otherwise the entropy modulo 121. |
| `Lifecycle.FeatureManager.AddFeature` | src/FeatureManager.cpp:5-14 | Appended once; refused when null, started or full. |
| `Lifecycle.FeatureManager.StartAll` | src/FeatureManager.cpp:16-35 | All setups, then all command registrations, then all capability registrations, in list order; nothing when started. |
| `Lifecycle.FeatureManager.LoopOnce` | src/FeatureManager.cpp:37-40 | One loop call to each feature in list order, only while started. |
| `Lifecycle.FeatureManager.StopAll` | src/FeatureManager.cpp:42-48 | Shutdown in exactly the reverse of the start order, only while started. |
| `Lifecycle.EveryFeatureLivesInOrder` | src/FeatureManager.cpp:5-48 | Over every run each feature's calls follow the life cycle, and it runs exactly while the manager is started and lists it. |
| `Lifecycle.ListIsFixedWhileStarted` | src/FeatureManager.cpp:5-14 | The list is fixed while started and otherwise only grows at its end; no call is ever taken back. |
| `Lifecycle.OneOperation` | src/FeatureManager.cpp:5-48 | The list and the trace after each operation, call by call: a new feature goes to the end of a list below 16, the three sweeps of a start in list order, shutdown from the back. |
| `Lifecycle.ListIsWhatWasAdded` | src/FeatureManager.cpp:5-14 | Over every run the list holds exactly the features some add offered while stopped and below 16. |
| `Lifecycle.KindsComeInOrder` | src/FeatureManager.cpp:16-48 | Over every run, on the trace alone: within one start all setups come before all command registrations, these before all capability registrations, then loops, then shutdowns. |
| `Lifecycle.FeaturesKeepTheirOrder` | src/FeatureManager.cpp:16-48 | Over every run, within one start: f is set up before g if and only if it registers before g, commands and capabilities alike, and if and only if it is shut down after g. |
| `CallResult.WriteVerdict` | include/mcrpc/CallResult.h:16-36 | The buffer holds `ok`, `busy`, `retry` or `err` with its code, `internal` when there is none. |
| `CallResult.VerdictsAreWritten` | include/mcrpc/CallResult.h:16-36 | The texts of the verdicts, with the code whole when it fits. |
| `CallResult.AppendKv` | include/mcrpc/CallResult.h:42-50 | Refuses keys and values with spaces and keys with '=' without change, otherwise appends while there is room. |
| `CallResult.AppendedExactly` | include/mcrpc/CallResult.h:42-50 | For any key and value: refused without change exactly for a null, an empty key, a space in either or an '=' in the key; otherwise true exactly when the line stays below 192 characters, and what is written in every case. |
| `CallResult.CallResultRoundTrip` | python/mcrpc/call_result.py:57-102 | After a verdict and appends that all returned true the line, bare or tagged, parses as valid with the same kind, code, id and fields in order if and only if the code is visible and fits its line, and the fields have distinct keys and no whitespace. |
| `CallResult.ValidExactly` | python/mcrpc/call_result.py:57-102 | A line is valid if and only if its first word behind the tag is one of the four kinds in any case, `err` has a code, and every further word holds an '=': free prose is invalid. Kind and code are then these words. |
| `CallResult.TabIsNotReadBack` | include/mcrpc/CallResult.h:42-50 | A value with a tab is appended with true and does not read back. |
| `CallResult.RepeatedKeyIsNotReadBack` | include/mcrpc/CallResult.h:42-50 | So is a key appended twice. |
| `CallResult.ValidateProc` | include/mcrpc/CallResult.h:56-63 | True exactly for a segment, a dot and a segment. |
| `CallResult.SegmentsByCode` | include/mcrpc/CallResult.h:66-78 | A segment is a letter and then letters, digits and underscores, by character codes. |
| `CallResult.ValidProcSplitsOnce` | include/mcrpc/CallResult.h:52-78 | A name is valid if and only if it splits so, and then in one way. |
| `CallResult.PatternExactly` | python/mcrpc/call_result.py:6-25 | The dot count and the backtracking match of the pattern, `$` in front of a final newline included, accept exactly the names C++ accepts, with or without one final newline. |
| `CallResult.ValidatorsAgreeExactly` | python/mcrpc/call_result.py:20-25 | So the two validators differ on exactly the valid names followed by one newline. |
| `CallResult.NewlineIsAccepted` | python/mcrpc/call_result.py:20-25 | `a.b` and a newline pass in Python only. |

## Left out

- Non-ASCII text: Python's Unicode letters, digits, case and whitespace are not modelled, nor are NULs inside Python strings read by the Python parser.
- `unsigned long` of 32 bits: on such targets strtoul saturates differently for ids from 2^32; ids below are the same.
- The kind and the fields of a parsed response, event names and fields, and number coercion: the correlator only uses the request id and the event test.
- `StatusBuilder`, `CapabilityRegistry`, `EventBus`, `Config`, hardware features and the CLI: no property beyond those shown for their neighbours.
- `OutboundBuilder::error`, `ok` and `event`: fixed texts on the same buffer; nodes write their replies and events by the dispatcher and `onEvent`, which are modelled.
- `is_outbound_echo`: a comparison with the pending lines that `classify_inbound` does not use.
- The Python `DiscoverBuilder`: firmware announces itself with the C++ one; only the Python reader meets its lines.
- Python numerals of more than 4300 digits, which `int()` refuses on current versions, and client ids below zero: ids are natural numbers of any size.
- `CommandEntry::capability` and the user data pointer: stored, not used by the modelled code.
- Null-key handling of feature contributions and integer values in discovery: contributions are texts.
- `Csv` table rows and `DiscoverBuilder` names, keys and values are strings of bounded length where the source has fixed character rows; the output buffers are character arrays.
- Explicit request ids in the conservation and channel results: they are only about ids the client draws itself.
- Re-entrant features: a feature that calls back into the manager while it is being called.
- Publishing itself, sleeping and radio transmission: the published text and delay are the result.
