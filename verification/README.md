# TACACS+ in Dafny

A model of a TACACS+ client and server in Go (RFC 8907), with proofs about it. Code that changes
things step by step is modelled by methods and classes, each proved equal to a function on values, and
what the system promises is proved about those functions for every input, every run or every reachable
state.

- **Wire stack.** `Arguments`, `Layout`, `Bodies`, `Marshal`, `Obfuscation`, `Framing`: argument text,
  the seven bodies, the MD5 pad, the header and packets on a byte stream. Each layer is a printer and a
  parser that invert each other, and a stream of packets reads back as written.
- **Session protocol.** `Sessions`, `Server`, `SessionSafety`, `Overlap`, `Connection`: the session table,
  one transition per packet, what every run of interleaved sessions keeps, what becomes of packets that
  overlap while their handlers work, and the loop that serves a connection. The policy handler is an
  arbitrary function that may differ from packet to packet, and what other connections do in between is
  an arbitrary change of the table.
- **Client against server.** `Client`, `Login`, `Authorization`, `Accounting`: the client's loop, the
  composition of both loops into a whole login, and authorization and accounting from the caller's
  arguments to the handler and back.
- **Policy as a compiler.** `Runes`, `Regex`, `FlatPolicy`, `Groups`, `Resolver`, `Authorizers`,
  `Authenticator`: groups are expanded into rule lists, globs are translated to regular expressions, and
  the compiled list is compared with the direct decision. The regular expressions that globs translate
  to have a semantics of their own over the runes of expression and command, which Go's engine is taken
  to follow; for all other patterns the engine is arbitrary.
- **Around the protocol.** `DnsSecrets` and `Addresses` (shared secrets found through DNS), `Proxy` (the
  PROXY prefix), `Slots` (connection limit and draining), `LegacyText` (the text form of RFC 1492).

`Base` and `Text` hold shared vocabulary. Bytes are integers from 0 to 255, and 8-bit sequence numbers
wrap as in Go. `dafny verify dfyconfig.toml` checks everything.

Where the code and its documentation or the standard differ, the model follows the code:

- A reply to number 255 carries, and stores, number 0, while section 4.1 of RFC 8907 says numbers never
  wrap (`SessionSafety.LongLoginRuns`). No CONTINUE is accepted after that
  (`SessionSafety.ContinueAcceptedIff`).
- Answers FOLLOW and RESTART leave the session in the table (`SessionSafety.AfterConsultation`,
  `Login.HeldOnlyAfterFollow`, `Login.FollowHoldsSession`).
- A CONTINUE that does not decode leaves its session as it was (`SessionSafety.UndecodableIsIgnored`).
- All packets of a connection must carry the first packet's flags, while section 4.3 of RFC 8907 lets
  the single-connect flag be ignored after the second packet (`Connection.FlagDiscipline`,
  `Connection.DroppedFlagEnds`).
- In a rule only the action `deny` denies (`Groups.OnlyDenyDenies`, `Groups.EmptyActionPermits`); the
  comment beside it says an empty action does too.
- An authentication type inherited from a group is resolved but not enforced
  (`Authenticator.InheritedTypeEnforcedIff`, `Authenticator.InheritedTypeIgnored`).
- The compiled rules of all users form one list, so one user's rules can decide another's request
  (`Authorizers.RulesLeakBetweenUsers`, `Authorizers.CompiledAgreesIff`); without a command, and
  for a user who is not configured, the two ways to authorize have different defaults
  (`Authorizers.EmptyCommandAgreesIff`, `Authorizers.UnknownUserAgreesIff`).
- A client's numbers go on where its last login stopped, so the START of a second login is taken for a
  CONTINUE: it fails, or is put to the handler as part of the first login
  (`Login.ReusedClientAskedIff`, `Login.ReusedClientAsked`).
- A number is meant to be used once; two connections that deliver it together can both reach the handler
  (`Overlap.AskedTwiceIff`).
- A v1 PROXY header with addresses of different families or ports out of range can be written but not
  read (`Proxy.V1ReadsWire`).

## Model

| member | source | states |
|---|---|---|
| `Arguments.ParseArgument` | types/arg.go:41-56 | the index loop splits at the first `=` or `*`, and fails on text without a separator or with an empty name, as `Parse` does |
| `Arguments.ParseInvertsRender` | types/arg.go:29-56 | printing and parsing an argument gives it back exactly when its name is non-empty and free of separators |
| `Arguments.RenderInvertsParse` | types/arg.go:29-56 | accepted text prints back to itself, and what it parses to is well formed |
| `Arguments.Separators` | types/arg.go:29-38 | a mandatory argument is written with `=`, an optional one with `*` |
| `Arguments.ParseAllInvertsRenderAll` | client/client.go:102-140 | an argument list survives printing and parsing exactly when every argument is well formed |
| `Arguments.ParseArguments` | server/server.go:270-303 | the decoding loop yields all arguments, or fails exactly when one of them does not parse, with those before it |
| `Arguments.RenderArguments` | client/client.go:102-140 | the encoding loop prints every argument in order |
| `Layout.CutInvertsFlatten` | packet/args.go:10-43 | fields laid end to end are recovered from their table of lengths |
| `Layout.FlattenInvertsCut` | packet/args.go:28-43 | cutting bytes by a table of lengths loses nothing and yields fields of those lengths |
| `Bodies.AuthenStartParseInvertsWire` | packet/authen.go:26-78 | every START that marshals decodes to itself and is 8 to 1028 bytes long, so it fits a frame |
| `Bodies.AuthenStartWireInvertsParse` | packet/authen.go:57-78 | accepted START bytes re-marshal to themselves |
| `Bodies.AuthenStartLayout` | packet/authen.go:26-54 | where each field of a START is in its bytes (section 5.1 of RFC 8907) |
| `Bodies.AuthenContinueParseInvertsWire` | packet/authen.go:92-127 | every CONTINUE that marshals decodes to itself; exact size |
| `Bodies.AuthenContinueWireInvertsParse` | packet/authen.go:112-127 | accepted CONTINUE bytes re-marshal to themselves |
| `Bodies.AuthenContinueLayout` | packet/authen.go:92-109 | where each field of a CONTINUE is in its bytes (section 5.3 of RFC 8907) |
| `Bodies.AuthenReplyParseInvertsWire` | packet/authen.go:142-179 | every authentication REPLY that marshals decodes to itself; exact size |
| `Bodies.AuthenReplyWireInvertsParse` | packet/authen.go:163-179 | accepted authentication REPLY bytes re-marshal to themselves |
| `Bodies.AuthenReplyLayout` | packet/authen.go:142-160 | where each field of an authentication REPLY is in its bytes (section 5.2 of RFC 8907) |
| `Bodies.AuthorRequestParseInvertsWire` | packet/author.go:28-110 | every authorization REQUEST that marshals decodes to itself, argument table included; exact size, at most 66053 bytes |
| `Bodies.AuthorRequestWireInvertsParse` | packet/author.go:75-110 | accepted authorization REQUEST bytes re-marshal to themselves |
| `Bodies.AuthorRequestLayout` | packet/author.go:28-72 | where each field and argument of an authorization REQUEST is in its bytes (section 6.1 of RFC 8907) |
| `Bodies.AuthorRequestCanExceedFrame` | packet/author.go:28-72 | some REQUEST marshals to 66053 bytes, more than a reader accepts |
| `Bodies.AuthorReplyParseInvertsWire` | packet/author.go:123-198 | every authorization REPLY that marshals decodes to itself; exact size |
| `Bodies.AuthorReplyWireInvertsParse` | packet/author.go:164-198 | accepted authorization REPLY bytes re-marshal to themselves |
| `Bodies.AuthorReplyLayout` | packet/author.go:123-161 | where each field and argument of an authorization REPLY is in its bytes (section 6.2 of RFC 8907) |
| `Bodies.AcctRequestParseInvertsWire` | packet/acct.go:25-107 | every accounting REQUEST that marshals decodes to itself; exact size, at most 66054 bytes |
| `Bodies.AcctRequestWireInvertsParse` | packet/acct.go:71-107 | accepted accounting REQUEST bytes re-marshal to themselves |
| `Bodies.AcctRequestLayout` | packet/acct.go:25-68 | the bytes of an accounting REQUEST: the flags, then those of an authorization REQUEST (section 7.1 of RFC 8907) |
| `Bodies.AcctReplyParseInvertsWire` | packet/acct.go:119-154 | every accounting REPLY that marshals decodes to itself; exact size |
| `Bodies.AcctReplyWireInvertsParse` | packet/acct.go:139-154 | accepted accounting REPLY bytes re-marshal to themselves |
| `Bodies.AcctReplyLayout` | packet/acct.go:119-136 | where each field of an accounting REPLY is in its bytes (section 7.2 of RFC 8907) |
| `Marshal.EncodeArgLengths` | packet/args.go:10-24 | writes the count and one length byte per argument and returns the position after them, or reports more than 255 arguments, then one over 255 bytes; what came before the position is kept |
| `Marshal.DecodeArgLengths` | packet/args.go:28-43 | returns the table of lengths and the position after it, or fails exactly when the count is missing or the table runs past the data |
| `Marshal.MarshalAuthenStart` | packet/authen.go:26-54 | fills the buffer with exactly the wire form, or fails exactly when a field is over 255 bytes |
| `Marshal.UnmarshalAuthenStart` | packet/authen.go:57-78 | sets the receiver to the parsed value, or fails as `AuthenStartParse` does leaving the text fields alone |
| `Marshal.MarshalAuthenContinue` | packet/authen.go:92-109 | fills the buffer with exactly the wire form, or fails exactly when a field is over 65535 bytes |
| `Marshal.UnmarshalAuthenContinue` | packet/authen.go:112-127 | sets the receiver to the parsed value, or fails leaving it unchanged |
| `Marshal.MarshalAuthenReply` | packet/authen.go:142-160 | fills the buffer with exactly the wire form, or fails exactly when a field is over 65535 bytes |
| `Marshal.UnmarshalAuthenReply` | packet/authen.go:163-179 | sets the receiver to the parsed value, or fails leaving message and data alone |
| `Marshal.MarshalAuthorRequest` | packet/author.go:28-72 | fills the buffer at a moving position with exactly the wire form; which error is reported when a field, the argument count or an argument is too long |
| `Marshal.UnmarshalAuthorRequest` | packet/author.go:75-110 | sets the receiver to the parsed value, or fails leaving fields and arguments alone |
| `Marshal.MarshalAuthorReply` | packet/author.go:123-161 | fills the buffer with exactly the wire form, or reports the first limit exceeded |
| `Marshal.UnmarshalAuthorReply` | packet/author.go:164-198 | sets the receiver to the parsed value, or fails changing at most the status |
| `Marshal.LimitErrors` | packet/author.go:28-46 | bodies with arguments marshal exactly when every field and argument is within its limit and there are at most 255 arguments; anything too long is reported before too many |
| `Marshal.MarshalAcctRequest` | packet/acct.go:25-68 | fills the buffer with exactly the wire form, or reports the first limit exceeded |
| `Marshal.UnmarshalAcctRequest` | packet/acct.go:71-107 | sets the receiver to the parsed value, or fails leaving fields and arguments alone |
| `Marshal.MarshalAcctReply` | packet/acct.go:119-136 | fills the buffer with exactly the wire form, or fails exactly when a field is over 65535 bytes |
| `Marshal.UnmarshalAcctReply` | packet/acct.go:139-154 | sets the receiver to the parsed value, or fails leaving it unchanged |
| `Obfuscation.PseudoPad` | crypto/obfuscate.go:22-47 | the block loop computes the hash chain of section 4.5 of RFC 8907 cut to the body length |
| `Obfuscation.PadAt` | crypto/obfuscate.go:22-47 | byte i of the pad is byte i mod 16 of link i/16 of the hash chain |
| `Obfuscation.PadPrefix` | crypto/obfuscate.go:22-47 | the pad of a shorter body is a prefix of that of a longer one |
| `Obfuscation.ChainIs` | crypto/obfuscate.go:22-47 | the first link hashes the seed, every other one the seed followed by the link before |
| `Obfuscation.XorBitwise` | crypto/obfuscate.go:51-56 | bytes are combined bit by bit: a bit of the result is set exactly where the two differ |
| `Obfuscation.MaskAt` | crypto/obfuscate.go:22-56 | byte i of the masked body is byte i combined with byte i mod 16 of link i/16 of the chain over session id, secret, version and number, in that order |
| `Obfuscation.XorPad` | crypto/obfuscate.go:51-56 | the in-place loop replaces the buffer by the masked body |
| `Obfuscation.Obfuscate` | crypto/obfuscate.go:65-73 | the copying form yields the same masked body |
| `Obfuscation.DeobfuscateInPlace` | crypto/obfuscate.go:87-89 | the in-place form yields the same masked body |
| `Obfuscation.MaskTwice` | crypto/obfuscate.go:51-89 | masking twice with the same key and header gives the body back |
| `Framing.HeaderParseInvertsWire` | packet/header.go:41-69 | a header reads back from its 12 bytes exactly when its version is supported, whatever follows |
| `Framing.HeaderWireInvertsParse` | packet/header.go:55-69 | accepted header bytes re-marshal to themselves |
| `Framing.HeaderLayout` | packet/header.go:41-52 | the twelve bytes: version, type, number, flags, then session id and length in network order |
| `Framing.BodyOnTheWire` | transport/conn.go:120-129 | in legacy mode without the unencrypted bit every body byte is combined with the pad of section 4.5 of RFC 8907; otherwise the body is written as it is |
| `Framing.FrameReadsBack` | transport/conn.go:89-129 | a written packet reads back (length filled in, unencrypted bit forced under TLS) and leaves what follows untouched, exactly when its version is supported and its body is at most 65536 bytes |
| `Framing.FramePrefixStops` | transport/framing.go:26-70 | no strict prefix of a written packet reads as a packet; with a body of 4 GiB or more, exactly the prefixes that hold the announced length modulo 2^32 do |
| `Framing.StreamReadsBack` | transport/framing.go:60-94 | any list of deliverable packets, followed by anything, reads back as that list and then as what follows |
| `Framing.StreamReadsBackIff` | transport/framing.go:60-94 | a list of packets reads back whole exactly when each of them is deliverable |
| `Framing.FrameAllAppend` | transport/framing.go:79-94 | writing two lists one after the other writes their concatenation |
| `Framing.Conn.ReadHeader` | transport/framing.go:26-39 | reads 12 bytes, rejects unsupported versions and lengths over 65536, and stops at a short read |
| `Framing.Conn.ReadBody` | transport/framing.go:45-54 | reads exactly the announced length or fails |
| `Framing.Conn.ReadPacket` | transport/conn.go:89-115 | reads, and in legacy mode de-obfuscates in place, the packet `ReadFrame` describes, and consumes exactly its bytes |
| `Framing.Conn.WritePacket` | transport/conn.go:120-129 | appends exactly the frame of header and body in the connection's mode |
| `Sessions.SessionManager.constructor` | server/sessions.go:64-76 | an empty table with a zero gauge; a TTL that is not positive becomes five minutes, in nanoseconds |
| `Sessions.SessionManager.Get` | server/sessions.go:79-84 | returns the entry, if any |
| `Sessions.SessionManager.Set` | server/sessions.go:88-99 | registers or replaces the entry with fresh times; the gauge moves only for a new id |
| `Sessions.SessionManager.Update` | server/sessions.go:103-114 | refreshes and changes an existing entry, does nothing for a missing one |
| `Sessions.SessionManager.Delete` | server/sessions.go:118-125 | removes the entry; the gauge moves only if there was one |
| `Sessions.SessionManager.SweepExpired` | server/sessions.go:130-141 | the loop removes exactly the entries idle for more than the TTL and lowers the gauge once for each |
| `Sessions.ApplyFacts` | server/sessions.go:88-141 | what each operation leaves stored for every id: times set or refreshed to now, deleted entries gone, a sweep keeping exactly those active within the TTL, all else unchanged |
| `Sessions.GaugeCountsEntries` | server/sessions.go:88-141 | after any run of operations and sweeps the gauge equals the number of entries |
| `Sessions.SweepsDecide` | server/sessions.go:130-141 | an entry nobody touches survives a run exactly when no sweep in it came more than the TTL after its last activity, and is then unchanged |
| `Sessions.StaysAbsent` | server/sessions.go:88-141 | no operation on other ids brings an entry into being |
| `Sessions.RefreshedSurvives` | server/sessions.go:103-141 | a session refreshed within the TTL of every sweep, and not deleted, survives a run of any length |
| `Server.Server.constructor` | server/server.go:76-91 | unencrypted packets are allowed by option or by TLS mode; no sessions yet |
| `Server.Server.HandleAuthen` | server/server.go:193-268 | table, reply and handler call after an authentication packet are those of `AuthenStep`, error paths included; what those are is stated by `SessionSafety.AfterConsultation`, `ConsultedWith`, `NoConsultation` and `ContinueAcceptedIff` |
| `Server.Server.Settle` | server/server.go:246-258 | the table becomes that of `AfterAnswer`: the session is dropped on a final or failed answer, otherwise stored with the number of the reply (`EndsSessionIs`, `SessionSafety.AfterConsultation`) |
| `Server.Server.HandleAuthor` | server/server.go:270-303 | reply and handler call for an authorization request are those of `AuthorStep`, which `AuthorAnswers` determines |
| `Server.Server.HandleAcct` | server/server.go:305-339 | reply and handler call for an accounting request are those of `AcctStep`, which `AcctAnswers` determines |
| `Server.Server.WriteReply` | server/server.go:342-348 | the reply echoes version, type, flags and session id with the number plus one, modulo 256 |
| `Server.Server.SendGenericError` | server/server.go:368-371 | an error outside any body format is a reply of length 0 |
| `Server.Server.Handle` | server/middleware.go:124-140 | dispatch by packet type is the transition `Step`; unknown types get the generic error |
| `Server.EndsSessionIs` | server/server.go:250-251 | the statuses that end a session are exactly PASS (1), FAIL (2) and ERROR (7) |
| `Server.ErrorBodies` | server/server.go:350-366 | the three error bodies decode to status ERROR (7, 0x11, 2) and nothing else |
| `Server.AuthorAnswers` | server/server.go:270-303 | the handler is asked, with exactly the fields of the request and the packet, if and only if the request decodes and its arguments parse; a request that does not decode gets the generic error, a bad argument or failing handler status ERROR, a decision that fits its status, message and arguments |
| `Server.RecordIs` | types/acct.go:34-47 | the flags name a record exactly when the stop bit is set alone, or without it the start bit, the watchdog bit or both |
| `Server.AcctAnswers` | server/server.go:305-339 | the handler is asked, with exactly the fields of the request and the packet, if and only if the request decodes, its flags name a record and its arguments parse; otherwise, and when the handler fails, status ERROR or the generic error |
| `Server.DispatchByType` | server/middleware.go:124-140 | types 1, 2 and 3 reach only their own part of the handler, only type 1 changes the table, and any other type gets the generic error |
| `Server.TypedReplyNotEmpty` | server/server.go:342-377 | every typed reply body has at least 5 bytes, so length 0 means a generic error and nothing else |
| `SessionSafety.ContinueAcceptedIff` | server/server.go:217-238 | a CONTINUE reaches the handler exactly when its session is stored, the stored number is not 0, its own number is the next one and its body decodes |
| `SessionSafety.AfterConsultation` | server/server.go:240-258 | after a handler call the session is stored exactly when there was an answer and it was not PASS, FAIL or ERROR; then with the number of the packet plus one modulo 256, activity now, and for a START its flags and peer, for a CONTINUE the entry otherwise unchanged |
| `SessionSafety.ConsultedWith` | server/server.go:193-243 | the handler sees the START of the packet itself, or the stored START and the decoded CONTINUE |
| `SessionSafety.NoConsultation` | server/server.go:193-238 | a packet that does not reach the handler changes the table exactly when a stored session gets a wrong number, and then drops that session |
| `SessionSafety.UndecodableIsIgnored` | server/server.go:234-236 | a START or awaited CONTINUE that does not decode gets the generic error and changes nothing |
| `SessionSafety.StepIsolated` | server/server.go:193-339 | no packet changes the entry of another id or puts another id's login to the handler |
| `SessionSafety.RunsStayConsistent` | server/server.go:193-268 | in every run of interleaved packets and sweeps, the calls about an id are in order and its stored entry remembers the last of them |
| `SessionSafety.StoredNumbersAreEven` | server/sessions.go:173-186 | in every reachable state stored numbers are even, and 0 only after number 255 was answered |
| `SessionSafety.ConsultationsOfOneLogin` | server/sessions.go:173-186 | between two STARTs of an id the calls are numbered 1, 3, 5, ..., carry that START, are at most 128, and after 255 only a START follows |
| `SessionSafety.SessionsDoNotInterfere` | server/server.go:193-268 | what a run does to one id is what it does with all packets for other ids left out |
| `SessionSafety.LongLoginRuns` | server/server.go:252-258 | for every n up to 128, a login of n packets with a handler that keeps asking makes n calls and leaves 2n modulo 256 stored: the bound of 128 is attained and number 0 is stored after 255 |
| `Overlap.StepIsBothHalves` | server/server.go:193-268 | the step of a packet is its part before the handler followed by its part after it |
| `Overlap.OrderlyInOrder` | server/server.go:193-268 | in every run in which packets of other sessions overlap freely but a packet of this session begins only when none of it is with the handler, its calls are in order and its entry agrees with the last |
| `Overlap.BeginAsksIff` | server/sessions.go:173-186 | a CONTINUE is put to the handler exactly when the stored session awaits its number and it decodes, whatever is still with the handler |
| `Overlap.AskedTwiceIff` | server/server.go:217-258 | of two CONTINUEs with the same awaited number the second is put to the handler exactly when the answer to the first has not been recorded yet |
| `Overlap.NumberThreeTwice` | server/server.go:217-258 | a run of two overlapping packets in which the handler is asked about number 3 twice |
| `Connection.RequestsAreTheInput` | server/server.go:133-179 | the k-th exchange is about the k-th packet of the input; on a read error all packets were answered |
| `Connection.RepliesAnswerRequests` | server/server.go:342-377 | one reply is written per request taken, with the request's version, type, flags and session id and its number plus one modulo 256, empty exactly for generic errors; the output reads back whole exactly when no body is over 65536 bytes |
| `Connection.FlagDiscipline` | server/server.go:145-191 | a packet is dispatched exactly when its flags equal the first packet's and suit the mode and the policy on unencrypted packets; only the last packet can be refused |
| `Connection.DroppedFlagEnds` | server/server.go:163-166 | a legacy connection whose first two packets carry the single-connection flag is ended by a third without it |
| `Connection.StopReasons` | server/server.go:185-191 | why a connection ended on a packet: no unencrypted bit under TLS, the bit without leave in legacy mode, or flags other than the first packet's |
| `Connection.ConnectionIsARun` | server/server.go:133-179 | whatever packets and sweeps of others happen in between, a connection is part of one run of the session machine: it leaves that run's table, and its calls are those the run makes at its own events |
| `Connection.ConnectionInOrder` | server/server.go:133-268 | so over all connections together the calls about an id are a START, then its CONTINUEs with consecutive odd numbers |
| `Connection.LoneConnectionIsARun` | server/server.go:133-179 | a connection with the server to itself makes exactly the calls and leaves exactly the table of such a run |
| `Connection.LoneConnectionInOrder` | server/server.go:133-268 | for any input bytes, the calls such a connection makes about an id are a START, then its CONTINUEs with consecutive odd numbers |
| `Connection.ServeNext` | server/server.go:139-178 | one turn of the loop: read, flag checks, dispatch, and what is written and stored |
| `Connection.ServeConn` | server/server.go:133-179 | the loop's result, output, table, calls and unread input are those of `Serve`, and the gauge still counts the entries if it did before |
| `Client.Session.constructor` | protocol/session.go:60-73 | a client starts at 1, a server at 2 |
| `Client.Session.NextSeq` | protocol/session.go:81-88 | hands out the number and advances by two, and refuses past 255 |
| `Client.TalkNumbersPackets` | client/client.go:41-99 | for every input the client's packets are numbered in steps of two and never pass 255, so a fresh client sends at most 128 |
| `Client.TalkSends` | client/client.go:41-99 | every packet of a login is an authentication packet without flags, and the first carries the START |
| `Client.VersionIs` | types/version.go:50-57 | major version 12; minor version 1 exactly for PAP, CHAP, MS-CHAP and MS-CHAPv2 |
| `Client.Client.Send` | client/client.go:178-193 | sends one packet with the next number, or nothing once numbers run out |
| `Client.Client.Authenticate` | client/client.go:41-99 | the loop's packets, result, error, counter and remaining input are those of `Talk`, whose turns `Login.FreshLoginIsGood` and `Login.LoginSucceedsIff` determine; a START that does not marshal changes nothing |
| `Client.Client.Authorize` | client/client.go:102-140 | sends the request's wire form under the next number and returns what `HearAuthor` makes of the one reply it consumes (`Authorization.StatusHeard`, `PartialResult`); a marshalling or numbering error changes nothing |
| `Client.Client.Account` | client/client.go:143-173 | sends the record's wire form under the next number and returns what `HearAcct` makes of the one reply it consumes (`Accounting.AcctHeard`); a marshalling or numbering error changes nothing |
| `Login.TurnAccepts` | server/server.go:193-268 | a server expecting the client's packet, whose session others have kept, dispatches it and puts it to the handler with the original START, unless cancelled or the body is over 65536 bytes |
| `Login.ClientHears` | client/client.go:60-99 | a reportable answer reaches the client as the handler gave it; anything else ends the client's loop with an error |
| `Login.FreshLoginIsGood` | client/client.go:41-99 | a fresh client against the server, its session in place whenever a CONTINUE arrives: at most 128 packets numbered 1, 3, 5, ..., every one accepted and put to the handler with the original START; the client goes on exactly when the answer is not PASS, FAIL, ERROR, FOLLOW or RESTART and the prompt yields an answer of at most 65535 bytes, which is then the message of a CONTINUE without data and what the handler is asked about next; the session is stored at the end exactly when the last answer was not PASS, FAIL or ERROR |
| `Login.LoginSucceedsIff` | client/client.go:72-98 | the login ends without error exactly when the handler's last answer could be reported and was PASS, FAIL, ERROR or FOLLOW, and then with that answer, FOLLOW as FAIL |
| `Login.PassEndsSession` | server/server.go:250-258 | a login passed at once: the client returns PASS and the server holds no session |
| `Login.AcceptedIffKept` | server/server.go:217-238 | an expected CONTINUE reaches the handler as part of this login exactly when others have left its session in place |
| `Login.TimelyIsUndisturbed` | server/sessions.go:130-141 | the session is in place whenever the others use other ids and no sweep between two packets comes more than the TTL after the answer to the first |
| `Login.LoginAmongOthers` | server/server.go:76-91 | under those conditions, with the sweeper running, the login is good and is part of the run of all sessions together |
| `Login.LoginIsBothLoops` | client/client.go:41-99 | that dialogue is what both loops do: each side's output is the other's input, with the same result, table and calls |
| `Login.HeldOnlyAfterFollow` | server/server.go:250-258 | after a login the client counts as finished, the server still holds the session exactly when the handler's last answer was FOLLOW (0x21) |
| `Login.AskedIff` | server/server.go:217-238 | any packet after the first reaches the handler exactly when its session is stored, awaits its number and the body reads as a CONTINUE; otherwise the generic error, and the session is dropped exactly when it awaits another number |
| `Login.StartAsContinue` | packet/authen.go:112-127 | a marshalled START reads as a CONTINUE exactly when its first four bytes, taken for two lengths, add up to its size |
| `Login.ReusedClientAskedIff` | client/client.go:41-99 | a second Authenticate on the same client reaches the handler exactly when the server still holds the first login's session, awaits just that number and the START reads as a CONTINUE, and then as part of the first login; otherwise it fails with the generic error |
| `Login.ReusedClientAsked` | client/client.go:41-99 | a client, a handler and a START for which the second Authenticate is put to the handler as a CONTINUE |
| `Login.FollowHoldsSession` | server/server.go:250-258 | a login that ends with FOLLOW: the client is done with a failure, the server holds the session |
| `Login.OversizeStops` | transport/framing.go:35 | a body over 65536 bytes stops the reader with a length error |
| `Login.ReadFrameExtends` | transport/framing.go:60-70 | bytes after a packet do not change how it is read |
| `Authorization.RequestDelivered` | client/client.go:102-140 | for equal mode and secret the handler receives exactly the client's fields and arguments, if and only if every argument is well formed |
| `Authorization.DecisionReturned` | server/server.go:270-303 | the client returns exactly the handler's status, 0x10 for 0x21, message and arguments, if and only if the reply marshals, fits a frame and has well-formed arguments |
| `Authorization.StatusHeard` | protocol/author.go:47-52 | whatever is read, the client never returns FOLLOW but FAIL for it, and otherwise the status of the reply, so a pass exactly for that pass; without a reply it returns an error and an empty result |
| `Authorization.PartialResult` | client/client.go:126-139 | a reply with an argument that does not parse is returned up to that argument, with the error |
| `Accounting.RecordDelivered` | client/client.go:143-173 | for equal mode and secret the handler receives exactly the client's flags, fields and arguments, if and only if the flags name a record and every argument is well formed |
| `Accounting.AnswerReturned` | server/server.go:305-339 | the client returns the handler's status, ERROR for FOLLOW, and message, if and only if the message is at most 65531 bytes; a failing handler and flags that name no record are returned as ERROR |
| `Accounting.AcctHeard` | protocol/acct.go:59-65 | a decoded reply is returned with its status, 2 for 0x21, and message, or a length error when it is too long for a frame |
| `Accounting.AcctGenericHeard` | client/client.go:164-166 | the generic error is returned as an invalid packet |
| `Regex.QuotedIsLiteral` | cmd/tacacs-cli/server.go:490-496 | quoted text parses as its literal symbols |
| `Regex.GlobParses` | cmd/tacacs-cli/server.go:490-496 | every translated glob parses: anchors around the quoted text, `.*` for a trailing star |
| `Regex.GlobSearch` | cmd/tacacs-cli/server.go:490-496 | searching with a translated glob is equality, or for a trailing star a prefix test with no newline in the rest |
| `Regex.TranslationDecodes` | cmd/tacacs-cli/server.go:490-496 | the runes of a UTF-8 glob's expression are the expression of its runes, though quoting and translating work on bytes |
| `Regex.EngineCovers` | cmd/tacacs-cli/server.go:490-496 | Go's engine matches with a UTF-8 glob's expression exactly the commands whose runes the glob covers |
| `Regex.CoversBytes` | cmd/tacacs-cli/server.go:490-496 | a glob covers what its bytes match unless the star has to stand for a newline, and nothing else unless it has the replacement character and the command is not UTF-8 |
| `FlatPolicy.PolicyAllows` | server/users.go:99-111 | the loops allow exactly commands that no deny glob matches and some allow glob does |
| `FlatPolicy.GlobKeepsMeaning` | cmd/tacacs-cli/server.go:490-496 | a UTF-8 glob's expression and `matchCmd` agree, on a command read alike, exactly unless a trailing star has to cover a newline; whatever `matchCmd` accepts without that is matched in any case |
| `FlatPolicy.NewlineDiffers` | server/users.go:116-125 | a glob and a command with a newline on which they differ |
| `FlatPolicy.ReplacementDiffers` | server/users.go:116-125 | a glob with the replacement character whose expression matches a byte that `matchCmd` does not |
| `FlatPolicy.LayerAgreesIff` | server/users.go:99-111 | for any command read alike, exactly when the deny and allow expressions decide as `Policy.Allows`; always without a newline |
| `Groups.CompileRules` | server/group.go:64-74 | compiles every rule, or fails exactly when a pattern does not compile |
| `Groups.FindArg` | server/group.go:97-104 | an argument is found exactly when one with the same name and value is present |
| `Groups.MatchCommandRules` | server/group.go:282-298 | the loop returns what `MatchCommand` does, the verdict of the first matching rule (`FirstRuleDecides`) |
| `Groups.RuleMatchesIs` | server/group.go:81-104 | a rule matches exactly when its expression, if any, matches the command and for every argument it wants the request has one with that name and value |
| `Groups.FirstRuleDecides` | server/group.go:282-298 | nothing is decided when no rule applies; otherwise the first that does decides: `deny` fails, any other action passes with the values the rule sets, replacing (2) or adding (1) |
| `Groups.UnmetRuleIsSkipped` | server/group.go:81-104 | a rule that wants an argument the request lacks can be left out of the list |
| `Groups.MatchCommandAppend` | server/group.go:282-298 | first match over two lists is the first list's match, else the second's |
| `Groups.NoMatchIff` | server/group.go:282-298 | there is no verdict exactly when no rule matches |
| `Groups.OnlyDenyDenies` | server/group.go:282-298 | a list denies exactly when its first matching rule has the action `deny`; an empty action permits |
| `Groups.EmptyActionPermits` | server/group.go:282-298 | a rule with an empty action that permits every command |
| `Groups.Validate` | server/userconfig.go:85-106 | the loop accepts exactly users with names and passwords, no name twice, and hashed passwords unless plain ones are allowed |
| `Groups.UserRulesFirst` | server/group.go:228-261 | a resolved user's verdict is their own rules' first match, else their groups' |
| `Groups.GroupsInOrder` | server/group.go:228-261 | among groups the first listed group with a match decides |
| `Groups.AuthTypeComesFrom` | server/group.go:255-258 | the resolved authentication type is the user's own, else that of the first group that has one, else empty |
| `Groups.ResolvedNames` | server/group.go:170-221 | exactly the configured usernames are resolved |
| `Groups.ResolvesIff` | server/group.go:170-221 | a configuration resolves exactly when group and service names are non-empty and unique, patterns compile, and every service and group referred to exists |
| `Groups.ExpandedServices` | server/group.go:228-280 | a resolved user keeps the user's name, password, groups and services; of the services resolved their own come first, each the one configured under its name, then those of their groups |
| `Groups.GroupServicesStep` | server/group.go:245-259 | services of groups come in the order the groups are listed, within a group in the group's order |
| `Resolver.IndexGroups` | server/group.go:170-191 | succeeds exactly when group names are non-empty and unique and their patterns compile, and then maps each name to its compiled group |
| `Resolver.IndexServices` | server/group.go:192-201 | succeeds exactly when service names are non-empty and unique |
| `Resolver.MergeGroups` | server/group.go:245-259 | succeeds exactly when all groups exist; rules and services in listed order, first non-empty authentication type |
| `Resolver.ResolveUser` | server/group.go:228-261 | succeeds exactly for well-formed users, with the user's own rules and services before those of their groups |
| `Resolver.ResolveConfig` | server/group.go:170-221 | succeeds exactly when names are non-empty and unique, references exist and patterns compile, with every user expanded |
| `Authorizers.ExtractCmd` | server/group.go:329-336 | the value of the first `cmd` argument |
| `Authorizers.CommandIs` | server/group.go:329-336 | the command is the value of the first argument named `cmd` in any mixture of cases, or empty |
| `Authorizers.MatchServices` | server/group.go:303-314 | the first service whose required arguments are all present decides, with its set values |
| `Authorizers.FirstServiceDecides` | server/group.go:303-327 | the first service for all of whose arguments the request has one of that name and value decides: pass (2) with its set values |
| `Authorizers.AuthorizeDirectly` | server/userconfig.go:169-199 | unknown user, service request, own rules, then the flat policy |
| `Authorizers.UserConfigToRules` | cmd/tacacs-cli/server.go:457-484 | all users' resolved rules, then deny globs, then allow globs; fails exactly when resolution does |
| `Authorizers.GlobsCompileIff` | cmd/tacacs-cli/server.go:471-482 | the rules for globs compile exactly when every glob is UTF-8 |
| `Authorizers.CommandAuthorizer.New` | cmd/tacacs-cli/aaa/authorizer.go:42-49 | builds an authorizer exactly when every pattern compiles |
| `Authorizers.CommandAuthorizer.Reload` | cmd/tacacs-cli/aaa/authorizer.go:54-64 | swaps in the new rules, or keeps the old ones when a pattern does not compile |
| `Authorizers.CommandAuthorizer.Authorize` | cmd/tacacs-cli/aaa/authorizer.go:70-97 | first match over the rules, else a failure |
| `Authorizers.PolicyLayer` | cmd/tacacs-cli/server.go:471-482 | deny rules followed by allow rules under first match permit exactly the commands that no deny glob covers and some allow glob does |
| `Authorizers.CompiledMeans` | cmd/tacacs-cli/server.go:457-484 | the compiled list decides every command like a user who owns everybody's rules in front of the policy's expressions |
| `Authorizers.CompiledAgreesWithDirect` | cmd/tacacs-cli/aaa/authorizer.go:70-97 | when no other user's rules match, compiled and direct authorization give the same status and arguments exactly when the requester's own rules match or the policy's expressions decide as the policy does; always for a newline-free UTF-8 command |
| `Authorizers.CompiledAgreesForSoleRuleOwner` | cmd/tacacs-cli/aaa/authorizer.go:70-97 | in particular when no other user has resolved rules |
| `Authorizers.UsersInOrder` | cmd/tacacs-cli/server.go:462-469 | all users' rules in one list decide as those of the first declared user with a match |
| `Authorizers.CompiledAgreesIff` | cmd/tacacs-cli/server.go:457-484 | for a known user's command they agree exactly when the first declared user with a match decides what the requester's own rules, or else the flat policy, decide, or, with no match, the policy's expressions decide as the policy does |
| `Authorizers.EmptyCommandAgreesIff` | server/userconfig.go:178-187 | without a command they agree exactly when the first matching rule replaces by the values of the requester's matching service or, with no such service, permits adding nothing, or no rule matches and the policy allows the empty command |
| `Authorizers.UnknownUserAgreesIff` | server/userconfig.go:170-176 | for a user who is not configured, and any command or none, they agree exactly when the first matching rule denies, or none matches and the policy's expressions do not allow the command |
| `Authorizers.RulesLeakBetweenUsers` | cmd/tacacs-cli/server.go:457-484 | a configuration that loads and resolves, in which another user's deny rule overrides the requester's permission |
| `Authorizers.EmptyCommandDiffers` | cmd/tacacs-cli/aaa/authorizer.go:70-97 | a configuration that loads and resolves, and a request without a command that the two decide differently |
| `Authenticator.StoreAndResolved` | server/users.go:74-80 | the raw store and the resolved users know the same names, and resolution starts from the stored user |
| `Authenticator.PassesIff` | server/userconfig.go:140-161 | a login passes exactly when the user is stored, sets no type or one that accepts the request's, and the password, of the CONTINUE or of a PAP START, is the user's |
| `Authenticator.AsksIff` | server/userconfig.go:140-161 | a password is asked for exactly for a known user of an acceptable type other than PAP who has sent only the START; whatever neither passes nor is asked fails |
| `Authenticator.AcceptsIs` | server/userconfig.go:208-225 | each type name, in any case, accepts its own type and no other; `any` and no name accept all, any other name none |
| `Authenticator.InheritedTypeEnforcedIff` | server/userconfig.go:140-161 | a login of a type the resolved user does not accept is refused for that reason exactly when the type is the user's own and not inherited |
| `Authenticator.InheritedTypeIgnored` | server/userconfig.go:140-161 | a configuration that loads and resolves, whose group allows only PAP, and an ASCII login that is asked for a password all the same |
| `Addresses.SameKeyIffSameAddress` | server/secret_dns.go:186-194 | two addresses have the same key exactly when they are the same address, in 4- or 16-byte form |
| `Addresses.IsV4Iff` | server/secret_dns.go:186-194 | an address has a four-byte form exactly when it is the same as some four-byte address |
| `DnsSecrets.IpSet` | server/secret_dns.go:174-182 | the loop collects exactly the keys of the looked-up addresses |
| `DnsSecrets.Provider.New` | server/secret_dns.go:84-102 | fails exactly on an empty host or a failed lookup, else keeps order, secrets and modes |
| `DnsSecrets.Provider.Refresh` | server/secret_dns.go:112-139 | replaces the address sets of the hosts that answered, keeps the others, and reports an error exactly when there are rules and none answered |
| `DnsSecrets.Provider.Get` | server/secret_dns.go:143-170 | the first rule holding the client's address, else what the fallback returns, or an error without one |
| `DnsSecrets.TableHoldsLastGood` | server/secret_dns.go:112-139 | after any number of refreshes every rule is the original one with the addresses of its host's last successful lookup |
| `DnsSecrets.LookupSelects` | server/secret_dns.go:143-160 | so the rule chosen is the first whose last good lookup lists the client |
| `DnsSecrets.OverlapHarmlessIff` | server/secret_dns.go:112-139 | of two overlapping refreshes the one stored last undoes the other exactly when it failed for a host the other renewed |
| `Proxy.V2ReadsWire` | transport/proxy/proxyv2.go:42-96 | a v2 header is consumed to its last byte, with any trailing TLVs, and interpreted by command and family |
| `Proxy.V2AcceptsOnlyWire` | transport/proxy/proxyv2.go:42-96 | whatever is accepted is a v2 header followed by the rest |
| `Proxy.V1ReadsWire` | transport/proxy/proxyv1.go:40-130 | a written v1 header reads back as the client's address exactly when both are addresses of one family with ports from 0 to 65535; anything else written is rejected as malformed |
| `Proxy.PlainStreamPasses` | transport/accept.go:34-49 | a stream of TACACS+ packets passes with nothing consumed and the peer's own address |
| `Proxy.HeaderIsTransparent` | transport/accept.go:34-49 | behind any well-formed v2 header the same packets are read, with the advertised source or, for LOCAL and other families, the peer's address |
| `Proxy.ShortBlockFails` | transport/proxy/proxyv2.go:42-96 | a v2 header is refused, as malformed, exactly when it announces an IPv4 or IPv6 source and its block is too short for it |
| `Proxy.BadV2Fails` | transport/proxy/proxyv2.go:42-96 | a header with another signature, version or command is malformed, and one cut short ends the stream |
| `Proxy.UnknownPasses` | transport/proxy/proxyv1.go:40-130 | a v1 header of unknown protocol is skipped, whatever else its line says, and the peer's address kept |
| `Proxy.ReadHeaderV2` | transport/proxy/proxyv2.go:42-96 | consumes the stream and reports as `ReadV2`, error cases included |
| `Proxy.ReadHeaderV1` | transport/proxy/proxyv1.go:57-69 | consumes one line and reports as `ReadV1`, error cases included |
| `Proxy.ReadProxyHeader` | transport/proxy/proxyv1.go:40-53 | chooses the version by the first byte and consumes nothing when there is no header |
| `Proxy.AcceptWithProxy` | transport/accept.go:34-49 | the client's address and the remaining stream are those of `Accept` |
| `LegacyText.ValidateFields` | legacy/tcp.go:26-33 | accepts exactly fields without CR, LF and NUL |
| `LegacyText.MarshalRequest` | legacy/tcp.go:36-64 | builds the four-line text, or fails exactly on an unclean field |
| `LegacyText.FirstLineIs` | legacy/tcp.go:36-64 | the first line is the version, the type in upper case, and the style of an AUTH, the host of a SLIPON or SLIPOFF, or host and port of a CONNECT |
| `LegacyText.UpperIs` | legacy/tcp.go:36-64 | upper-casing leaves no lower-case ASCII letter and changes nothing else |
| `LegacyText.UnmarshalRequest` | legacy/tcp.go:67-104 | sets the receiver field by field as `ParseRequest` does, keeping fields the text does not name; on an error it is unchanged |
| `LegacyText.RequestReadsBackIff` | legacy/tcp.go:36-104 | a request that marshals reads back into a fresh value exactly when its type is a non-empty upper-case word, its parameters are words set only where the type has them, no port lacks a host, and its line is not empty |
| `LegacyText.ParsedIsExpressible` | legacy/tcp.go:67-104 | whatever decodes into a fresh value is such a request |
| `LegacyText.MarshalReply` | legacy/tcp.go:115-130 | builds the reply line, or fails exactly on a code that is not three bytes or an unclean field |
| `LegacyText.UnmarshalReply` | legacy/tcp.go:133-146 | sets the receiver as `ParseReply` does; on an error it is unchanged |
| `LegacyText.ReplyReadsBack` | legacy/tcp.go:115-146 | every reply that marshals reads back into a fresh value |
| `Slots.RunsAreAccounted` | cmd/tacacs-cli/server.go:273-340 | in every interleaving slots, tracker and wait group account for exactly the connections in each stage |
| `Slots.ServiceIsBounded` | cmd/tacacs-cli/server.go:273-340 | with a positive limit, connections in service never exceed slots taken, nor these the limit |
| `Slots.TakenIff` | cmd/tacacs-cli/server.go:273-340 | in every interleaving a connection that arrives is taken exactly when there is no limit or fewer connections are in service than the limit; otherwise nothing changes |
| `Slots.DrainedIsEmpty` | cmd/tacacs-cli/server.go:273-378 | once the loop has ended and the wait group is zero, no slot is taken and the tracker is empty |
| `Slots.TrackerCount` | cmd/tacacs-cli/server.go:345-378 | in every interleaving the exact number of tracked connections, and that it exceeds the limit exactly when goroutines past giving their slot back outnumber the slots without a tracked connection |
| `Slots.TrackerCanExceedLimit` | cmd/tacacs-cli/server.go:345-378 | a run with one slot in which the tracker holds two connections, since a slot is given back before the tracker is left |

## Left out

- LegacyText.MarshalRequest: upper case is that of ASCII.
- LegacyText.UnmarshalRequest: upper case and white space are those of ASCII.
- LegacyText.ParsedIsExpressible: upper case and white space are those of ASCII.
- Authorizers.CompiledAgreesIff: compares status and arguments; the message texts of the two differ in the source.
- Authenticator.InheritedTypeEnforcedIff: the names of authentication types are compared without regard to case in ASCII only.
- LegacyText.RequestReadsBackIff: upper case and white space are those of ASCII.
- DnsSecrets.Provider.Refresh: the lookups of one refresh are given as a list of answers; what two overlapping refreshes do is stated by `DnsSecrets.OverlapHarmlessIff`.
- Slots.ServiceIsBounded: the accept loop, semaphore and tracker are one state machine over their atomic steps, not a class.
- A packet is handled in one step outside `Overlap`, which does not follow replies and connections.
- Sockets, TLS, deadlines, failed writes and cancellation of the client: a connection is its input and output bytes; cancellation of the server loop is an arbitrary predicate.
- MD5, random session ids, the clock and DNS are parameters; LDAP, PAM, HTTP and bcrypt checks are an arbitrary predicate.
- Go's regular expressions beyond the form globs translate to, and globs over a million bytes, which Go's engine may refuse for their size.
- Parsing and printing of IP addresses and decimal numbers: arbitrary functions that invert each other.
- Case-insensitive comparisons beyond ASCII.
- `PrefixSecretProvider`, `NewIndexedArg`, `NewJuniperNumberedArg`, CHAP data splitting, the UDP form of RFC 1492 and the yang package: per-field checks and fixed offsets.
- Middleware other than the terminal dispatch, logging, metrics other than the session gauge, configuration loading and file watching.
- The texts inside errors, and slices shared between values: values are copied.
