# Chat server model

A Dafny model of a multi-threaded chat server in C, of its two C client programs (console and message receiver),
and of the parser and encoder of its browser client, with proofs about all of them together.

`dafny verify dfyconfig.toml` checks everything.

## What is modelled

- **Codec** (`CText`, `Codec`, `PacketBuffers`). A packet is a 4-byte magic, four hex digits of type, four of length
  and the payload. `Codec` defines encoding and decoding on sequences, including `strtol` in full (ISO C11, section
  7.22.1.4) and `%04hx` (section 7.21.6.1). `PacketBuffers` models the C code step by step, as
  loops over fixed buffers that start out with arbitrary bytes, proved against `Codec`.
- **Text commands and replies** (`FrontEnds.dfy`, `Replies`, `Phrases`, `Roster.dfy`). In-place `strtok` (section
  7.24.5.8) on terminated buffers, the console parser, the browser parser and encoder, the reply words, and every
  sentence the server sends.
- **Handlers** (`Users`, `Handlers`). Each command as a function from the user table, the caller's slot and the request
  to an outcome: code, the caller's new fields, an acknowledgement, the messages and threads started. `Outcomes` says
  case by case, in the order of the source's tests, what each request is answered; `Phrases` spells every text byte by
  byte, with a decimal reader and a UTF-8 decoder defined apart from the code that writes numerals and sentences.
- **Concurrency** (`Scheduled`, `Receivers`, `Sessions`, `Chat`). One state machine of all clients, session threads,
  sender threads, receiver programs and the acceptor. `Chat.Next` is one step of one party, in any order: a console
  client types a line or reads a reply, any other client sends any packet it likes, a handler runs or a packet that does
  not decode is rejected, a reply is sent, a connection breaks, a session closes, a slot is looked at,
  committed or freed, a receiver attaches, a reader thread takes the mutex, one delivery is made. `Chat.Run` is any
  finite sequence of steps. A new session, a new message or a new receiver can appear at any point.
- **Theorems** (`SessionProofs`, `ChatProofs`, `ChatTheorems`, `Names`, `Secrets`, `Answers`, `Witness`). `Chat.Inv` is proved inductive, and
  the theorems hold in every reachable state or along every run.
- **The programs** (`ChatServer`, `ClientPrograms`). Classes with the server's fields and its loops over the user array,
  each method proved against the outcome `Handlers` defines; the session loop against a run of `Handlers.Execute`; the
  main loops of the two client programs, of which the receiver's is proved to be the receiver's half of the credit
  protocol that `Receivers` defines.

A `char` of the model is one byte of the program; source literals are turned into their UTF-8 bytes (RFC 3629,
section 3), and strings end at the first NUL. Nothing needs a byte to be below 256, so the proofs cover more than the
program can meet. Integers that the program narrows are narrowed explicitly (`% 65536` for `%hx`).

## Assumptions

- A channel is FIFO and keeps packet boundaries: one write is one read.
- "Count, create, start the threads" of a broadcast is one step, and so is each delivery with its increment. A handler is
  one step; its reply word is a separate one. The increment on the path without a receiver is not locked in the source
  (`server/server_broad.c:44-46`) and is taken as atomic here.
- A user context stays readable until the deliveries started for it have run.
- A new session thread takes its first step after its slot was filled (the source starts it earlier, at
  `server/server_net.c:315`), and `verified` starts out false.
- The generated nickname is any 12 characters over a-z and 0-9; that it is new among the joined users is not assumed.
- A receiver attaches at most once in a session and runs `client/client_broad.c`.
- A connection's client is the console client, which waits for each reply, or a foreign one, which sends any number of
  packets of any bytes at any time, greetings included (`Sessions.Inject`), such as `web-client/src/client.ts`. Every
  theorem about the server holds for both; only those named for the console client below need one. A packet that the
  source reads or runs outside its buffers is not taken (`Chat.Servable`).
- A line typed at the console holds no newline, since `fgets` ends it there.

## Findings

- **Exactly-once delivery is not exactly "since attach".** A delivery started before a receiver attaches can run after it
  attached. `Witness.EarlyDeliveryHappens` is such a run. `ChatTheorems.ReceivedIsScheduledWhileAttached` shows that what
  a receiver has read equals what was scheduled for its user while it was attached if and only if no delivery for
  that user was pending when it attached; `ChatTheorems.ExactlyOnce` says what it has read in every case.
- **Joined users can share a name.** The rename scan passes over users that have not greeted yet, and such a user starts
  to count as joined by its greeting, by a disconnect request, by a packet that does not decode, or when its connection
  breaks (the join test is `status >= 2`, and a suspended status is 999). In `Witness.ClashHappens` a joined user takes the
  name of a new connection that then breaks, in `Witness.RejectedClashHappens` that connection sends a packet without the
  magic. `Names.StepKeepsNamesDistinct` shows that among distinct names a step leads to distinct names if and only if it is
  not one of those four under a name a joined user has, all of which can be seen before it.
- **The end of a session can leave a token over, and no read comes of it.** In every reachable state the reads started are
  at most one plus the deliveries, and once a channel is closing none starts. Counting a free token too, the release at the
  end of the session has to be added; without it the bound fails exactly while a closing reader has not taken that release
  and no release was lost before (`ChatTheorems.CreditAlways`). Closing keeps the bound if and only if the mutex is free
  already or a release was lost (`ChatTheorems.CreditAtClose`); in the run `Witness.ExtraTokenHappens` it does not.
- **A chat message sent when nobody has joined is never freed.** It is scheduled for nobody, so no delivery counts it.
  `Witness.LeakHappens` is a run with such a message, after which no run frees it; `ChatTheorems.MessageLifetime` says that
  every message with a limit of at least one is freed with its last delivery.
- **The two front ends disagree** on some lines. `FrontEnds.FrontEndsAgree` gives the exact set where they agree: lower
  case `/name` and `/send`, bare `/status` and `/exit` (one space after them is harmless), everything that does not start
  with a slash, and the odd line whose unknown command is followed by itself. The browser accepts `/NAME`, drops an
  unknown command's word, and keeps the argument of `/status`.
- **The two encoders agree** on every Latin-1 payload if and only if type and length fit in 16 bits; the browser's field
  grows beyond four digits otherwise.
- **Decode, encode, decode** equals decode if and only if the type field was not negative: `strtol` reads a sign that the
  encoder does not write (`Codec.NegativeTypeHappens`).
- **The roster splits back** into its lines if and only if no joined name contains a newline, which the rename rule does
  not forbid (`RosterProofs.NewlineNameHappens`).
- **Documentation.** `comm.h:29` and the repository's own description give 2-byte binary type and length fields and a
  payload of up to 16376 bytes. The code writes four hex digits for each, so the header has 12 bytes, and with the
  terminating NUL of the packet buffer the largest payload is 16371 bytes. The repository's `README.md:40-41` says that a full server
  answers FAIL and disconnects; the code sends an acknowledgement packet and suspends the session, while FAIL is the answer
  to a wrong greeting, after which the session goes on. The code is followed.

## Model

| member | source | states |
|---|---|---|
| Codec.DecodeEncoded | comm.c:154-218 | whatever bytes the encoder may write for a message, even with a length field larger than its text, the decoder reads that message back from a zeroed buffer of any sufficient size, with the type as unsigned short |
| Codec.RoundTrip | comm.c:144-169 | every type in 0..65535 and NUL-free payload up to 16371 bytes comes back with the same type, length and text |
| Codec.HexRoundTrip | comm.c:158-162 | printing any integer as a four-digit field and reading it with `strtol` gives it modulo 65536 |
| Codec.HexNormalForm | comm.c:187-196 | reading a field of hex digits and printing it again gives it in lower case |
| Codec.EncodingInjective | comm.c:154-169 | two messages that can have the same bytes are equal |
| Codec.DecodeIgnoresTail | comm.c:173-218 | buffers that agree on the header and the declared payload decode alike |
| Codec.DecodedText | comm.c:173-218 | the decoded text is a C string no longer than the declared length, and as long exactly when the payload holds no NUL |
| Codec.DecodeEncodeDecode | comm.c:154-218 | for any buffer, decoding a re-encoded message gives the first decoding if and only if its type was not negative |
| Codec.NegativeTypeHappens | comm.c:187-188 | a packet whose type field reads as -1 decodes, and its re-encoding decodes to something else |
| Codec.PacketBytes | comm.c:154-169 | every packet byte by byte: 99 88 77 66, four lower-case hex digits of type and of length, most significant first, then the text |
| Codec.InvalidExactly | comm.c:173-196 | the decoder turns a buffer down if and only if fewer than 8 bytes came, the first four are others, or the declared length is above 16376 |
| Codec.StrTolReads | comm.c:188-193 | `strtol` in base 16 reads the number of the hex digits behind any white space, sign and 0x, up to the first other character |
| Codec.ReencodeGivesPrefix | comm.c:154-218 | re-encoding a decoded packet whose payload has the declared length gives back the packet's prefix up to the case of its hex letters |
| PacketBuffers.Substring | util.c:19-38 | the loop copies exactly the requested bytes, counted from 1, and terminates them |
| PacketBuffers.PackingMessageSend | comm.c:154-169 | on a buffer with arbitrary contents the bytes handed over are an encoding of the message, `length + 12` of them, and every write stays inside 16384 bytes |
| PacketBuffers.PackingMessageConvert | comm.c:173-218 | the buffer code returns `Codec.Decode` of its buffer, errors included, for every buffer whose declared length it can hold |
| CText.DecReads | server/server_cmd.c:342-342 | the decimal digits written for a number read as that number, with no leading zero |
| CText.FoldMatches | server/server_cmd.c:192-192 | two strings are equal to `strcasecmp` if and only if they have the same length and differ at most in the case of the 26 letters |
| CText.Utf8Reads | server/server_cmd.c:34-396 | a UTF-8 decoder reads the code points of every source literal back from its bytes |
| StrTok.NextToken | client/client_comm.c:43-70 | one `strtok` call: skips delimiters, ends the token with one NUL, leaves the rest of the string at the offset the next call uses, and changes no other byte |
| StrTok.Split | client/client_net.c:165-174 | the splitting loop returns the tokens of the string in order |
| StrTok.TokensHaveNoDelimiter | client/client_net.c:165-174 | every token is non-empty and free of the delimiter |
| Console.MsgPackingMessage | client/client_comm.c:43-70 | the in-place parser returns `Console.Parse` of the typed line, also for a bare command word followed by a cleared byte |
| Console.ParseIs | client/client_comm.c:15-69 | type and payload of every typed line: 2 and 3 with the rest of the line, 4 and 5 without, 255 with the unknown word, 1 with the whole line |
| WebClient.CodeOf | web-client/src/index.tsx:19-52 | the browser's code for a word: 5, 4, 3 or 2 for EXIT, STATUS, SEND or NAME in any case, else 255 |
| WebClient.GetCommandByString | web-client/src/index.tsx:42-52 | the loop that cannot stop early returns the last match, or the last command |
| WebClient.GetCommandByCode | web-client/src/index.tsx:28-39 | a command with that code if there is one, else the last command |
| WebClient.JoinSplit | web-client/src/index.tsx:103-113 | joining the parts of a split gives the line back |
| WebClient.JoinAfterDelete | web-client/src/index.tsx:111-113 | deleting the first part and joining leaves the line from its first separator on |
| WebClient.EncodersAgree | web-client/src/client_type.ts:43-56 | the browser's string written as binary equals the C packet byte for byte if and only if type and length are below 65536 |
| WebClient.PaddedHex | web-client/src/client_type.ts:45-46 | a padded minimal hex number is the fixed-width one whenever the number fits the width |
| FrontEnds.FrontEndsAgree | web-client/src/index.tsx:91-119 | for every ASCII line without newline the console and the browser send the same type and payload if and only if the line is in the listed set |
| Replies.ReplyRecovered | comm.c:235-275 | every reply the server can write is recognised by the client: a word with its exact code, a packet with its exact message |
| Replies.RepliesUnambiguous | client/client_net.c:138-187 | no byte string is two different replies |
| Phrases.AckSendable | server/server_cmd.c:34-40 | every acknowledgement, rosters of 64 longest names included, fits the encoder's and the client's buffer |
| Phrases.RoomIsExact | server/server_cmd.c:65-67 | a chat line or secret fits its message buffer exactly when the stated bound on name and text holds, and the fixed sentences always do |
| Phrases.SayingSpells | server/server_cmd.c:65-65 | what each scheduled text holds, by its bytes: "[sender]: " and the chat line; the secret's 17-byte prefix, the sender in the bracket, then the text; the sentence of a join or leave; a rename under the new name, with the old name, the sentence and the new name again |
| Phrases.AnnouncementSentence | server/server_cmd.c:128-201 | the sentences of a join, a leave and a rename |
| Phrases.ChatReads | server/server_cmd.c:65-67 | whatever packet is written for a chat line that fits, its reader finds a type 1 message with the text "[sender]: line" |
| Phrases.SecretReads | server/server_cmd.c:281-283 | whatever packet is written for a secret that fits, its reader finds the 17-byte prefix, "sender]: " and the text |
| Handlers.SkipIffAck | server/server_cmd.c:34-396 | a handler returns SKIP exactly when it sent an acknowledgement, never with a scheduled message, and BYE exactly for a disconnect |
| Outcomes.ChatOutcome | server/server_cmd.c:51-85 | type 1: the caller's name and text for all joined users, answered OK, the caller unchanged |
| Outcomes.LeaveOutcome | server/server_cmd.c:372-386 | type 5: the caller is suspended, its leaving announced to all joined users, answered BYE |
| Outcomes.UnsupportedOutcome | server/server_cmd.c:390-396 | any type above 5: answered NOSUPPORT, nothing else |
| Outcomes.GreetingOutcome | server/server_cmd.c:90-139 | type 0, by text, slot and status: FAIL and nothing else, a refusal and suspension, WELCOME with a join announced, or OK and nothing else |
| Outcomes.RenameOutcome | server/server_cmd.c:143-210 | type 2: FAIL, the current name, one of three refusals or the rename, each exactly in its case and in the source's order |
| Outcomes.SecretOutcome | server/server_cmd.c:214-311 | type 3: one of six refusals or the secret, each exactly in its case and in the source's order |
| Outcomes.StatusOutcome | server/server_cmd.c:315-368 | type 4: FAIL exactly for a user that is not verified, else the roster; nothing changes |
| Outcomes.RefusalSays | server/server_cmd.c:113-310 | each refusal is a packet of type 2 or 3, by its command, that says its sentence |
| Outcomes.NameSentence | server/server_cmd.c:113-195 | the sentences that refuse a greeting or a rename |
| Outcomes.SecretSentence | server/server_cmd.c:224-309 | the sentences that refuse a secret |
| Outcomes.CurrentNameSays | server/server_cmd.c:152-159 | the answer to an empty rename is a type 2 packet with a title and the caller's name |
| Handlers.ExecuteSession | server/server_cmd.c:90-139 | what any command may do to its caller: phase never back, verified changes exactly with WELCOME, which needs an established user below slot 64, names change only by a joined user's rename |
| Handlers.GreetsExactly | server/server_cmd.c:96-105 | through `strtok`, the copy 15 bytes behind the first word and two comparisons, exactly one text is accepted as a greeting, after any number of spaces |
| Handlers.HandshakeVerdict | server/server_cmd.c:90-139 | for that text and only for it, a user below slot 64 that has not joined is welcomed and announced to all users joined after it joined, and one above gets a refusal and is suspended; FAIL and OK change nothing |
| Handlers.ExecuteName | server/server_cmd.c:143-182 | every command keeps the caller's name non-empty, at most 63 bytes, free of NUL, space and quote |
| Handlers.RenameAccepted | server/server_cmd.c:143-210 | a rename succeeds if and only if the caller is verified, the name is well formed and no other joined user below slot 64 has it ignoring case; then only the name changes, otherwise nothing |
| Handlers.AddressedIsSent | server/server_cmd.c:231-301 | a text that names, before its first space, another joined user with a receiver is scheduled for exactly the first such user and the sender |
| Handlers.SentIsAddressed | server/server_cmd.c:221-311 | every other text is refused with an acknowledgement |
| Handlers.ShortRequestRoom | server/server_cmd.c:63-67 | whatever a request of at most 16288 bytes makes the server schedule fits its buffers, for every name |
| Handlers.ExecuteSpawn | server/server_cmd.c:67-84 | one thread for each count of the limit, all to distinct occupied slots: the joined ones after the command, or the two ends of a secret |
| RosterProofs.RosterSplits | server/server_cmd.c:325-364 | splitting the roster at newlines gives its head line and one line for each joined slot in order, if and only if no joined name contains a newline |
| RosterProofs.NewlineNameHappens | server/server_cmd.c:173-182 | a rename to a name with a newline is accepted, and the roster after it does not split back |
| RosterProofs.MarkedLine | server/server_cmd.c:342-347 | a line ends in the mark exactly when it is the caller's, whatever the names are |
| RosterProofs.RosterAgrees | server/server_cmd.c:331-363 | the head's numerals read as the number of joined users and as 64, line k is "[", a numeral reading as the number of the k-th joined slot, "] ", that user's name, and the mark if it is the caller, and exactly one line is marked when the caller is listed |
| Scheduled.FinishKeeps | comm.c:86-101 | a thread that has not run finds its message alive; counting it keeps counter plus pending equal to the limit, and frees exactly at the last one |
| Phrases.SayingDecoded | comm.c:154-218 | a receiver that reads a packet written for a scheduled message gets a type 1 message that spells what was said |
| Receivers.StepKeeps | server/server_broad.c:90-109 | every step of reader and receiver keeps the credit invariant: every token ever released is free, taken or lost |
| Receivers.ReceiverProgress | client/client_broad.c:58-99 | with nothing new delivered the receiver has exactly `Work` steps left, and no steps left means it has read everything and listens |
| SessionProofs.IncomingIsAsked | server/server_comm.c:70-95 | for a console client, the packet a session takes from its channel decodes to exactly the oldest unanswered request of its client |
| SessionProofs.HearsTheLatest | client/client_net.c:120-187 | the reply a waiting client reads is the server's answer to its latest request, read as it was meant |
| SessionProofs.StepKeeps | server/server_comm.c:57-103 | every step of a client, console or foreign, and of its session thread keeps link, status and channel invariants |
| SessionProofs.ServeKeeps | server/server_comm.c:90-94 | running any request the server can run keeps them too, whoever sent it |
| SessionProofs.RejectKeeps | server/server_comm.c:84-88 | so does rejecting a packet that does not decode, which no console client sends |
| ChatProofs.StepKeeps | server/server_net.c:614-673 | every step of the whole system keeps the invariant |
| ChatProofs.RunKeeps | server/server_net.c:579-673 | so does every run |
| ChatTheorems.MessageLifetime | comm.c:86-101 | in every reachable state counter plus pending deliveries is the limit, and a message with a limit of at least one has been freed, once, exactly when nothing is pending |
| ChatTheorems.NoUseAfterFree | server/server_broad.c:52-57 | no delivery step finds its message freed, and a step frees a message exactly when it is that message's last delivery |
| ChatTheorems.TargetsAreFixed | server/server_cmd.c:70-84 | the users a message goes to and its text never change along a run |
| ChatTheorems.OnlyTargetsOnce | server/server_broad.c:44-57 | no receiver is ever sent a message twice, or one its user is not a target of |
| ChatTheorems.ExactlyOnce | server/server_broad.c:32-67 | when all is delivered, a receiver has read a message once if it was scheduled for its user since it attached or was pending then, and otherwise not at all |
| ChatTheorems.ReceivedIsScheduledWhileAttached | server/server_broad.c:41-57 | the multiset read is the set scheduled since the receiver attached, if and only if nothing was pending when it attached |
| ChatTheorems.AttachRecordsPending | server/server_net.c:455-497 | that condition is fixed at the attach step, and is the absence of pending threads for the user |
| Witness.EarlyDeliveryHappens | server/server_broad.c:41-57 | a run from the start in which a receiver reads a message scheduled before it attached |
| ChatTheorems.BroadcastReachesJoined | server/server_cmd.c:51-85 | a packet schedules at most one message, none if it does not decode, and unless it is a secret its targets are exactly the users joined, below slot 64, after the command |
| ChatTheorems.CreditAlways | server/server_broad.c:90-109 | in every reachable state reads started are at most one plus the deliveries, and none starts once the channel is closing; together with the free token they are at most one plus the deliveries plus the release at the session's end, and within the bound without that release exactly if it is not a closing reader that has not taken it with no release lost; at most one read is open, a drained listening receiver has sent a ready for every read, and an open read is never stuck |
| ChatTheorems.CreditAtClose | server/server_comm.c:97-100 | until a session closes the bound holds without that release, and its closing keeps it if and only if the mutex is free or a release was lost before |
| Witness.ExtraTokenHappens | server/server_comm.c:97-100 | a run from the start to a closing channel in which one read has started, the token is free, and nothing was delivered |
| ChatTheorems.OneReplyEach | server/server_comm.c:90-94 | for every client, in every reachable state: each request taken has exactly one reply, written in order or still owed, and each reply on its way reads as what the server answered |
| ChatTheorems.TakenIfDecoded | server/server_comm.c:82-94 | a packet is taken as one more request if and only if it decodes; otherwise it is a foreign client's and ends the session unanswered |
| ChatTheorems.Lockstep | client/client_net.c:107-188 | for a console client, in every reachable state: each served request has one answer, in order, at most one request is outstanding and at most one packet is in flight between client and server |
| ChatTheorems.ClientHearsLatestReply | client/client_net.c:127-138 | whenever the client reads a reply, it is the answer to the request it sent last |
| ChatTheorems.ClientGoesOn | client/client_net.c:73-188 | the console goes on exactly after OK, WELCOME, NOSUPPORT or BYE to its greeting, and after anything but BYE later |
| ChatTheorems.WaitingClientProgress | server/server_comm.c:70-95 | while its session lasts, a waiting client has its reply or the server has a step towards it |
| ChatTheorems.SlotTable | server/server_net.c:614-673 | occupied slots hold live users at their own index, no user sits twice, and the slot the acceptor chose is still empty when it commits, whatever happened in between |
| ChatTheorems.UninterruptedScan | server/server_net.c:327-342 | a scan nobody interrupts chooses the lowest empty slot, or fails if slots 0 to 127 are occupied |
| ChatTheorems.PhaseNeverGoesBack | server/server_comm.c:70-103 | along every run a session's phase, its close count and its free count never decrease |
| ChatTheorems.NoCommandAfterSuspend | server/server_comm.c:70-70 | once a session is suspended no run takes another of its packets, however many its client has sent |
| Witness.UnservedHappens | server/server_comm.c:70-80 | a run from the start to a suspended session with any packet left, which no run from there takes |
| ChatTheorems.OnceEach | server/server_net.c:361-446 | for every client, whatever it sends and however often it greets: at most one welcome, one join announcement, one close and one free for each connection; closed exactly when disconnected, freed exactly when no slot holds it |
| ChatTheorems.SuspendedIsFreed | server/server_net.c:361-446 | from every reachable state a suspended session has a run of at most three steps of its own after which it was closed and freed exactly once and no slot holds it |
| ChatTheorems.Pigeonhole | server/server_net.c:614-673 | a set of users seated below slot n has at most n members |
| ChatTheorems.Capacity | server/server_cmd.c:109-133 | every joined user is verified and sits below slot 64, and at most 64 are joined |
| ChatTheorems.RefusedWhenFull | server/server_cmd.c:109-119 | the lowest free slot is one that cannot join, or there is none, exactly when slots 0 to 63 are all occupied |
| Names.JoinsExactly | server/server_net.c:220-225 | a step makes a user count as joined if and only if it has not joined, sits below slot 64, and the step is the service of its accepted greeting, of its disconnect request or of a packet that does not decode, or the break of its connection |
| Names.StepKeepsNamesDistinct | server/server_cmd.c:173-196 | from distinct names of joined users, a step leads to distinct names if and only if it is not such a step under a name a joined user has |
| Witness.ClashHappens | server/server_cmd.c:173-196 | a run from the start in which serving a rename gives a joined user the name of a connection that has not joined, and the break of that connection makes two joined users of one name |
| Witness.RejectedClashHappens | server/server_comm.c:84-88 | the same from a packet that does not decode |
| Witness.LeakHappens | server/server_cmd.c:67-84 | a run from the start to a message with a limit of 0, which no run from there frees |
| Names.NicknamesAlongRuns | server/server_cmd.c:143-210 | along every run all names are well formed, and distinct among joined users if no clashing newcomer joins |
| Secrets.SecretGoesTo | server/server_cmd.c:264-301 | in every reachable state, a secret that names before its first space another joined user with a receiver, in the lowest slot of that name, schedules its text for exactly that user and the sender, and changes no other session |
| Secrets.SecretNeedsAddressee | server/server_cmd.c:221-311 | a secret request schedules a message if and only if it names such a user |
| Secrets.SecretArrives | server/server_cmd.c:264-301 | however the run goes on after a secret was served, each of its two ends that was attached reads it exactly once when all is delivered, nobody else is ever sent it, and every packet written for it reads as the 17-byte prefix, the sender's name, "]: " and the text |
| Secrets.LineIsServed | client/client_net.c:117-131 | whatever the other parties do after a line was typed at a console client, the next packet its session can serve is the parsed line |
| Secrets.SendIsSecretFor | server/server_cmd.c:264-301 | among distinct names, `/send n text` names the one user called `n`, whatever the case and the slot order |
| Secrets.SendSchedules | server/server_cmd.c:214-311 | `/send n text`, in any reachable state in which it is dispatched, schedules exactly one message holding `text`, for the user named `n` and the sender, and changes no other session |
| Secrets.SendArrives | server/server_cmd.c:264-301 | from the keyboard to the receivers with any steps of the others between typing, dispatch and delivery: the user named `n` and, if attached, the sender read `text` exactly once, nobody else gets it, and its packet reads as prefix, sender and `text` |
| Answers.WordWritten | server/server_comm.c:90-94 | in every reachable state, a request whose handler returns a word leaves its client exactly that word, and no session but the caller's changes |
| Answers.AckWritten | server/server_cmd.c:34-40 | in every reachable state, a request that is acknowledged leaves its client one packet it reads as that acknowledgement |
| Answers.ChatServed | server/server_cmd.c:51-85 | in every reachable state, a chat message of any client schedules exactly one message, with its sender and text, for exactly the users joined then, is answered OK, and changes no other session |
| Answers.ChatArrives | server/server_cmd.c:51-85 | from the keyboard to the receivers with any steps of the others between typing, dispatch and delivery: each user joined at dispatch and attached reads the line exactly once, nobody else gets it, and its packet reads "[sender]: line" |
| Answers.StatusRefused | server/server_cmd.c:321-321 | in every reachable state, a status request of a user that is not verified is answered FAIL and changes nothing |
| Answers.StatusAnswered | server/server_cmd.c:315-368 | in every reachable state, one of a verified user is answered by one type 4 packet, changes nothing and schedules nothing; the console shows it as a head that counts the joined users and one line for each, by number and name, if and only if no joined name holds a newline |
| Answers.FullServerTurnsAway | server/server_cmd.c:109-120 | in every reachable state, the right greeting from slot 64 or above writes one refusal, schedules nothing and suspends the session; no run serves it again, and it has a run that closes and frees it once |
| ChatServer.ScheduleMessage.Increase | comm.c:86-101 | the counter step refines `Scheduled.Increase` |
| ChatServer.UserContext.SendResponseCode | comm.c:248-275 | one word for each code, nothing for SKIP, and BYE suspends |
| ChatServer.UserContext.BroadSendMessage | server/server_broad.c:32-67 | with a receiver, exactly one packet encoding the message is appended and the mutex is free; without one, nothing is written; counted once either way |
| ChatServer.ConnectManager.CurrentUserIndex | server/server_net.c:327-342 | the lowest empty slot below 128 or -1, and a refused one exactly when slots 0 to 63 are occupied |
| ChatServer.ConnectManager.GetCurrentJoinedUser | server/server_net.c:247-261 | the number of joined slots below 64 |
| ChatServer.ConnectManager.GetCurrentEstablishedUser | server/server_net.c:229-243 | the size of the set of slots below 64 whose user is established |
| ChatServer.ConnectManager.UserDisconnect | server/server_net.c:361-382 | the first call ends the status and empties exactly the user's slot, a second one changes nothing |
| ChatServer.ConnectManager.CmdBroadcastMessage | server/server_cmd.c:51-85 | refines `Handlers.Broadcast`: limit, text, and one thread for each joined slot in order |
| ChatServer.ConnectManager.CmdWelcomeHandshake | server/server_cmd.c:90-139 | refines `Handlers.Handshake` |
| ChatServer.ConnectManager.CmdChangeName | server/server_cmd.c:143-210 | refines `Handlers.ChangeName`: every refusal in order, the scan of the slots, the rename |
| ChatServer.ConnectManager.CmdSecretMessage | server/server_cmd.c:214-311 | refines `Handlers.SecretMessage`: every refusal in order, the first match, the two threads |
| ChatServer.ConnectManager.CmdCurrentUser | server/server_cmd.c:315-368 | refines `Handlers.CurrentUser`; every intermediate string fits its 512, 8188 or 16376 bytes |
| ChatServer.ConnectManager.CmdDisconnect | server/server_cmd.c:372-386 | refines `Handlers.Leave` |
| ChatServer.ConnectManager.ExecuteCommand | server/server_comm.c:42-53 | the dispatch refines `Handlers.Execute`: caller, acknowledgement, code, message, threads and table |
| ChatServer.ConnectManager.CommunicateUser | server/server_comm.c:57-103 | for any packets whose handling the server's buffers hold, the loop writes one packet for each it serves, the answer to that request after the ones before it, stops early only at an invalid packet or a suspended user, and leaves the user disconnected with its slot empty |
| ClientPrograms.ExecuteClientManager | client/client_net.c:64-190 | for any typed lines and replies, the packets sent are the first requests in order, each reply read belongs to the request before it, and the program stops early only at a refused greeting, at BYE, or when a reply does not come |
| ClientPrograms.RequestsAre | client/client_net.c:71-118 | what the console asks for: the greeting "CLIENT_VERSION 1.0.0", then what each line that is not empty parses to, in order |
| ClientPrograms.AcceptedWords | client/client_net.c:81-98 | the greeting is accepted exactly by OK, WELCOME, NOSUPPORT and BYE |
| ClientPrograms.ShowPacket | client/client_net.c:163-184 | a roster is shown line by line, any other acknowledgement as one message |
| ClientPrograms.RunReceiver | client/client_broad.c:58-99 | the exact sequence of what the program does: for each packet up to the first disconnect request or invalid packet a ready packet, then a read, then the line shown if it is a chat message, and a ready packet and a failing read if no such packet comes; every ready packet sent is an encoding of the empty message |
| ClientPrograms.ReceiverConforms | client/client_broad.c:58-99 | that sequence is the receiver's half of the credit protocol: every act is enabled on its channel when it is done, with one ready packet for each packet read and one more before a failing read |
| ClientPrograms.ShowsTypeOne | client/client_broad.c:74-99 | whatever packets arrive, what is shown is the texts of the type 1 messages before the first invalid packet or type 5 message, in order |
| ClientPrograms.ReceiverShowsSayings | client/client_broad.c:74-99 | a receiver shows, for every scheduled message written to it and in the order of its channel, a line that spells what was said |

## Left out

- Codec.Decode: is defined for packets whose declared length lies inside the buffer or above 16376; a negative length, or
  one between, makes the C code read outside its buffer.
- PacketBuffers.PackingMessageSend: requires a payload of at most 16371 bytes, the most its 16384-byte buffer holds with
  header and NUL. A line of 16372 to 16374 bytes, which `fgets` accepts, is outside that bound.
- Handlers.Execute: requires of a greeting that both copies fit their 32-byte buffers and start inside the text; the C code
  reads or writes outside its buffers for others, such as an empty one.
- ChatServer.ConnectManager.CommunicateUser: one session alone; the other parties' steps in between are the subject of
  `Chat`. A chat line or secret whose scheduled text does not fit 16376 bytes is outside its precondition, because the
  source writes it past the end of a buffer.
- ChatServer.ConnectManager.CmdChangeName: the reply to an empty `/name` is the intended text; the source formats it in 64
  bytes, which a name of more than 44 bytes overflows.
- ChatServer.UserContext.BroadSendMessage: a thread from start to end; that other threads move between its steps is
  modelled only by the order of whole deliveries.
- Chat.Next: scheduled texts are not limited to the message buffer there; `Phrases.RoomIsExact` and
  `Phrases.SecretFitsExactly` say which ones the source can hold, and `Secrets.SecretArrives` requires it.
- Secrets.SendArrives: requires that name and text leave the packet of the secret within 16371 bytes of payload, because
  the source overruns its buffers beyond that.
- ClientPrograms.ExecuteClientManager: a first reply that never comes ends the program here; the source goes on to read
  the text of an invalid packet.
- The branch for packets of other types in the reader thread (`server/server_broad.c:136`): its condition tests type 0
  only, and the modelled receiver sends type 1.
- Receivers that reconnect, `set_broad_suspend` toggling and `user_broad_disconnect`: teardown relies on `pthread_kill` and
  shared pointers.
- TLS, certificates, sockets, console and log output, and the browser's HTTP and rendering: they appear as channels,
  steps or parameters.
- JSON messages: they rest on json-c, which is not part of this model.
- `ConvertMessageFromBinary` and `isPackingMessage` of the browser: they depend on the UTF-8 replacement of invalid bytes
  and do not mirror the C decoder.
- Order between different messages: each delivery is a thread of its own, so none is promised or claimed.
- Memory other than scheduled messages, such as the leaked thread arguments; the random generator; the periodic count.
