# Chat server session registry and text handling, in Dafny

A model of the core of a small TCP chat server written in Go (`chatServer.go`).
Clients connect, type a pseudo, and then every line they send is relayed to
the other connected users. The model covers two parts of that file.

* **Text handling** (module `Text`, `text.dfy`): `filterMessage` (Go's
  `strings.Replace(s, by, "", -1)`: one left-to-right pass deleting every
  non-overlapping occurrence of `by`), `filterPseudo` (ten such passes, one
  for each of `\n`, space, `(`, `)`, `*`, `&`, `#`, `'`, `=`, `_`, in that
  order), and the four message builders. Each is a function. A reference
  definition, `Strip`, keeps the characters outside a set in their order. It
  is what `filterPseudo` is proved equal to and what the chat-line round trip
  returns. Each template has a reader (`WelcomedPseudo`, `ByePseudo`,
  `TimedOutPseudo`, `UserMessageBody`) proved inverse to it.
* **The session registry** (module `Registry`, `registry.dfy`): the
  `session` struct becomes the class `Session`. Its fields are
  `users: array<User>`, the fill pointer `usersPtr` and `maxUsersAllowed`.
  `User` (module `Users`, `users.dfy`) is `Empty | U(id, pseudo, conn)`.
  `Empty` stands for Go's zero value `user{}`, and `conn` is an opaque handle
  for the connection. The class has the constructor (`buildSession`),
  `IsFilled` (`checkSessionFilled`), `Join`, `Leave`, `BroadcastToAll`,
  `Broadcast`, and two compositions that follow the source's ordering:
  `Connect` (join, then the welcome to all) and `Exit` (the farewell, then
  the leave). The broadcast methods return the ordered slot indices they
  would write to, instead of writing to sockets. The pseudo loop of
  `createUser` is `ReadPseudo`, a loop over a given sequence of read results.
  Its specification is the function `FirstPseudo`.
* **Scenarios** (module `Scenarios`, `scenarios.dfy`): concrete runs on fresh
  sessions, parameterised by any sanitised names. They show the behaviour of
  the code as written.

The invariant `Session.Valid()` holds after construction and is kept by
every operation. It says four things. The fill pointer is at most the
last slot's index, and the last slot itself is always free. Every slot from the fill pointer on is `Empty`. Every occupied
slot `k` holds a user with `id == k`. Every stored pseudo is non-empty and
sanitised.

### Behaviour of the code as written (modelled, not corrected)

Several behaviours of the code are surprising; the model keeps them as
written:

* The gate admits only while `usersPtr < maxUsersAllowed - 1`. In the model,
  where the gate and the join are one step, at most `maxUsersAllowed - 1`
  users are registered at once and the last slot is never used (`IsFilled`,
  `CapacityRespected`, `LimitTwoAdmitsOne`); that is also what keeps the read
  `users[usersPtr]` in leave inside the array there.
* Leave copies `users[usersPtr]` into the leaving user's slot. That slot is
  always free, so the leaving slot becomes `Empty`. Leave then clears slot
  `usersPtr - 1`. If the leaving user was not the last one, the last user is
  erased while still connected, and a free slot is left in the middle
  (`LeaveSlots`, `LeaveErasesLastUser`).
* Both broadcasts stop at the first free slot they look at. After such a
  leave, a later line can reach nobody (`LeaveErasesLastUser`).
* `broadcastMessage` compares the slot index, not the stored id, with the
  sender's id. It skips that slot without looking at it
  (`Session.Broadcast`).
* A new user gets the fill pointer as its id. After a leave, that can be the
  id of a user who was erased but is still connected (`LeaveErasesLastUser`).
* When the gate is closed, the server does not accept the connection at all
  (it busy-waits). There is no refusal message: `Join` returns
  `SessionFilled` and changes nothing.

## Model

| member | source | states |
|---|---|---|
| Text.FilterMessage | chatServer.go:283-285 | the result is never longer than the message; an empty pattern deletes nothing |
| Text.FilterPseudo | chatServer.go:288-300 | the ten deletion passes, in the source's order; the result is never longer than the request |
| Text.WelcomeMessage | chatServer.go:218-224 | "> Welcome " + pseudo + " !\n", from which the welcome reader recovers the pseudo |
| Text.ByeMessage | chatServer.go:227-233 | "> See you later " + pseudo + " !\n", from which the farewell reader recovers the pseudo |
| Text.UserMessage | chatServer.go:236-243 | the chat line is the sender's pseudo, ": ", the sent line with every newline removed, and one newline |
| Text.TimeoutMessage | chatServer.go:246-252 | the timeout announcement, from which the timeout reader recovers the pseudo (empty for an empty slot) |
| Text.FilterMessageOneChar | chatServer.go:283-285 | deleting a one-character pattern keeps exactly the other characters, in their order |
| Text.FilterMessageIsSinglePass | chatServer.go:283-285 | deletion is a single pass: deleting "ab" from "aabb" leaves "ab" |
| Text.FilterPseudoIsStrip | chatServer.go:288-300 | the ten passes remove exactly the ten forbidden characters and keep all others in order |
| Text.FilterPseudoMembers | chatServer.go:288-300 | a character is in the sanitised pseudo iff it is in the request and not forbidden |
| Text.SanitisedIsFixedPoint | chatServer.go:288-300 | the output contains no forbidden character; sanitising leaves a pseudo unchanged iff it has none |
| Text.FilterPseudoIdempotent | chatServer.go:288-300 | sanitising twice is sanitising once |
| Text.WelcomeRoundTrip | chatServer.go:218-224 | "> Welcome " + p + " !\n" is read back as p, and a message read as p is that template for p |
| Text.ByeRoundTrip | chatServer.go:227-233 | "> See you later " + p + " !\n" is read back as p, and conversely |
| Text.TimeoutRoundTrip | chatServer.go:246-252 | "> " + pseudo + " was idle too long and was disconnected.\n" is read back as the pseudo, and conversely |
| Text.UserMessageRoundTrip | chatServer.go:236-243 | stripping "pseudo: " and the final newline from a chat line gives the sent line with all newlines removed |
| Text.UserMessageOfLine | chatServer.go:236-243 | a line without embedded newlines, sent with its newline, is relayed as "pseudo: line\n" |
| Text.UserMessageIsOneLine | chatServer.go:236-243 | with a pseudo produced by filterPseudo, a chat line has exactly one newline, its last character |
| Registry.FirstPseudoNone | chatServer.go:152-168 | the pseudo loop finds nothing exactly when no line was read without error and left a non-empty pseudo |
| Registry.FirstPseudoFirst | chatServer.go:152-168 | a pseudo the loop finds is the sanitised text of the first usable line |
| Registry.FirstPseudoSanitised | chatServer.go:162-166 | a pseudo the loop finds is non-empty and contains no forbidden character |
| Registry.ReadPseudo | chatServer.go:152-168 | the loop returns what FirstPseudo specifies (None when the lines run out), and any pseudo it returns is non-empty and sanitised |
| Registry.AdmitSlots | chatServer.go:170 | the slot write of a join keeps every slot from the new fill pointer on free and adds one occupied slot |
| Registry.LeaveSlots | chatServer.go:206-207 | the leave shuffle frees the leaving slot, keeps the free tail, changes no slot but the two written, and also loses the last user when the leaving user is not last |
| Registry.Session.constructor | chatServer.go:96-103 | maxUsersAllowed slots, all Empty, fill pointer 0 |
| Registry.Session.IsFilled | chatServer.go:126-128 | when the gate is open the slot at the fill pointer is free and another slot lies above it; when it is closed the pointer is at the last slot |
| Registry.Session.Join | chatServer.go:145-171 | closed gate or no usable line: nothing changes; otherwise the user with id old usersPtr, the caller's handle and the first usable pseudo is written at slot old usersPtr, the pointer goes up by one, and no other slot changes |
| Registry.Session.Leave | chatServer.go:206-208 | the slots become LeaveSlots of the old slots and the fill pointer goes down by one; the invariant is kept |
| Registry.Session.BroadcastToAll | chatServer.go:270-280 | the recipients are exactly slots 0, 1, ... in order, up to the first Empty slot |
| Registry.Session.Broadcast | chatServer.go:255-267 | the recipients ascend, never include the sender's index, and are exactly the occupied slots with no free slot other than the sender's below them |
| Registry.Session.Connect | chatServer.go:145-174 | the join outcome exactly as for Join (gate, NoPseudo when no line is usable, id old usersPtr, the caller's handle, the first usable pseudo); after a successful join, the welcome for that pseudo goes to the slots before the first free one |
| Registry.Session.Exit | chatServer.go:202-208 | the farewell goes, in ascending order and once each, to the broadcast recipients of the state before the leave; then the leave is applied |
| Registry.Session.CapacityRespected | chatServer.go:126-128 | no more than usersPtr, hence no more than maxUsersAllowed - 1, slots are occupied |
| Scenarios.FilterPseudoExample | chatServer.go:288-300 | "al(ic)e*" sanitises to "alice" |
| Scenarios.LimitTwoAdmitsOne | chatServer.go:126-128 | with a limit of two, the first user joins at slot 0 and the second finds the gate closed |
| Scenarios.JoinSkipsUnusableLines | chatServer.go:152-171 | a read error and a line that sanitises to nothing are skipped; the next line's pseudo is used |
| Scenarios.BroadcastSkipsSender | chatServer.go:255-267 | with three users, the middle one's line reaches slots 0 and 2 once each, as "pseudo: line\n" |
| Scenarios.LeaveErasesLastUser | chatServer.go:206-208 | after the first of three users leaves, the farewell reaches the other two, the middle user's next line reaches nobody, and the next joiner gets the erased user's id |

## Left out

- Networking: `launchServer`, `launchListener`, `net.Listen`, `Accept`, the `serverListener` field and `main`. The connection is an opaque `nat` handle.
- Socket I/O: `bufio` line reading, the "> Enter pseudo: " and "> Error found. Please try again." prompts, `Write` and `Close`. Broadcasts return the recipient slots instead of writing. Reading is a given sequence of results (`Line`).
- The pseudo loop never ends in Go when no usable line ever arrives. In the model, a finite sequence of lines with none usable gives `NoPseudo`, with no state change.
- `handleUser`'s relay loop over the socket. Each relayed line is `Broadcast` with `UserMessage`.
- Goroutines and the unsynchronised sharing of the session. Gate-and-join, leave and broadcast are atomic steps of a sequential model. Torn reads and writes of the data race are not modelled (the gate overshoot is described below).
- Logging, `handleError`/`handleLogError`, `log.Fatal`, `fmt.Printf` output and the unused `time` import.
- Go strings are UTF-8 bytes; the model uses `seq<char>`. Every deleted pattern is a single ASCII character, so deleting bytes and deleting characters agree.
- A negative limit makes `make` panic in `buildSession`, so the constructor takes a `nat`. Leave with `usersPtr == 0` would panic on `users[-1]`, so `Leave` requires `usersPtr >= 1`. It also requires the leaving id to be inside the array, which holds for every id `Join` hands out.
- The gate check in the accept loop (chatServer.go:111) and the slot write and increment at the end of `createUser` (chatServer.go:170-171) are fused into one step, `Join`. In Go the increment happens in the spawned goroutine only after the blocking pseudo loop, so several connections can pass the same open gate. With a limit of 2, two clients that connect before either sends a name both get through while `usersPtr == 0`; they then fill slots 0 and 1 and leave `usersPtr == 2`. The next leave then reads `users[2]` out of range, and a third such client would write out of range at line 170. The model does not capture this overshoot: `Valid`, `CapacityRespected` and the in-range reads hold only for the fused step.
- In Go the new user's id is read before the pseudo loop (chatServer.go:149) and the slot is written after it. In the fused model these are the same value.
- Text.FilterMessage: for a pattern longer than one character, only the length bound and the single-pass example are stated. The one-character case, the only one the server uses, is characterised exactly.
