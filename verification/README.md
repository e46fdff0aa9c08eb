# MessageU: a verified model

MessageU is a store-and-forward messenger. A Python server keeps a table of clients and a table of
messages and answers one request per connection; a C++ client registers, lists users, sends messages
and fetches its unread ones. Everything crosses a byte stream in packets of 1024 bytes. This project
models both programs down to the bytes and proves what they achieve together.

`dafny verify dfyconfig.toml` checks everything.

## Layout

| file | content |
|---|---|
| `ByteStrings.dfy` | little-endian integers, fixed-width and NUL-terminated strings |
| `Database.dfy` | the two tables, `DbHandler`, and the order of reissued message ids |
| `Protocol.dfy` | request, reply and record layouts of both programs, with their round trips |
| `Framing.dfy`, `SocketHandler.dfy` | the two packet writers and the packet reader |
| `ServerSpec.dfy`, `Server.dfy` | one connection as a function of tables, bytes and environment; the server object that computes it |
| `ClientSpec.dfy`, `ClientState.dfy`, `ClientHandler.dfy` | what a client makes of a reply, its state, and the client object that computes both and what it sends |
| `Integrity.dfy`, `PostOffice.dfy`, `Refinement.dfy` | table invariants, the abstract FIFO office, and the refinement between them |
| `Runs.dfy`, `Reissue.dfy`, `Delivery.dfy` | the theorems about all runs: boxes, message ids and their order, and what the bytes sent show |
| `Layouts.dfy` | every message byte by byte with its numbers written out, and exactly which bytes the client accepts |
| `Service.dfy`, `Fetched.dfy` | exactly what the server stores and sends for any received bytes and any failing sends; the ids under which messages are fetched |
| `Sending.dfy` | when a client sends, and what, read off its directory |
| `Reassembly.dfy`, `Answers.dfy` | a send request across the stream; what acknowledgements and key replies are worth |
| `Encodings.dfy`, `Profile.dfy` | base16, base64 with line breaks, also cut off; the profile file on a disk that may lose bytes |
| `Joint.dfy`, `Wire.dfy`, `EndToEnd.dfy` | the server with any number of clients and foreign connections; when a program connects and with which bytes; from an acknowledged send to the recipient's program |
| `Limits.dfy` | where the code read literally falls short, with exact conditions; mailboxes that block for ever |
| `Witnesses.dfy` | runs and plays, from empty tables, on which the conditional guarantees fail |

Classes and methods follow the imperative code and are proved equal to functions on values, both in
what they return and in the bytes they send; the theorems are lemmas about these functions, over
every run. A run is any sequence of connections with any received bytes. On each connection the
environment chooses the UUID, whether an insertion reaches the disk, which sends raise, and which
deletions of the delete loop do not commit, because they fail or because the process stops before
them.

The layers compose. In every run the tables refine the abstract office (`Runs.Reachable`), and an
accepted message with content leaves the tables only after it went out, whole, in answer to a fetch
under its recipient's identifier (`Delivery.GoneWasShown`). Whatever sends fail, and whatever fails
for others, the answers to a client's fetches and what is stored for it are what was accepted for it,
once and in order, if and only if its own deletions were not lost (`Delivery.ShownThenPending`). Any
play of the joint system is, on the server's side, a run (`Joint.PlayIsRun`).

The server does not authenticate a fetch, and it deletes when it has written, not when the client has
read. So what went out need not be what the client's program showed: a fetch by another program under
the client's identifier takes its mail, and so does an answer that does not arrive. These are the only
ways. `Joint.JointDelivery` proves delivery exactly-once, in order, to the program itself if and only
if nothing strayed in either way, and `Witnesses.StrayedIsNotDelivered` shows a play for each. From
end to end, a message whose send was acknowledged is stored for the client that bears the recipient's
name, or this client's program has shown it, if nothing strayed (`EndToEnd.AcknowledgedReaches`).

Round trips alone would hold of any format that both programs share, and theorems about accepted
requests of a server that accepts none. So every operation is also pinned down from the outside:
`Layouts.dfy` fixes the bytes, `Service.dfy` says when each request is accepted and what is answered when
it is not, and `Sending.dfy` and `Wire.ConnectsIff` say when a client sends.

## Assumptions

- A `send` transmits everything or raises, and the first `recv` yields the whole first packet.
- SELECT succeeds and returns messages in ascending id order and clients in insertion order. An id is
  one more than the greatest stored id, so that ids are reissued; SQLite's 64-bit limit on ids is not
  reached. The freshness of UUIDs is not assumed: the primary key rejects a repeated one.
- SQLite by default refuses rows above 10^9 bytes. Such an insertion is one that does not reach the
  disk; the theorems hold whichever insertions do, and the runs that block a mailbox store no content
  above 999,000,000 bytes.
- When a send after the first raises, `Server/server.py:85-86` is skipped and the connection stays
  open, so that the client's read blocks. The model lets the client's stream end there; what the
  client then shows or stores is the same, nothing.
- Opening the profile file for appending creates it. Writing to it may lose any number of bytes at the
  end of a line unnoticed, since a `std::fstream` does not throw by default. Whether an existing file
  can be read, and whether the RSA library accepts the key in it, is left to the environment.
- Names are byte strings; the server's UTF-8 decoding is taken as the identity. Little-endian host.
- A `boost::asio::read` of one packet returns fewer bytes only at end of stream.

## Where the code slips

The modules above follow the intended meaning in the first three cases; `Limits.dfy` states what the
code does literally and when the two agree.

- `Server/protocol.py:142-143` subtracts the announced payload size instead of the header size, and
  line 149 takes the length of an integer. Literally, a text message of more than 491 bytes is
  refused (`Slips.AsWrittenReceives`, `Slips.AsWrittenLimit`). The loop also spins when the peer
  closes early; the model ends it.
- `Client/Client.cpp:343` sends the struct, with a pointer in place of the content
  (`Slips.AsWrittenSendsIff`). The pointer has four bytes, since `Client/SocketHandler.cpp:49` compiles
  only where `size_t` has 32 bits.
- `Server/server.py:233` calls `encode` on bytes, so that literally every fetch of a non-empty mailbox
  raises (`Slips.ThrowsIff`, `Slips.AsWrittenFetchIff`).
- `Client/Client.cpp:197` leaves the record header out of its bound check, which is computed in 32
  bits. The model keeps this check and has an outcome for reading behind the payload, which no packed
  mailbox reaches.
- `Server/protocol.py:200-201` refuses an empty list, so that a lone client gets an error; kept
  (`Slips.ListSucceedsIff`).
- `Server/server.py:248-250` ignores the result of a deletion. One failed deletion in the middle makes
  a later fetch repeat a message and breaks the suffix property; kept (`Runs.SuffixesIff`,
  `Runs.DeliversExactlyOnce`, `Witnesses.OneLostDeletionRepeats`).
- A mailbox whose messages outgrow the 32-bit size field, or with an id that does, is never delivered
  again; kept (`Blockage.BlockedForever`, `Witnesses.LargeNotesBlock`).
- Ids are reissued once the greatest was deleted; kept (`Reissue.ReissuesIff`).
- `Client/Client.cpp:304-316` generates a symmetric key and asks for the recipient's public key, but puts
  nothing into the message; kept (`Sending.PlanIsRight`).
- `Client/FileHandler.cpp:29-37` reports success although a write to the opened file failed, since the
  stream does not throw. The client then counts as registered without a profile that loads, and never
  starts again; kept (`Profiles.SavedLoadsIff`, `Joint.RegisteredLoadsIff`,
  `Witnesses.UnnoticedLossEndsProgram`).
- `Client/Client.cpp:466-504` does not restore the public key; kept (`Joint.RestartKeepsFullRowIff`,
  `Witnesses.RestartForgetsKey`).
- `Client/Client.cpp:259` stores a fetched key through a null pointer when the request comes from the
  menu; the reply is modelled, the store is not.

## Model

| member | source | states |
|---|---|---|
| Runs.Reachable | Server/server.py:63-253 | in every reachable state, for any bytes and any failures: client ids and names are distinct, names are NUL-free and under 255 bytes, keys have 160 bytes, every message joins two registered clients; the tables refine the FIFO office; every box is sound |
| Runs.NoLoss | Server/server.py:205-253 | in every run, what is stored for a client is its queue in acceptance order without duplicates, and every accepted message no longer stored is in a reply that its box records as complete; `Delivery.ShownIsReplies` ties this record to the bytes |
| Runs.SuffixesIff | Server/server.py:248-250 | over every run, whatever fails for other clients and whatever sends fail, the queue of a client always was a suffix of what was accepted for it if and only if its own delete loops never skipped |
| Runs.PendingIsSuffix | Server/server.py:248-250 | if the delete loops of one client may stop anywhere but skip nothing, the messages stored for it are a suffix of those accepted for it |
| Runs.DeliversExactlyOnce | Server/server.py:219-251 | over every run with any failures elsewhere, the complete replies to a client followed by its queue are the acceptance order itself if and only if none of its own deletions was lost |
| Runs.MailboxIsolation | Server/server.py:63-86 | a connection changes what is stored for a client only by appending a send to it or by its own answered fetch |
| Runs.StepAdvances | Server/server.py:63-86 | one connection moves tables and office together |
| Runs.AdvanceKeepsGood | Server/server.py:63-86 | every such step keeps integrity, refinement and soundness |
| Runs.PendingIsQueue | Server/db_handler.py:128-133 | rows selected for a client are the queued items of its box, in order |
| Runs.TransitionPending | Server/db_handler.py:85-90 | effect of storing and of the delete loop on every client's list |
| Delivery.ShownThenPending | Client/Client.cpp:163-228 | over every run with any send failures, what the answers to the fetches under an identifier show, then what is stored for it, is what was accepted for it, up to empty messages, if and only if no deletion of a message with content was lost for it |
| Delivery.ShownIsReplies | Server/server.py:243-248 | over every run with any failures, the bytes sent show exactly the messages that the box records as carried, in that order, with repetitions |
| Delivery.GoneWasShown | Server/server.py:248-251 | over every run with any failures, an accepted message with content that is no longer stored is shown by the bytes sent in answer to the fetches under its recipient's identifier |
| Delivery.MailboxDelivered | Server/server.py:228-248 | packing, header, chunked writing, reassembly and parsing give the same records in the same order; a cut reply gives nothing |
| Delivery.FetchShows | Server/server.py:219-253 | whatever sends fail and however much arrives, a fetch shows the whole mailbox when it was handed over and all of the answer arrives, and nothing otherwise |
| Delivery.FetchOutcome | Server/server.py:243-253 | the bytes and the effect of a fetch without failures |
| Refinement.OfficeDecidesAlike | Server/server.py:119-253 | the abstract office, from its own state and from whether a mailbox reply is written, accepts exactly the requests on which the server acts |
| Refinement.TransitionSimulates | Server/db_handler.py:77-138 | the simulation between rows with reissued ids and FIFO boxes is kept by every change of the tables |
| PostOffice.SuffixIff | Server/server.py:249-250 | the queue stays a suffix if and only if the delete loop stops for good at its first lost deletion |
| PostOffice.ExactlyOnceIff | Server/server.py:249-250 | a handover leaves delivery exactly-once if and only if it was so and no deletion is lost, so that nothing restores it |
| PostOffice.HandOverKeepsSound | Server/server.py:248-251 | whatever deletions are lost, no accepted message leaves the queue uncarried |
| Integrity.ServeIsTransition | Server/server.py:63-86 | any received bytes change the tables in one of four ways only |
| Integrity.TransitionKeepsIntact | Server/server.py:119-205 | integrity is kept by the handlers' checks alone |
| Service.RegistrationServed | Server/server.py:119-137 | for any received bytes and any failing sends: a registration is stored exactly when the request is whole, its name has fewer than 255 bytes and no row, the identifier is proper and no row's, and storage takes it; the answer is then `2, 208, 7, 16, 0, 0, 0` and the identifier, and otherwise the error |
| Service.ListServed | Server/server.py:140-167 | the answer to a list request is the blocks of all other rows in table order, or the error when there are none or too many |
| Service.OthersAreTheRest | Server/server.py:149-160 | the others are all rows but the requester's, in the order of the table |
| Service.KeyServed | Server/server.py:170-191 | a key request is answered with identifier and key of the row of the name, or with the error when there is none or the request is short |
| Service.SendServed | Server/server.py:194-216 | for any received bytes: a send is stored, under one more than the greatest key, exactly when its content arrived before the peer closed, its type is 1, 2, 3 or 4, its recipient is registered and storage takes it; the answer is recipient and key, or the error |
| Service.FetchServed | Server/server.py:219-253 | a fetch sends, for the sender's rows in ascending order of keys, sender, key, type, size and content, or is refused when a key or the whole does not fit four bytes; all sent, exactly the rows go whose deletion is not lost, and otherwise nothing changes |
| Service.LetInIsAnswered | Server/server.py:70-82 | every request that is let in is answered with at least one packet, unless the first send raises |
| Service.StrangersGetNothing | Server/server.py:67-86 | without a whole header, a code from 1000 to 1004 and, but for 1000, a sender with a row, a connection changes nothing and gets no byte |
| Service.AnswerSends | Server/server.py:80-114 | what goes out for a reply or a refusal under any failing sends: the filled reply, the error, or the packets before the raising one |
| Fetched.FetchedAreRows | Server/server.py:228-241 | a fetch receives nothing, or exactly its sender's rows with content, each under the id of the row, in ascending order; and something exactly when all was sent and arrives |
| Fetched.ShownUnderAcknowledgedId | Server/server.py:205-216 | over every run, what a fetch shows under an id is what the last connection with this id stored, and any acknowledgement of that connection named this recipient and id |
| Fetched.AcknowledgedIsFetchedUnderItsId | Server/server.py:205-241 | over every run, a stored message with content is received under the id of its acknowledgement by the next fetch of its recipient that receives anything |
| Sending.PlanIsRight | Client/Client.cpp:266-349 | with the name first in the refreshed directory under another identifier than the client's: types 1, 3 and 4, with text for 3 and 4, send exactly the message with its bytes written out; type 2 asks for the key first; for an unknown or own name, an empty text or another type nothing is sent |
| Sending.ListReplacesOrKeeps | Client/Client.cpp:126-148 | a list reply that is not accepted leaves the client as it was; an accepted one replaces the directory only |
| Sending.RegistrationTakesOrKeeps | Client/Client.cpp:102-123 | exactly which replies give the client its identity, and what it then is; any other leaves it as it was |
| Sending.FirstIsFound | Client/Client.cpp:506-516 | a lookup by name finds the first entry of the name |
| Sending.FirstIdIsFound | Client/Client.cpp:517-522 | a lookup by identifier finds the first entry of the identifier |
| Wire.ConnectsIff | Client/Client.cpp:33-65 | a program connects if and only if it may: newcomers register under names of 1 to 254 proper bytes, registered ones do everything else, and send to the first entry of a name that is not their own |
| Wire.ConnectionIs | Client/Protocol.h:69-109 | the connection of every action carries the first packet of its request, byte by byte |
| Wire.ActIs | Client/Client.cpp:76-228 | an action changes the tables by its connection only, and no program but the acting one |
| Layouts.IntegerLayout | Server/protocol.py:55 | integers are sent least significant byte first |
| Layouts.RegistrationLayout | Client/Protocol.h:81-88 | bytes of a registration |
| Layouts.BareLayout | Client/Protocol.h:69-77 | bytes of a list request and of a fetch |
| Layouts.KeyRequestLayout | Client/Protocol.h:92-97 | bytes of a key request |
| Layouts.SendRequestLayout | Client/Protocol.h:100-109 | bytes of a send |
| Layouts.RequestOnWire | Client/SocketHandler.cpp:40-63 | what leaves the client: the request and zeros up to whole packets, or the packets before the raising one |
| Layouts.RegistrationAcceptedIff | Client/Client.cpp:416-433 | of any bytes, exactly which are accepted as an answer to a registration |
| Layouts.KeyAcceptedIff | Client/Client.cpp:416-433 | of any bytes, exactly which are accepted as a key |
| Layouts.AckAcceptedIff | Client/Client.cpp:416-433 | of any bytes, exactly which are accepted as an acknowledgement |
| Layouts.ListReceivedIff | Client/Client.cpp:126-148 | of any bytes, exactly which replace the directory, and by what |
| Layouts.UnreadReceivedIff | Client/Client.cpp:163-224 | of any bytes, exactly which show messages: whole records of sender, id, type, size and content; and that those with content are shown |
| Layouts.ListLayout | Server/protocol.py:245-256 | bytes of the blocks of a list |
| Layouts.MailboxLayout | Server/protocol.py:268-273 | bytes of the records of a mailbox |
| MessageTable.UnreadSpec | Server/db_handler.py:128-133 | a select returns exactly the recipient's rows, each once, ascending |
| MessageTable.UnreadAfterInsert | Server/db_handler.py:85-90 | a new key is unused and is appended to its recipient's list only |
| MessageTable.UnreadAfterDelete | Server/server.py:249-250 | the delete loop removes the committed rows of the owner and nothing of anyone else |
| MessageTable.DeletesExactlySelected | Server/server.py:240-250 | deleting the collected ids removes exactly the rows selected and packed |
| MessageTable.ReissueIff | Server/db_handler.py:22-30 | after one removal of rows the next id is not above the greatest id stored before exactly when the row with that id was removed |
| Reissue.IssuedIsInterval | Server/db_handler.py:85-90 | the ids given over any run are exactly those from 1 to the greatest given, and every stored message has one of them |
| Reissue.ReissuesIff | Server/db_handler.py:22-30 | after any run the next id was given before if and only if some id was given and the greatest ever given is no longer stored |
| Reissue.StoredRowIsLatest | Server/db_handler.py:85-90 | after any run every stored row is the one that the last connection with its id stored |
| Reissue.IdOrderIsAcceptanceOrder | Server/db_handler.py:85-90 | over any run and over the whole table, although ids are reissued, of two stored messages the one with the smaller id was accepted earlier, and conversely |
| Database.FirstNamed | Server/db_handler.py:104-108 | finds a row of the name exactly when there is one |
| Database.DbHandler.InsertClient | Server/db_handler.py:77-82 | stores the row if sizes, primary key and storage allow it, and changes nothing otherwise |
| Database.DbHandler.InsertMessage | Server/db_handler.py:85-90 | stores under the next key, or reports failure and changes nothing |
| Database.DbHandler.CheckClientExists | Server/db_handler.py:98-101 | searches ids, or names when the id is empty |
| Database.DbHandler.SelectClient | Server/db_handler.py:120-125 | first row of a name |
| Database.DbHandler.SelectUnreadMessages | Server/db_handler.py:128-133 | keys of the recipient's rows, ascending |
| Database.DbHandler.DeleteMsg | Server/db_handler.py:136-138 | removes one row if the commit succeeds |
| Servers.Server.Read | Server/server.py:63-86 | one connection computes the specified tables and bytes |
| Servers.Server.Write | Server/server.py:89-114 | pads a short reply, cuts a long one into unpadded chunks, and tells first-send failure from a later exception |
| Servers.Server.HandleRegisterRequest | Server/server.py:119-137 | registration step |
| Servers.Server.HandleGetClientsRequest | Server/server.py:140-167 | list step |
| Servers.Server.PackOthers | Server/server.py:149-160 | payload loop: all clients but the requester |
| Servers.Server.HandleGetPublicKeyRequest | Server/server.py:170-191 | key step |
| Servers.Server.HandleSendMessageRequest | Server/server.py:194-216 | send step |
| Servers.Server.HandleGetUnreadMessagesRequest | Server/server.py:219-253 | fetch step |
| Servers.Server.PackMessages | Server/server.py:228-241 | packs every selected row in order or fails |
| Servers.Server.DeleteMessages | Server/server.py:249-250 | one commit per collected key |
| Servers.UnpackSendRequest | Server/protocol.py:132-153 | receiving loop over the pieces that `recv` returns |
| Framing.Transmit | Server/server.py:89-114 | what reaches the client is a part of the framed reply, and all of it exactly on success |
| Framing.PadToPackets | Client/SocketHandler.cpp:48-58 | a request is padded to whole packets |
| Sockets.SocketHandler.Write | Client/SocketHandler.cpp:40-63 | sends the padded request; a raising packet ends it with the packets before it on the wire |
| Sockets.SocketHandler.Read | Client/SocketHandler.cpp:68-97 | succeeds exactly when enough bytes remain, takes the first of them, consumes whole packets or what is left |
| Sockets.SocketHandler.SocketWrapper | Client/SocketHandler.cpp:174-189 | succeeds exactly when the request is delivered and the reply is long enough |
| Reassembly.SendReassembled | Server/protocol.py:132-153 | for every content and every splitting of the later bytes, the request is recovered exactly when its content has arrived |
| Reassembly.SendAccepted | Server/server.py:194-208 | a proper send is stored under the next key exactly when it arrived and storage took it |
| Protocol.RequestHeaderRoundTrip | Client/Protocol.h:69-77 | the server reads the header that the client packed |
| Protocol.RegistrationRoundTrip | Server/protocol.py:69-80 | name and key are recovered whatever memory follows the name |
| Protocol.SendPrefixRoundTrip | Client/Protocol.h:100-109 | recipient, type and size are recovered |
| Protocol.ResponseHeaderRoundTrip | Server/protocol.py:167-171 | the client reads the header that the server packed |
| Protocol.EntriesRoundTrip | Client/Client.cpp:133-148 | parsing concatenated 271-byte blocks returns the packed clients, each once and in order |
| Protocol.RecordsRoundTrip | Client/Client.cpp:176-224 | parsing concatenated packed messages stays in bounds and returns them in order, minus empty ones |
| ByteStrings.ValueOfLittleEndian | Server/protocol.py:55 | reading a packed integer returns it |
| ByteStrings.UntilNulOfTerminated | Server/protocol.py:75 | a NUL-free name is read back up to its NUL |
| ClientSpec.FramingRoundTrip | Client/Client.cpp:365-413 | for every payload length, from any part of a framed reply the client takes nothing or exactly the payload |
| ClientSpec.WrongCodeRefused | Client/Client.cpp:416-417 | a reply is refused under every code but its own |
| ClientSpec.FixedReplyRoundTrip | Client/Client.cpp:416-433 | a fixed-size reply is accepted, with identical payload, exactly when its meaningful part arrives |
| ClientSpec.RepliesCompatible | Server/protocol.py:174-240 | the three fixed-size replies keep their fields under their own code and pass under no other; an error never passes |
| Clients.ClientHandler.HandelUnkownPayloadRequest | Client/Client.cpp:365-413 | sends the given request padded to packets and rebuilds the payload for every stream, or fails when the stream is short |
| Clients.ClientHandler.ReadRest | Client/Client.cpp:395-409 | chunk loop over further packets |
| Clients.ClientHandler.HandleClientsListRequest | Client/Client.cpp:126-160 | sends a list header under its id, replaces the directory on success and keeps it on failure |
| Clients.ClientHandler.HandleGetUnreadMessages | Client/Client.cpp:163-228 | sends a fetch header under its id and shows the parsed records of a reply of any size |
| Clients.ClientHandler.ParsePayload | Client/Client.cpp:189-224 | pointer and 32-bit counter move in step; the result is the parse of the payload, with the wrapping bound check |
| Clients.ClientHandler.HandleRegistrationRequest | Client/Client.cpp:76-123 | sends name, whatever lies behind it, and key; takes the new identity after an accepted reply; registered exactly when the profile file could be opened three times, whatever bytes then reached the disk |
| Clients.ClientHandler.RequestRegistration | Client/Client.cpp:102-110 | sends the given request and takes the identifier of an accepted reply |
| Clients.ClientHandler.HandleGetPublicKeyRequest | Client/Client.cpp:231-256 | sends the requested name and takes identifier and key of an accepted reply |
| Clients.ClientHandler.HandleSendMsgRequest | Client/Client.cpp:266-360 | refreshes the directory, which then decides as in `Sending.PlanIsRight`; sends nothing to an unknown name, to itself, for an empty text or an unknown type; asks for the key first before a symmetric key and stops without it; otherwise sends type and content to the identifier found under the name, and succeeds when acknowledged |
| Clients.ClientHandler.GetClient | Client/Client.cpp:506-526 | first match by name or by id |
| Clients.ClientHandler.Start | Client/Client.cpp:10-14 | loads an existing profile file, even an empty one, or fails |
| Joint.JointInvariant | Client/Client.cpp:76-123 | over all interleavings with lost or cut replies, saves that stop or lose bytes, and restarts: a registered client is one server row; what is on its disk loads to what it holds if and only if enough bytes got there, and otherwise to nothing or the same identity with a part of the key; no two programs share a name or id, not even after later restarts; every cached entry names one row |
| Joint.RegistrationReply | Server/server.py:119-137 | a registration that a client believes was stored by that connection under a fresh name and id |
| Joint.GateHolds | Client/Client.cpp:33-36 | only registered clients send anything but a registration, and the server admits them |
| Joint.PlayIsRun | Server/server.py:63-86 | the joint system's server follows one of the runs of the mailbox theorems |
| Joint.JointDelivery | Server/server.py:219-251 | over every play with any send failures, cut replies and restarts: with no own deletion lost, what the client's program has shown and what is stored are what was accepted, once and in order, if and only if no mailbox with content went to a foreign fetch or to an own fetch whose answer did not arrive whole; and with nothing strayed, if and only if no own deletion was lost |
| Joint.GoneWasShownToProgram | Client/Client.cpp:163-228 | in every play in which nothing strayed, with any failures, the program has shown every message with content that was accepted and is no longer stored |
| EndToEnd.AcknowledgedReaches | Server/server.py:194-253 | over every play with any failures, a message with content whose send by a client was acknowledged is stored for the client registered under the recipient's name at the end, or has been shown by its program, if nothing strayed under its identifier |
| EndToEnd.AcceptedIsStoredOrShown | Server/server.py:219-253 | what was accepted for a registered client under whose identifier nothing strayed is stored or has been shown by its program |
| Wire.ActionOnWire | Client/SocketHandler.cpp:174-189 | as soon as the first packet of an action leaves, even when the rest does not, its connection carries the beginning of what the client object puts on the wire |
| Joint.ListDelivered | Server/server.py:140-167 | a list reply gives exactly the other clients or nothing, and when it succeeds |
| Joint.LookupsAfterList | Client/Client.cpp:506-526 | after a successful list, lookups by name and id find exactly the other registered clients |
| Joint.CachedEntryIsOneRow | Client/Client.cpp:140-148 | in all later states a cached pair names the same single row |
| Joint.SendReachesNamedRow | Client/Client.cpp:266-280 | a send by name, even from an old directory, is stored for the row of that name |
| Joint.RegisteredLoadsIff | Client/Client.cpp:115-122 | a program becomes registered if and only if it accepts the reply and its file can be opened three times, and its profile then loads if and only if enough of the three lines reached the disk |
| Joint.RestartRestores | Client/Client.cpp:466-504 | a restart gives a registered client its identity and private key back if and only if enough of its profile reached the disk and the file is accepted; if it is registered at all, name and identifier are the same |
| Joint.RestartKeepsFullRowIff | Client/Client.cpp:466-504 | after a restart a client is a full row, public key included, exactly when its profile loads and the row's key is all zeros |
| Answers.AcknowledgedIsStored | Server/server.py:205-216 | an acknowledged message is stored for that recipient under that id; without failures the converse holds up to ids of four bytes |
| Answers.RegistrationAnswered | Server/server.py:119-137 | without failures a registration is confirmed exactly when name and identifier are free and the row is stored |
| Answers.KeyAnswered | Server/server.py:170-191 | a received key is the key of the row with the requested name |
| Encodings.LettersAreTheAlphabet | Client/Utils.cpp:5-9 | the 64 letters in the order of section 4 of RFC 4648, written and read |
| Encodings.OthersAreSkipped | Client/Utils.cpp:12-16 | every other character is skipped in decoding |
| Encodings.GroupLayout | Client/Utils.cpp:5-9 | three bytes are four letters, most significant bits first; one or two are filled with zero bits and `=` |
| Encodings.HexLayout | Client/Utils.cpp:23-34 | two upper-case digits a byte, the more significant first |
| Encodings.HexReadsBothCases | Client/Utils.cpp:40-49 | digits are read in either case |
| Encodings.KeyTextLayout | Client/Utils.cpp:5-9 | lines of 72 letters, and two newlines at the end |
| Encodings.WrappedRoundTrip | Client/Utils.cpp:5-16 | decoding a wrapped base64 text line by line returns the bytes, for every line width divisible by four |
| Encodings.Base64Splits | Client/Utils.cpp:5-9 | whole groups encode independently |
| Encodings.Base64RoundTrip | Client/Utils.cpp:5-16 | section 4 of RFC 4648 decodes its own encoding |
| Encodings.HexRoundTrip | Client/Utils.cpp:23-49 | section 8 of RFC 4648 decodes its own encoding |
| Profiles.ProfileRoundTrip | Client/Client.cpp:453-504 | a valid profile is restored if and only if its name has no newline and its key is not empty |
| Profiles.SavedNameLoadsIff | Client/Client.cpp:436-504 | a profile with a 16-byte identifier and a key is restored if and only if its name has 1 to 254 bytes that are digits, letters, or white space other than newlines |
| Profiles.NameAcceptedIff | Client/Client.cpp:436-450 | the client's check lets through exactly these names, and newlines in them |
| Profiles.SavedLayout | Client/Client.cpp:453-463 | name, identifier and key, each with its newline |
| Profiles.SavedLoadsIff | Client/Client.cpp:453-504 | with any number of bytes missing at the end of each of the three lines, the file loads to the saved profile if and only if name and identifier are whole and of the key at most two newlines and the padding are missing; otherwise to nothing or the same identity with the beginning of the key |
| Encodings.KeyTextCut | Client/Utils.cpp:12-16 | wrapped base64 that is cut off anywhere decodes to the beginning of the key, and to all of it exactly when at most two newlines and the padding are missing |
| Profiles.PartialNeverLoads | Client/Client.cpp:453-463 | a profile whose file was not opened three times never loads, whatever bytes reached the disk |
| Profiles.FileHandler.Write | Client/FileHandler.cpp:21-38 | fails only when the file cannot be opened; otherwise reports success and appends the part of the line that reaches the disk |
| Profiles.FileHandler.ReadLine | Client/FileHandler.cpp:41-56 | takes the next line from the cursor |
| Profiles.FileHandler.SetClientInfo | Client/Client.cpp:453-463 | opens the file for up to three lines, appends what reaches the disk of each, and succeeds when all three could be opened |
| Profiles.FileHandler.GetClientInfo | Client/Client.cpp:466-504 | computes what the file's text says |
| Slips.AsWrittenReceives | Server/protocol.py:132-153 | the literal receiver recovers a request if and only if its content is within 980 bytes and, with the announced size, within 1003 |
| Slips.AsWrittenLimit | Server/protocol.py:142-149 | for the client's text messages: if and only if at most 491 bytes |
| Slips.AsWrittenSendsIff | Client/Client.cpp:343 | the literal sender gets content across, wherever it lies, if and only if it is empty |
| Slips.ThrowsIff | Server/server.py:229-241 | the literal row loop raises if and only if it comes to a row whose content is returned as bytes |
| Slips.PackRowsAsWritten | Server/server.py:229-241 | the literal row loop as a method |
| Slips.AsWrittenFetchIff | Server/server.py:233 | with contents returned as `str` the literal fetch does what is intended; with `bytes`, as the server stores them, if and only if the mailbox is empty |
| Slips.ListSucceedsIff | Server/protocol.py:196-205 | a list request succeeds if and only if there are other clients, few enough for the size field |
| Blockage.BlockedForever | Server/protocol.py:167-171 | once a mailbox is blocked, no connection after any continuation hands it over or shows any of it, and it only grows |
| Blockage.PackedIff | Server/protocol.py:268-273 | in every state with integrity a mailbox is packed if and only if all its ids fit four bytes and the sum of 25 plus the content size over its messages fits the size field |
| Witnesses.OneLostDeletionRepeats | Server/server.py:249-250 | from empty tables, one lost deletion leaves no suffix and makes the next fetch show a message a second time |
| Witnesses.LargeNotesBlock | Server/protocol.py:167-171 | from empty tables, any list of messages that are received packet by packet, each small enough for SQLite, and that together outgrow the size field, blocks the mailbox for ever |
| Witnesses.BlockedIsReachable | Server/protocol.py:167-171 | such lists exist: five messages of 999,000,000 bytes block the mailbox of any identity |
| Witnesses.RestartForgetsKey | Client/Client.cpp:466-504 | a program that registers with a key other than zeros and is restarted no longer holds the key of its row |
| Witnesses.UnnoticedLossEndsProgram | Client/FileHandler.cpp:29-37 | a program whose identifier does not reach the disk whole is registered, but after a restart it never runs again in any continuation, while the server keeps its row |
| Witnesses.StrayedIsNotDelivered | Server/server.py:63-86 | without any failed send or deletion, a foreign fetch under a client's id, or an answer that does not arrive, leaves an accepted message neither stored nor shown |

## Left out

- Encryption, key generation and the symmetric-key exchange: message content and keys are opaque bytes.
- Console menus, logging and start-up: only the gate that asks for registration first is kept.
- Socket set-up, resolver, selectors and the accept loop: one connection is one step.
- SQLite: a table abstraction with the id rule, ascending selection and one commit per delete. A SELECT
  that fails is not modelled.
- `swapBytes` and `ReverseBytes`: inactive on little-endian hosts.
- Last-seen timestamps, `server.info` and `port.info`.
- UTF-8: a name that does not decode is refused by the code, and its length is counted in characters;
  the model counts bytes.
- Malformed replies: the client's parsers have outcomes for them, but the theorems are about replies
  of the server.
- Partial packets on a failing client write: a packet is written whole or raises.
- Clients.ClientHandler.Start: where the source ends the program on a profile that does not load, the
  method returns false.
- Clients.ClientHandler.HandleClientsListRequest: a payload that is not a whole number of blocks, which
  no server reply has, makes the source read behind it; the method fails instead.
- Clients.ClientHandler.HandleSendMsgRequest: sends the intended bytes; what encryption makes of a text
  is given.
