# bitmq: the broker's durable core, modelled and proved

bitmq is a message broker in C++. This project models the parts of its server that keep promises over
time: the log-structured message file of a queue and its recovery, the topic router, the virtual host with
its metadata tables and restart, the thread pool, the publish and consume path, the consumer rotation, the
args codec, and the helpers they stand on. Every file is Dafny 4.11; `dafny verify dfyconfig.toml` checks
all of it.

## How it is organised

Code that changes things in place is modelled by classes and loops over the same fields; what those methods
compute is a function of plain values, and the promises are proved about that function over every run.

- `Basics`, `StrHelper`, `Files`, `Uuid`: octets, `split`, files as byte strings, ids.
- `PayloadCodec`: the protobuf record body, written into a buffer byte by byte, its size, and a parser.
- `RecordLog`, `MessageMapper`: the 8-byte-length-prefixed log, in-place invalidation, load and compaction.
- `WireFormat`: the same file told in field numbers, bytes and digits, apart from the names writer and reader share.
- `QueueModel`, `QueueRuns`, `TakenIds`: one queue as a state machine, refined to a simple queue without any file;
  what holds over runs with restarts, compactions and clears; and what becomes of a message whose id is taken.
- `StoreIndex`, `MessageStore`, `MessageManager`: the store as the code has it, a list and two maps that
  share message objects, two counters, and the bytes on disk; then one such store per queue name. A ghost
  view ties each method to one step of the queue model. `MessageManager` proves that a call on one queue
  leaves the objects and the files of every other alone.
- `Router`: the dynamic-programming table against the wildcard rule of section 3.1.3.3 of AMQP 0-9-1.
- `ArgsCodec`: percent-encoded key and value tokens (sections 2.1 and 2.3 of RFC 3986) under `&` and `=`.
- `HostModel`, `HostSafety`, `HostRestart`, `HostGaps`: the virtual host as a state machine with its tables;
  safety of every operation; restart as a projection; where it falls short, and exactly when.
- `HostEffects`, `MessageEffects`: for each operation of the host, what it changes, what it leaves alone, and what
  a restart right after it brings back that one without it would not.
- `ClientView`: which queues a publish reaches for each type of exchange, what they receive, what a consumer is sent.
- `Database`, `MetadataManagers`, `BindingManager`, `VirtualHost`: the managers as the code has them. Each
  `VirtualHost` method takes exactly the step of the host model, and its constructor is restart.
- `Consumers`, `Channel`: round robin, the publish fan-out, the consume task.
- `ThreadPool`, `Pipeline`, `PublishPath`: interleaving models of the pool's condition-variable protocol, of the
  publish-pop-deliver-ack path of one queue, and of the two together. A region under a mutex is one step.

Functions like `NewPayload`, `Routes`, `Serialize` and `HostStep` say what the methods compute. What they are in turn is
stated apart from them, with the source's own numerals and as fields, effects and frames, in `WireFormat`,
`HostEffects`, `MessageEffects` and `ClientView`, and beside the functions themselves.

## What the proofs found

Where the code does not do what one would hope, an input is shown and the exact condition is proved.

- A routing key with a word equal to `#` is read by the table as a literal match with a binding word `#`.
  The table follows the rule for every binding key exactly when the routing key has no such word
  (`Router.TopicRuleExactly`, with `Router.HashWordMisroutes` for each such key). The legality checks would
  exclude it, but the server never calls them.
- A durable exchange whose type is outside 0..3 is written to the table and skipped at restart, so its
  durable bindings dangle (`HostGaps.DanglingBinding` is such a run; `HostRestart.RestartDanglesExactly`,
  `HostRestart.RestartKeepsExactly` say exactly when).
- The row of such an exchange stays in the table, where its primary key goes on taking the name: after the restart
  every durable declare of that name is refused, of a known type as well, and no delete frees it, for deletes look
  at the names in memory (`HostGaps.BlockedName` is such a run).
- `clear` drops the tables and nothing creates them again before a restart. Over any run the tables are gone
  exactly when a clear came with no restart since (`HostGaps.TablesOverRuns`). After any run at all, whatever was
  declared or published, a new durable queue or binding is accepted exactly when the database takes the row and no
  such clear came, and a new durable exchange exactly when, besides, no skipped row blocks its name
  (`HostGaps.DurableAcceptedExactly`). What is declared or published after the clear is gone at the restart
  (`HostGaps.NothingDurableAfterClear`).
- A message handle can be left without a queue. A step does that exactly when it is a durable declare of a new
  queue whose row is refused, or a clear while a handle is open (`HostGaps.HandlesOwnedExactly`, with
  `HostGaps.OrphanHandle` as an input).
- Messages brought back by recovery get no consume task: when everything has come to rest, exactly as many
  messages are getable as recovery brought back (`Pipeline.TasksMatchMessages`,
  `PublishPath.RestLeavesBacklog`), and those a compaction has put back without a task, which it never does while
  the ids published are free.
- Args lose an empty key on the way through the table and nothing else; they come back whole exactly when
  there is none (`ArgsCodec.ArgsRoundTrip`).
- The rotation is fair until its 64-bit number wraps; it is fair for ever exactly when the number of
  consumers divides 2^64 (`Consumers.FairForEverExactly`, with `Consumers.WrapUnfair`).
- An insert breaks the store's invariant exactly when a live message of the queue has its id, or its record is
  too large for protobuf or lies past the 32-bit offsets (`MessageStore.QueueMessage.Insert`).
  - With a taken id the later message falls out of memory once both are taken, and no ack reaches it. If both are
    durable and a compaction is due at the ack of the earlier one, it is put back and handed out a second time. A
    durable one is back after a restart in any case, a transient one never (`TakenIds.TakenIdStrands`). Ids made by
    the server never collide within a process (`Uuid.IdsDistinct`).
  - Past the 32-bit offsets the ack writes at the offset modulo 2^32, into an earlier record, and leaves its own
    record live for the next load (`StoreIndex.FarRecordStays`).
- Recovery does not notice damage: a file with a record cut short is left as it is, its readable messages served
  from memory. The store is in its invariant afterwards exactly when no record was cut short and what was read is
  what a store keeps (`MessageStore.QueueMessage.Recovery`).

Where tests and code differ the code is followed: mqtest/mq_queuetest.cpp:42 expects a trailing `&` that
`getArgs` does not write.

## Model

| member | source | states |
|---|---|---|
| StrHelper.Split | mqcommon/mq_helper.hpp:63-91 | appends to the result, in order, exactly the non-empty pieces left by removing the separator leftmost first; returns the result's size; an empty separator keeps a non-empty string whole |
| StrHelper.Find | mqcommon/mq_helper.hpp:76 | the first occurrence at or after an index: an occurrence, and none before it |
| StrHelper.PiecesRebuild | mqcommon/mq_helper.hpp:74-89 | joining the pieces with the separator gives the string back |
| StrHelper.PiecesAreFree | mqcommon/mq_helper.hpp:74-89 | no piece contains the separator |
| StrHelper.WordsAccountForString | mqcommon/mq_helper.hpp:63-91 | words are non-empty and separator-free, and their lengths plus the consumed separators are the length of the string |
| StrHelper.WordsOfJoin | mqcommon/mq_helper.hpp:63-91 | splitting a one-character-separated join of separator-free non-empty words gives the words back |
| Uuid.UuidHelper.Uuid | mqcommon/mq_helper.hpp:96-119 | the id is the formatted random bytes and sequence number; the counter moves on by one modulo 2^64 |
| Uuid.IdsDistinct | mqcommon/mq_helper.hpp:104-118 | ids have 36 characters, and two sequence numbers below 2^64 never give the same id, whatever the random bytes |
| Uuid.IdLayout | mqcommon/mq_helper.hpp:97-119 | the id is 36 characters: the random bytes, then the number's bytes from the most significant, two digits each, with dashes at 8, 13, 18 and 23 |
| Uuid.HexIs | mqcommon/mq_helper.hpp:104 | two digits a byte, lower case, the high one first |
| Files.FileSystem.Read | mqcommon/mq_helper.hpp:141-163 | succeeds exactly when the file is there and the whole range is in it, or nothing is asked for; reads that range |
| Files.FileSystem.Write | mqcommon/mq_helper.hpp:171-205 | overwrites at the offset, extends past the end, creates an absent file, leaves the bytes when there is nothing to write, touches no other file |
| WireFormat.OverwriteBytes | mqcommon/mq_helper.hpp:171-205 | byte by byte: what was written inside the range, the old byte or a zero outside |
| PayloadCodec.InternalSerialize | mqcommon/mq_msg.pb.cc:694-734 | writes the payload's wire form, laid out as WireFormat.PayloadLayout says, at the pointer, leaves the rest of the buffer, and advances by its length |
| PayloadCodec.WriteProperties | mqcommon/mq_msg.pb.cc:394-433 | the same for the properties: empty strings and a zero delivery mode are not written |
| PayloadCodec.ByteSizeLong | mqcommon/mq_msg.pb.cc:740-773 | the accumulated size is the number of bytes the serializer writes |
| PayloadCodec.PropertiesByteSize | mqcommon/mq_msg.pb.cc:439-469 | the same for the properties |
| PayloadCodec.PropertiesRoundTrip | mqcommon/mq_msg.pb.cc:394-433 | reading the serialized properties field by field gives them back, negative and unknown enum values included |
| PayloadCodec.ParseSerialize | mqcommon/mq_msg.pb.cc:694-734 | parsing a serialized payload gives it back |
| PayloadCodec.SizeIgnoresValid | mqcommon/mq_msg.pb.cc:740-773 | replacing the validity mark by one of the same length keeps the serialized size |
| WireFormat.PayloadLayout | mqcommon/mq_msg.pb.cc:700-726 | split into fields, in order and with defaults left out, a record is field 1 (wire type 2) with the properties, field 2 with the body and field 3 with the validity mark |
| WireFormat.PropertiesLayout | mqcommon/mq_msg.pb.cc:400-425 | the properties are field 1 the id, field 2 (wire type 0) the mode, sign-extended to 64 bits, and field 3 the routing key |
| WireFormat.PayloadBytes | mqcommon/mq_msg.pb.cc:700-726 | the same as bytes: tags 10, 18 and 26, each followed by the length and the content |
| WireFormat.PropertiesBytes | mqcommon/mq_msg.pb.cc:400-425 | the same for the properties: tags 10, 16 and 26 |
| WireFormat.VarintIsBase128 | mqcommon/mq_msg.pb.cc:694-734 | lengths and numbers are base 128, least significant first, every byte but the last marked, none superfluous |
| WireFormat.RecordEndsInMark | mqserver/mq_message.hpp:214-217 | the record of a durable message ends in the bytes 26, 1, 49; its dead form is the same bytes but the last, which is 48 |
| RecordLog.LittleEndianRoundTrip | mqserver/mq_message.hpp:119-127 | the 8-byte length prefix read back is the length written |
| WireFormat.FrameLayout | mqserver/mq_message.hpp:147-166 | byte i of the prefix is bits 8 i to 8 i + 7 of the body's length, for i below 8, and the body follows |
| WireFormat.ImageLayout | mqserver/mq_message.hpp:147-170 | a file is its records one after the other; appending changes no byte before the end |
| RecordLog.ScanImage | mqserver/mq_message.hpp:111-145 | scanning the image of a log of storable payloads succeeds and yields its live records in order |
| WireFormat.TornRecord | mqserver/mq_message.hpp:111-145 | for every log and every record cut anywhere after its first byte: load reads the whole records before it and fails |
| RecordLog.ScanIsLive | mqserver/mq_message.hpp:136-142 | whatever the file holds, no payload load returns is marked dead |
| RecordLog.StartFrames | mqserver/mq_message.hpp:147-170 | each record's bytes sit at its start behind their own length prefix |
| RecordLog.OverwriteRecord | mqserver/mq_message.hpp:56-73 | writing a record of the same size over record i gives the image of the log with record i replaced: every prefix and every other record keeps its bytes |
| RecordLog.StartAfterOverwrite | mqserver/mq_message.hpp:56-73 | such a write moves no record |
| RecordLog.CompactionPreservesMeaning | mqserver/mq_message.hpp:74-108 | compaction loads to the same messages in the same order, leaves no dead record, and is idempotent |
| MessageMapper.FilesApart | mqserver/mq_message.hpp:22-23 | two queues never share a file, and no data file is a temporary file |
| MessageMapper.FileNames | mqserver/mq_message.hpp:19-24 | the files of a queue are its name with .mqd, and that with .tmp |
| MessageMapper.Limits | mqserver/mq_message.hpp:167-168 | offsets and lengths are kept modulo 2^32; a payload over 2^31 - 1 bytes is stored empty |
| MessageMapper.MessageMapper.constructor | mqserver/mq_message.hpp:19-43 | creates the data file only when it is absent |
| MessageMapper.MessageMapper.RemoveMsgFile | mqserver/mq_message.hpp:45-49 | removes both files and no other |
| MessageMapper.MessageMapper.InsertInto | mqserver/mq_message.hpp:147-170 | appends prefix and body, an empty body when protobuf refuses the payload, and gives the message its 32-bit offset and length |
| MessageMapper.MessageMapper.Remove | mqserver/mq_message.hpp:56-73 | marks the payload dead; writes it in place when its size equals the recorded length, and otherwise writes nothing |
| MessageMapper.MessageMapper.Load | mqserver/mq_message.hpp:111-145 | for any file contents, the result and the fresh messages are what the scan says, a truncated record failing |
| MessageMapper.MessageMapper.Gc | mqserver/mq_message.hpp:74-108 | for any file: the fresh messages are what load read; a failed load changes nothing; otherwise the data file becomes the image of their records, an unserializable one stored empty, the temporary file is gone, and the messages carry their new places; without a data file only the temporary one is written |
| QueueModel.StepKeeps | mqserver/mq_message.hpp:183-322 | every legal operation, restart and clear included, keeps the queue well formed: healthy log, live ids distinct, the live records exactly the durable messages getable or waiting |
| QueueModel.StepRefines | mqserver/mq_message.hpp:183-322 | the queue with log, marks and compaction steps like a simple queue that just lists getable, waiting and kept messages |
| QueueModel.LiveOfKill | mqserver/mq_message.hpp:255-261 | invalidating an id removes exactly that message from the live records and no record from the file |
| QueueModel.RecoveryWellFormed | mqserver/mq_message.hpp:183-194 | recovery of any healthy log is a well-formed queue |
| QueueModel.NewPayloadCarries | mqserver/mq_message.hpp:195-217 | the message carries the given body, the publisher's id and routing key or the server's id and none, and the publisher's mode if the queue is durable; it is durable exactly when the queue is and the publisher asked for mode 2 or gave no properties, and then its mark is "1" |
| QueueRuns.RunRefines | mqserver/mq_message.hpp:177-331 | over every legal run of any length, with any restarts, acks, compactions and clears, the queue is the simple queue |
| QueueRuns.KeptLedger | mqserver/mq_message.hpp:195-294 | over every legal run, ids used again, restarts and clears included: what the file keeps is what was kept, less what was durably acked, then each durable insert that is neither acked nor cleared later, in order |
| QueueRuns.RestartBringsBack | mqserver/mq_message.hpp:183-194 | reopening after any legal run yields exactly those, the ones waiting for an ack included, nothing waiting and no dead record |
| QueueRuns.FirstInFirstOut | mqserver/mq_message.hpp:228-244 | within one process the messages handed out followed by those still getable are the recovered ones followed by the inserted ones |
| QueueRuns.HandedOut | mqserver/mq_message.hpp:232-264 | over any legal run of one process the messages handed out, with those waiting before, are the ones waiting now and the ones acked, each as often as it was |
| QueueRuns.ExactlyOnePlace | mqserver/mq_message.hpp:195-264 | conservation over any legal run of one process, acked ids used again included: the messages there and accepted are, counted with repetitions, the getable, the waiting and the acked ones |
| QueueRuns.HandedOutIds | mqserver/mq_message.hpp:232-264 | when no id is used twice every id handed out is waiting or acked, never both |
| QueueRuns.OnePlaceById | mqserver/mq_message.hpp:195-264 | when no id is used twice each accepted id is in exactly one place and handed out at most once |
| TakenIds.TakenIdStrands | mqserver/mq_message.hpp:214-322 | a message, durable or not, inserted under the id of a live one, both taken before an ack: the ack reaches the earlier; the later is on the list again, to be handed out twice, exactly when both are durable and a compaction is due, and otherwise in no list and beyond any ack; it is back after a restart exactly when it is durable |
| TakenIds.AckStepIsStep | mqserver/mq_message.hpp:308-317 | while a store is in its invariant its index knows every kept message, so compaction puts nothing back and the ack is the model's ack |
| TakenIds.FrontAll | mqserver/mq_message.hpp:232-244 | when every message is taken, the one waiting under an id is the one that waited before, or else the first on the list with that id |
| QueueRuns.GcDueExactly | mqserver/mq_message.hpp:296-303 | the integer test fires exactly when total > 2000 and 2 * valid < total |
| QueueRuns.CompactionStep | mqserver/mq_message.hpp:296-322 | after every step dead records are at most the larger of 2000 and the live ones, and an operation's copies are paid for by dead records |
| QueueRuns.CompactsExactly | mqserver/mq_message.hpp:246-264 | the ack of a durable message compacts, leaving no dead record, exactly when more than 2000 records are in the file and fewer than half live; otherwise it leaves one more dead record |
| QueueRuns.CompactionCost | mqserver/mq_message.hpp:246-322 | over every run the records copied by automatic compaction plus the current dead ones never exceed the durable acks plus the dead records at the start |
| StoreIndex.IndexInsert | mqserver/mq_message.hpp:214-227 | an appended record and its index entry keep index and file in agreement |
| StoreIndex.KillRecord | mqserver/mq_message.hpp:56-73 | the length check never fails for an indexed message, and the bytes written at its offset give the log with that record dead |
| StoreIndex.IndexKill | mqserver/mq_message.hpp:255-261 | dropping the entry keeps agreement, and one live record fewer is left, so the counter never underflows |
| StoreIndex.IndexCompact | mqserver/mq_message.hpp:307-321 | new places that frame the compacted records keep agreement |
| StoreIndex.IndexCount | mqserver/mq_message.hpp:223-225 | the index has as many entries as the file has valid records |
| StoreIndex.CompactionFits | mqserver/mq_message.hpp:167-168 | offsets that fit 32 bits still do after compaction |
| StoreIndex.FarRecordStays | mqserver/mq_message.hpp:56-73 | for every log past 2^32 bytes: the ack of the next record writes its dead form inside the earlier records, at the offset modulo 2^32, its own bytes stay, and it is live at the next load while the damaged records can be read |
| MessageStore.QueueMessage.Recovery | mqserver/mq_message.hpp:183-194 | from any file: list and model state are what load could read, the index holds the first of each id, the file is rewritten to it unless a record was cut short and no other file changes but the temporary one; the store is valid exactly when no record was cut short and what was read is a healthy log with 32-bit offsets |
| MessageStore.QueueMessage.Insert | mqserver/mq_message.hpp:195-231 | takes the model's insert in every case: a message with the given body and id at the end of the list, and a record at the end of the log exactly when the queue is durable and the publisher asked for mode 2 or gave no properties; the invariant survives exactly when no live message has the id and a durable record can be serialized and its offset fits; no other file changes |
| MessageStore.NewMessage | mqserver/mq_message.hpp:197-216 | a new message object with the given body, id and durability, as QueueModel.NewPayloadCarries says |
| MessageStore.QueueMessage.Persist | mqserver/mq_message.hpp:214-227 | the record is appended, counted and indexed, an index entry with the same id staying |
| MessageStore.QueueMessage.Compact | mqserver/mq_message.hpp:304-307 | the file holds exactly the live records and their copies carry the new places |
| MessageStore.QueueMessage.Front | mqserver/mq_message.hpp:232-244 | takes the model's step and returns the oldest message object, none exactly when the list is empty |
| MessageStore.QueueMessage.Remove | mqserver/mq_message.hpp:246-264 | takes the model's ack: the record dies in place, the file is compacted when due, an unknown id changes nothing |
| MessageStore.QueueMessage.Forget | mqserver/mq_message.hpp:255-261 | the durable half of the ack, with the lists and the sharing of message objects kept |
| MessageStore.QueueMessage.Invalidate | mqserver/mq_message.hpp:257-259 | exactly the acked message's record is invalidated |
| MessageStore.QueueMessage.AckStart | mqserver/mq_message.hpp:249-257 | the waiting object is the one the index holds, and no other reference to it is left |
| MessageStore.QueueMessage.Gc | mqserver/mq_message.hpp:304-322 | compacts exactly when due and leaves file, index, places and counters in agreement |
| MessageStore.QueueMessage.MoveAll | mqserver/mq_message.hpp:308-320 | every indexed message gets the place of its copy; the branch for an unmanaged message is never taken |
| MessageStore.QueueMessage.Clear | mqserver/mq_message.hpp:285-294 | the empty queue, both files removed |
| MessageStore.QueueMessage.DurableCount | mqserver/mq_message.hpp:275-279 | the number of messages kept on disk |
| MessageStore.QueueMessage.TotalCount | mqserver/mq_message.hpp:270-274 | the number of records in the file |
| MessageStore.QueueMessage.WaitackCount | mqserver/mq_message.hpp:280-284 | the number of messages waiting for an ack |
| MessageStore.QueueMessage.GetableCount | mqserver/mq_message.hpp:265-269 | the number of getable messages |
| MessageStore.QueueMessage.OnDisk | mqserver/mq_message.hpp:177-331 | at every moment between operations the file is the image of a healthy log with 32-bit offsets |
| MessageManager.Untouched | mqserver/mq_message.hpp:375-420 | a valid store whose objects and data file nobody touched is as it was |
| MessageManager.UntouchedShape | mqserver/mq_message.hpp:375-420 | so is one that has lost its invariant, which it neither regains nor loses this way |
| MessageManager.MessageManager.Insert | mqserver/mq_message.hpp:375-389 | false exactly when there is no handle; only the named queue takes its step, and only its store loses its invariant, exactly when it could not take the message; other stores may have lost theirs before |
| MessageManager.MessageManager.Front | mqserver/mq_message.hpp:390-404 | the same for taking a message |
| MessageManager.MessageManager.Ack | mqserver/mq_message.hpp:405-420 | the same for an ack |
| MessageManager.MessageManager.InitQueueMessage | mqserver/mq_message.hpp:345-359 | an open handle stays; a new one recovers the log an earlier process left |
| MessageManager.MessageManager.DestroyQueueMessage | mqserver/mq_message.hpp:360-374 | the handle and its files go, nothing else |
| MessageManager.MessageManager.Clear | mqserver/mq_message.hpp:337-344 | every handle is emptied and stays |
| MessageManager.MessageManager.Reopens | mqserver/mq_message.hpp:177-331 | the directory holds exactly the logs of the handles and the logs left before, ready for a next process |
| Router.Route | mqserver/mq_route.hpp:71-110 | equality for type 1, true for type 2, the table over the split words for every other |
| Router.RoutesByKind | mqserver/mq_route.hpp:71-83 | for every type and keys: type 1 compares the keys, type 2 lets everything through, and any other type, 0, 3 or unknown, follows the word rule when no word of the routing key is `#` |
| Router.FillTable | mqserver/mq_route.hpp:84-109 | the nested loops compute the table's last cell |
| Router.FillRow | mqserver/mq_route.hpp:95-108 | one turn of the outer loop fills its row from the row before and touches no other |
| Router.FillFirstColumn | mqserver/mq_route.hpp:85-94 | the first column holds exactly for the leading run of `#` |
| Router.CellIsMatch | mqserver/mq_route.hpp:95-108 | each cell says whether the two prefixes match under the wildcard rule |
| Router.TopicRule | mqserver/mq_route.hpp:71-110 | for word lists without `#` in the routing key the table is the rule: a word is itself, `*` one word, `#` zero or more |
| Router.HashWordMisroutes | mqserver/mq_route.hpp:99-106 | for every routing key with a word `#` the binding key `#` or `*.#` matches and is not routed |
| Router.TopicRuleExactly | mqserver/mq_route.hpp:71-110 | for every type but 1 and 2 and every routing key string: the code follows the rule for all binding key strings if and only if no word of the key is `#` |
| Router.GeneralisingKeepsMatches | mqserver/mq_route.hpp:71-110 | turning binding words from literal to `*` to `#` never loses a match |
| Router.IsLegalRoutingKey | mqserver/mq_route.hpp:13-27 | accepts exactly letters, digits, `_` and `.` |
| Router.IsLegalBindingKey | mqserver/mq_route.hpp:28-70 | accepts exactly the keys of legal bytes whose wildcards stand alone and not in the three forbidden neighbourhoods |
| Router.LegalBytes | mqserver/mq_route.hpp:15-41 | the legal bytes as characters: letters, digits, `_` and `.`, and `*` and `#` in binding keys |
| Router.LegalBindingKeyWords | mqserver/mq_route.hpp:42-70 | a legal binding key is one of legal bytes whose words are lone wildcards or free of them, without the neighbours `*.#`, `#.#` and `#.*` |
| Router.LegalRoutingKeyFollowsRule | mqserver/mq_route.hpp:13-27 | a legal routing key is routed by the rule |
| ArgsCodec.EncodeArgToken | mqserver/mq_exchange.hpp:77-96 | unreserved bytes stay, every other byte becomes its percent escape |
| ArgsCodec.DecodeArgToken | mqserver/mq_exchange.hpp:107-128 | well-formed escapes are decoded, any other percent sign stays |
| ArgsCodec.TokenRoundTrip | mqserver/mq_queue.hpp:75-126 | decode undoes encode on every byte string, and an encoded token has only unreserved bytes and escapes, so no `&` and no `=` |
| ArgsCodec.EncodedBytes | mqserver/mq_exchange.hpp:77-96 | letters, digits, `-`, `_`, `.` and `~` stay; every other byte becomes a percent sign and two upper-case digits, the high one first |
| ArgsCodec.EncodeConcat | mqserver/mq_exchange.hpp:82-94 | a token is encoded byte by byte |
| ArgsCodec.HexValues | mqserver/mq_exchange.hpp:97-106 | a byte has a digit's value exactly when it is that digit in either case |
| ArgsCodec.DecodedBytes | mqserver/mq_exchange.hpp:107-128 | a percent sign with two digits behind it is the byte they name; every other byte, a lone percent sign included, is itself |
| ArgsCodec.GetArgs | mqserver/mq_exchange.hpp:58-74 | renders every entry once, in some order of the keys, as a column that reads back to the map less its empty key |
| ArgsCodec.SetArgs | mqserver/mq_exchange.hpp:34-56 | reads words without `=` and empty keys as nothing, the last value of a key winning |
| ArgsCodec.ArgsRoundTrip | mqserver/mq_queue.hpp:33-73 | for every map and every order of it, reading the rendering gives the map less its empty key, and the map itself if and only if it has no empty key |
| ArgsCodec.ColumnText | mqserver/mq_exchange.hpp:58-74 | a column is its pairs, key token, `=`, value token, with `&` between them |
| ArgsCodec.ColumnWord | mqserver/mq_exchange.hpp:39-55 | a word without `=` sets nothing; the first `=` ends the key, and a key that decodes to nothing sets nothing |
| ArgsCodec.ColumnWords | mqserver/mq_exchange.hpp:34-56 | the words between `&` are read in order, a later one overruling an earlier |
| HostSafety.StepKeepsHost | mqserver/mq_host.hpp:28-130 | every operation keeps the invariant: bindings name existing ends, tables hold exactly the durable part without a row twice, every queue has a healthy store, only durable queues keep messages |
| HostSafety.DeclareQueueKeeps | mqserver/mq_host.hpp:50-60 | declaring a queue keeps it, also when the row is refused after the handle was opened |
| HostSafety.DeleteQueueKeeps | mqserver/mq_host.hpp:61-67 | deleting a queue keeps it |
| HostSafety.BindKeeps | mqserver/mq_host.hpp:77-92 | binding keeps it: a row exactly when both ends are durable |
| HostSafety.FromRowsMatching | mqserver/mq_binding.hpp:68-91 | deleting rows and then reading back is reading back and then deleting, and no pair comes to stand twice |
| HostRestart.RestartIsProjection | mqserver/mq_host.hpp:15-27 | restart gives the durable exchanges of known type, the durable queues with the durable part of their messages, and the bindings with both ends durable |
| HostRestart.RestartDanglesExactly | mqserver/mq_exchange.hpp:214-218 | no binding dangles after restart if and only if no durable binding names an exchange of unknown type |
| HostRestart.RestartKeepsExactly | mqserver/mq_exchange.hpp:193-229 | restart keeps the invariant if and only if every durable exchange has a known type |
| HostRestart.RunSafe | mqserver/mq_host.hpp:10-130 | over every legal run with restarts anywhere, declaring known types, the invariant holds |
| HostRestart.NewHostSafe | mqserver/mq_host.hpp:15-27 | a first process starts in the invariant |
| HostGaps.HandlesOwnedExactly | mqserver/mq_host.hpp:50-130 | from any state in which every handle belongs to a queue, a step ends that exactly when it is a refused durable declare of a new queue or a clear with a handle open |
| HostGaps.OrphanHandle | mqserver/mq_host.hpp:50-60 | one durable declare while the database fails leaves such a handle |
| HostGaps.RestartOwnsHandles | mqserver/mq_host.hpp:15-27 | after a restart every handle belongs to a queue |
| HostGaps.TablesOverRuns | mqserver/mq_host.hpp:124-130 | over any run all tables are gone exactly when a clear came with no restart since, and all are there otherwise |
| HostGaps.DurableAcceptedExactly | mqserver/mq_exchange.hpp:272-293 | after any run, legal or not: a new durable exchange is accepted exactly when the database takes the row, no such clear came, and no row the reader skips has its name; a new durable queue or binding exactly when the first two hold |
| HostGaps.BlockedName | mqserver/mq_exchange.hpp:214-218 | a run after which every durable declare of a name no exchange has is refused, also after a delete of it |
| HostGaps.RunSettles | mqserver/mq_exchange.hpp:272-305 | every run of any operations keeps: durable exchanges and queues have their rows, each row is owned by one of them or skipped by the reader, and only durable queues keep messages on disk |
| HostGaps.InvariantSettles | mqserver/mq_host.hpp:10-130 | the host invariant gives that much |
| HostGaps.NothingDurableAfterClear | mqserver/mq_host.hpp:124-130 | after such a clear, in any run, nothing is durable, every durable declare is refused, no store keeps a message, and a restart brings back nothing |
| HostGaps.OneClear | mqserver/mq_host.hpp:124-130 | a first process that clears once is such a run |
| HostGaps.DanglingBinding | mqserver/mq_exchange.hpp:214-218 | a run of three declarations after which the invariant holds and a restart leaves a dangling binding |
| HostEffects.RestartGivesBack | mqserver/mq_host.hpp:15-27 | restart gives back the durable exchanges of type 0 to 3 and the durable queues with all but an empty arg, the bindings between durable ends with their keys, and the messages each durable queue kept, none waiting |
| HostEffects.DeclareExchangeEffect | mqserver/mq_exchange.hpp:272-293 | a taken name changes nothing; a new exchange enters as declared, with a row of its own if durable, or nothing changes; the answer says which |
| HostEffects.DeclareExchangeLasts | mqserver/mq_exchange.hpp:184-229 | a restart then brings back just that exchange besides, if it is durable and of type 0 to 3 |
| HostEffects.DeleteExchangeEffect | mqserver/mq_host.hpp:35-40 | the exchange, its bindings and their rows go, and nothing else |
| HostEffects.DeleteExchangeLasts | mqserver/mq_host.hpp:35-40 | nor do they come back, and all else does |
| HostEffects.DeclareQueueEffect | mqserver/mq_host.hpp:50-60 | a taken name changes nothing; a new queue enters as declared with an empty store; refused, only its handle is opened |
| HostEffects.DeclareQueueLasts | mqserver/mq_queue.hpp:176-215 | a restart then brings back just that queue besides, empty, if it is durable and was accepted |
| HostEffects.DeleteQueueEffect | mqserver/mq_host.hpp:61-67 | the queue, its messages, its bindings and their rows go, and nothing else |
| HostEffects.DeleteQueueLasts | mqserver/mq_host.hpp:61-67 | nor do they come back, and all else does |
| HostEffects.BindEffect | mqserver/mq_host.hpp:77-92 | a new binding has the key it was bound with, in memory and, between durable ends, in its row, and nothing else changes; a missing end or a refused row changes nothing, a bound pair keeps its key |
| HostEffects.BindLasts | mqserver/mq_binding.hpp:92-99 | a restart then brings back just that binding besides, with its key, if both ends are durable |
| HostEffects.UnBindEffect | mqserver/mq_host.hpp:93-96 | the pair and its rows go, and nothing else |
| HostEffects.UnBindLasts | mqserver/mq_binding.hpp:174-193 | nor does the pair come back, and all else does |
| MessageEffects.PublishEffect | mqserver/mq_host.hpp:106-115 | without queue or handle nothing changes; otherwise the message as published goes to the end of that list, and to the end of that file exactly when queue and publisher want it kept; no other store and no metadata change |
| MessageEffects.PublishLasts | mqserver/mq_message.hpp:183-231 | a restart brings it back with its id, routing key and body, behind those kept before, exactly then; all else comes back as without it |
| MessageEffects.ConsumeEffect | mqserver/mq_host.hpp:116-119 | the oldest message moves under its own id to those waiting, its record stays, and nothing else changes |
| MessageEffects.ConsumeLasts | mqserver/mq_message.hpp:183-244 | a restart brings back the same as without it |
| MessageEffects.AckEffect | mqserver/mq_host.hpp:120-123 | an id that waits in that store waits no more and its message is not kept any more; every other message, store and all metadata stay; any other id changes nothing |
| MessageEffects.AckLasts | mqserver/mq_message.hpp:246-264 | a restart brings back everything but that message |
| MessageEffects.ClearEffect | mqserver/mq_host.hpp:124-130 | no exchange, queue, binding or table is left, and every handle holds nothing |
| MessageEffects.ClearLasts | mqserver/mq_host.hpp:124-130 | and a restart brings back nothing |
| ClientView.ReachedByKind | mqserver/mq_channel.hpp:101-128 | a publish to a direct exchange reaches exactly the queues bound with its key, to a fanout exchange all bound queues, to any other the bound queues whose key matches word by word, unless a word of the routing key is `#` |
| ClientView.BindReaches | mqserver/mq_host.hpp:77-92 | once bound, a queue is reached by exactly the keys its own binding key lets through; every other pair of exchange and queue as before |
| ClientView.BindReachesAfterRestart | mqserver/mq_host.hpp:15-27 | after a restart as well, exactly when both ends are durable and the type is known |
| ClientView.UnBindReaches | mqserver/mq_host.hpp:93-96 | once unbound, a queue is reached through that exchange by no key, after a restart either; every other pair as before |
| ClientView.PublishReaches | mqserver/mq_channel.hpp:111-128 | a publish goes by the routing key of its properties or the empty key; each queue reached gets one message with the given body, and its own id when the server draws it, at the end of its list; all else stays |
| ClientView.DeliveryEffect | mqserver/mq_channel.hpp:176-198 | the oldest message is sent to the consumer whose turn it is and waits for its ack, or is gone from list and file when the consumer acks automatically; without a consumer it waits, without a message nothing happens |
| ClientView.TaskIsConsume | mqserver/mq_channel.hpp:176-198 | the worker steps of the interleaving model, one after the other, do to a queue what the consume task does |
| Database.Database.InsertExchange | mqserver/mq_exchange.hpp:164-174 | refused without an effect when the name is there, the table is gone, or the database fails |
| Database.Database.InsertBinding | mqserver/mq_binding.hpp:58-67 | appends a row, or fails without an effect |
| MetadataManagers.ExchangeManager.constructor | mqserver/mq_exchange.hpp:268-270 | the table exists and the map is what its rows decode to |
| MetadataManagers.ExchangeManager.Recovery | mqserver/mq_exchange.hpp:184-229 | a row with an unknown type is skipped, every other row is read with its args |
| MetadataManagers.ExchangeManager.DeclareExchange | mqserver/mq_exchange.hpp:272-293 | an existing name succeeds unchanged; a durable one enters map and table together or not at all, its args column decoding to the args less the empty key |
| MetadataManagers.ExchangeManager.DeleteExchange | mqserver/mq_exchange.hpp:295-305 | leaves the map, and the table when durable |
| MetadataManagers.MsgQueueManager.Recovery | mqserver/mq_queue.hpp:176-215 | every row is read with its args |
| MetadataManagers.MsgQueueManager.DeclareQueue | mqserver/mq_queue.hpp:262-288 | the same as for exchanges |
| MetadataManagers.MsgQueueManager.DeleteQueue | mqserver/mq_queue.hpp:289-300 | leaves the map, and the table when durable |
| BindingManager.BindingManager.constructor | mqserver/mq_binding.hpp:149-152 | the nested map stands for the table's rows, the first row of a pair winning |
| BindingManager.BindingManager.Bind | mqserver/mq_binding.hpp:153-173 | a bound pair stays with its old key; otherwise the pair enters the map, and the table when durable, or neither |
| BindingManager.BindingManager.UnBind | mqserver/mq_binding.hpp:174-193 | exactly the pair goes, an emptied inner map with it; an unbound pair touches nothing |
| BindingManager.BindingManager.RemoveExchangeBindings | mqserver/mq_binding.hpp:194-199 | exactly the pairs of the exchange go from map and table |
| BindingManager.BindingManager.RemoveMsgQueueBindings | mqserver/mq_binding.hpp:200-215 | exactly the pairs of the queue go from map and table |
| BindingManager.BindingManager.EraseQueue | mqserver/mq_binding.hpp:204-214 | the erase-while-iterating loop, in any order, visits every exchange and leaves no empty inner map |
| BindingManager.BindingManager.GetExchangeBindings | mqserver/mq_binding.hpp:216-225 | exactly the flat map's pairs of the exchange, each with its own names |
| BindingManager.BindingManager.GetBinding | mqserver/mq_binding.hpp:227-241 | the binding of the pair, if bound |
| BindingManager.BindingManager.Size | mqserver/mq_binding.hpp:257-267 | the sum over the inner maps is the number of bound pairs |
| BindingManager.FlatErased | mqserver/mq_binding.hpp:187-192 | erasing from an inner map, and dropping it when empty, removes exactly one pair and keeps the nesting sound |
| BindingManager.FlatPut | mqserver/mq_binding.hpp:170-171 | inserting into an inner map, created on demand, adds exactly one pair |
| VirtualHost.VirtualHost.constructor | mqserver/mq_host.hpp:15-27 | over the database and files any earlier host left, the new host is the restart of the old |
| VirtualHost.VirtualHost.CanRestart | mqserver/mq_host.hpp:15-27 | whatever a host did, its database and files are ones the constructor accepts |
| VirtualHost.VirtualHost.Recover | mqserver/mq_host.hpp:22-27 | every queue's handle is opened and recovered, in any order |
| VirtualHost.VirtualHost.DeclareExchange | mqserver/mq_host.hpp:28-34 | takes the host model's step, with its answer |
| VirtualHost.VirtualHost.DeleteExchange | mqserver/mq_host.hpp:35-40 | takes the host model's step: bindings first |
| VirtualHost.VirtualHost.DeclareQueue | mqserver/mq_host.hpp:50-60 | takes the host model's step: the handle first |
| VirtualHost.VirtualHost.DeleteQueue | mqserver/mq_host.hpp:61-67 | takes the host model's step: messages, bindings, queue |
| VirtualHost.VirtualHost.Bind | mqserver/mq_host.hpp:77-92 | takes the host model's step; false when an end is missing; a new pair gets the given key |
| VirtualHost.VirtualHost.UnBind | mqserver/mq_host.hpp:93-96 | takes the host model's step: the bindings less that pair |
| VirtualHost.VirtualHost.BasicPublish | mqserver/mq_host.hpp:106-115 | false exactly when queue or handle is missing; takes the host model's step in every case, the named store losing its invariant exactly when it could not take the message |
| VirtualHost.VirtualHost.BasicConsume | mqserver/mq_host.hpp:116-119 | takes the host model's step and returns the oldest message |
| VirtualHost.VirtualHost.BasicAck | mqserver/mq_host.hpp:120-123 | takes the host model's step: the id waits no more in that queue, every other waiting message and every list stays |
| VirtualHost.VirtualHost.Clear | mqserver/mq_host.hpp:124-130 | takes the host model's step |
| Consumers.QueueConsumer.Create | mqserver/mq_consumer.hpp:43-56 | a taken tag is refused without an effect, so tags stay distinct; a new consumer goes last |
| Consumers.QueueConsumer.Remove | mqserver/mq_consumer.hpp:57-69 | removes the tag and nothing else, keeping the order |
| Consumers.QueueConsumer.Choose | mqserver/mq_consumer.hpp:75-85 | the consumer at the sequence number modulo the list, the number moving on modulo 2^64; nobody from an empty list |
| Consumers.ConsumerManager.Choose | mqserver/mq_consumer.hpp:167-180 | the named queue's list moves on, no other does |
| Consumers.ConsumerManager.Create | mqserver/mq_consumer.hpp:138-151 | a consumer only where the queue has a list and the tag is free |
| Consumers.RoundRobinFair | mqserver/mq_consumer.hpp:75-85 | over any number of calls in a row before the wrap, with the list unchanged, any two consumers' counts differ by at most one |
| Consumers.FairBeforeWrap | mqserver/mq_consumer.hpp:75-85 | of k calls each of n consumers gets k / n or k / n + 1 |
| Consumers.WrapUnfair | mqserver/mq_consumer.hpp:82-83 | when n does not divide 2^64 the wrap serves the first consumer twice before the last once |
| Consumers.FairForEverExactly | mqserver/mq_consumer.hpp:75-85 | the rotation is fair from every number for every length if and only if n divides 2^64 |
| Channel.TaskPool.Push | mqcommon/mq_threadpool.hpp:56-76 | appends a task; a stopped pool refuses it |
| Channel.Channel.BasicPublish | mqserver/mq_channel.hpp:101-130 | exactly one copy in each queue whose binding routes the key and one consume task for it, each queue once, in some order, whether or not their stores can take the copies; a stopped pool throws after one copy and no task; valid afterwards exactly when every store reached could take its copy |
| Channel.Channel.FanOut | mqserver/mq_channel.hpp:118-128 | the loop over the bindings, in any order, past stores that cannot take their copy |
| Channel.Channel.PublishOne | mqserver/mq_channel.hpp:123-126 | the insert always finds its queue; a consume task follows unless the pool is stopped; the store loses its invariant exactly when it cannot take the message |
| Channel.FanOutIsExact | mqserver/mq_channel.hpp:101-130 | every routed queue exists and grows by its one copy at the end of the list and, when the copy is durable, of what a restart brings back; every other queue and all metadata stay as they were |
| Channel.Channel.Consume | mqserver/mq_channel.hpp:176-198 | takes the oldest message, then whose turn it is, sends, and acks when asked to; with no message nothing changes, with no consumer the message stays waiting |
| Channel.AutoAckForgets | mqserver/mq_channel.hpp:176-198 | a delivery acked at once leaves list, waiting messages and kept messages as if only that message had never been there |
| ThreadPool.NewPoolInvariant | mqcommon/mq_threadpool.hpp:20-30 | a new pool is in the invariant, idle, with as many workers as asked for, or one |
| ThreadPool.StepKeepsPool | mqcommon/mq_threadpool.hpp:35-101 | every step keeps it: no lost wakeup, orderly stop, every task accounted for |
| ThreadPool.RunKeepsPool | mqcommon/mq_threadpool.hpp:35-101 | so does every interleaving |
| ThreadPool.QueuedMeansActive | mqcommon/mq_threadpool.hpp:56-101 | a queued task implies a pending notification or a worker awake or at work |
| ThreadPool.UnrestFalls | mqcommon/mq_threadpool.hpp:80-101 | in an open pool with no new pushes every step but a spurious wakeup lowers a measure |
| ThreadPool.RestMeansDone | mqcommon/mq_threadpool.hpp:80-101 | an open pool in which nothing can move has run every accepted task exactly once |
| ThreadPool.RemainingFalls | mqcommon/mq_threadpool.hpp:35-51 | once the stop flag is set every step, spurious wakeups included, lowers a measure |
| ThreadPool.StopTerminates | mqcommon/mq_threadpool.hpp:35-51 | so no run after stop is longer than that measure |
| ThreadPool.StuckMeansDrained | mqcommon/mq_threadpool.hpp:35-51 | and where it ends all workers have left and are joined, and every accepted task has run exactly once |
| ThreadPool.ExitedMeansDone | mqcommon/mq_threadpool.hpp:91-94 | when all workers have left, the finished tasks are the accepted ones |
| ThreadPool.TakenInPushOrder | mqcommon/mq_threadpool.hpp:56-101 | over every interleaving from a new pool tasks are taken in push order, and with one worker they also end in push order |
| Pipeline.StepKeepsPipe | mqserver/mq_channel.hpp:118-198 | each publish, task, worker and ack step, with an id taken or free, keeps the count of getable messages and tasks, the order of popping, and every popped message in exactly one place |
| Pipeline.TasksMatchMessages | mqserver/mq_channel.hpp:118-198 | over every interleaving since recovery, ids taken or free: no task finds the queue empty; getable messages are the outstanding tasks, as many as recovery brought back, and those compactions put back, none while the store could take what was published; messages are popped in order of arrival, and each popped one is sent, left waiting or in one worker's hands, exactly once |
| PublishPath.MoveKeeps | mqserver/mq_channel.hpp:118-198 | pool and path stay in step: the path's tasks are the pool's tasks of the queue, and only a worker running one is on the path |
| PublishPath.RunKeeps | mqserver/mq_channel.hpp:118-198 | so does every run, in which the path alone runs through its own events |
| PublishPath.UnrestFalls | mqcommon/mq_threadpool.hpp:80-101 | with nothing from outside every move of an open system lowers a measure |
| PublishPath.ComesToRest | mqcommon/mq_threadpool.hpp:80-101 | so it comes to rest within that many moves |
| PublishPath.RestLeavesBacklog | mqserver/mq_channel.hpp:118-198 | at rest of an open pool, after any interleaving since recovery, ids taken or free: every task has run once; every insert has caused one pop, oldest first; the messages popped are exactly the ones sent and the ones nobody was there to take, each once; as many are getable as recovery brought back and compactions put back |

## Left out

- SQLite and SQL text: tables are abstract rows whose insert may fail without an effect; names contain no NUL, and deletes, drops and creates succeed.
- I/O errors, partial writes and failed renames: file operations succeed. A truncated or malformed file is handled by load and recovery as the code does.
- The window between publishing a handle and recovering it: the two are one step here.
- MessageManager.MessageManager.InitQueueMessage: opens files as a store leaves them; what recovery does with any other file is said by MessageStore.QueueMessage.Recovery.
- Pipeline.StepKeepsPipe: once a store has lost its invariant, an ack of a durable message may put back any messages here; which ones the code puts back is said by TakenIds.TakenIdStrands for two messages of one id.
- PublishPath.RestLeavesBacklog: says nothing of a stopped pool, in which a publish leaves a message without a task.
- TakenIds.TakenIdStrands: follows one message of a taken id, both taken before the ack; runs in which ids collide again and again, or a compaction comes while the later one is still on the list, are not followed.
- MessageMapper.MessageMapper.Load: for bodies the serializer never writes, a small field parser stands in for the library's.
- Protobuf beyond the payload and its properties: unknown fields, arenas, reflection, the parser's library code.
- UTF-8: the generated parser checks `string` fields strictly (mqcommon/mq_msg.pb.cc:642-647) and stops at one that is not UTF-8, before `valid` is read; the model checks nothing. So PayloadCodec.ParseSerialize and all that is said of load and restart hold of the code for messages whose strings are UTF-8, which are all that arrive over the wire.
- Allocation failure on an absurd length prefix in load.
- Exchange, queue and binding records are values here; the code shares them through pointers and never changes them after creation.
- Networking, codec, dispatcher, the broker's handlers that only look up and forward, connections, and the client library.
- Request handlers of the channel other than publish, and the set-up and cancelling of a subscription beyond the consumer lists.
- The C++ memory model and object lifetime, such as a consume task outliving its channel; each mutex-held region is one atomic step, and tasks are assumed to end.
- Paths: the directory name is taken as already ending in a separator, and queue names are not normalised; directories are not modelled.
- The random part of ids is a parameter; ids chosen by publishers are assumed free in their queue wherever a lemma says so.
- Lists of more than 2^31 consumers, where the code's int index would overflow.
