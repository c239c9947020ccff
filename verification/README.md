# Netfind: a verified model

Netfind is an agent and a server. The agent listens to a network, parses what it hears, keeps a table of
device records and publishes changes over a WebSocket. The server is a topic broker: it stores messages
that are retained (in memory), persisted or appended (in an SQL table), matches topics against wildcard
patterns, and tells subscribers. This project models the parts of both that carry the hard behaviour and
proves properties of them, for all inputs, all runs and all interleavings.

## The server

`Pattern` compiles a wildcard pattern to the text of a regular expression, as the server does, reads that
text back as tokens, and proves what matching means segment by segment. `Database` models SQL `LIKE` and
proves that filtering by it first loses nothing; `Table` is the topic table. `Reduce` is the sort, group
and merge normal form; `Messages` is the same on shared heap objects that are merged in place.

`Store` says what each message does to the retain cache and the table, as a function; `Broker` is the
class whose methods are proved against it, with its outboxes in `SendQueue` and one received frame in
`Frame`. `Answers` says what a GET or SUB is answered with; `FrameEffects` and `FrameValues` say over a whole
frame, as it was received, which of its deletions count and which of its values are kept. `StoreProperties`
and `CacheReads` prove what the stored data means over whole runs: deletion is exact, creation times survive.

`Interleaving` models the same broker a second time, as a state machine with one step for each block under a
lock, each table read, each commit and each frame sent, for any number of connections. `NoMissedPublish`
proves over all its runs that a subscriber gets what stays stored, in terms of the events of the run;
`Deliveries` proves that nobody is sent anything else, tracing each value sent back to a publication and a
subscription or to a query; `StarvedSubscriber` gives the run that shows why failures are excepted;
`LastWills` follows a last will from its setting to its storing. `Agreement` proves step by step that the two
models have the same effects, and `Alone` proves it of whole frames that no other step interrupts.

## The agent

`Devdb` is the record table and its publishing scan, `DevdbRuns` its guarantees over all runs of puts and
scans. `AgentQueue` is the take-all, put-back send queue. `Convergence` joins agent, queue, network and
server: once every record was scanned and everything is sent, the rows on the server are those it had before
and the named pairs of everything that was put and that the server accepts, whatever the keys.

`Cursor` is the bounded cursor that packet parsing rests on; `Names` decompresses DNS names, `Mdns` walks
the records of a response, and `MdnsFraming` writes well-formed responses, with compressed names, and proves
that the walk visits exactly what was written, under its full names. `Split` and `Services` split strings in
place and read service names and TXT records. `Dhcp` is the option loop. `IpText` writes addresses as text
and reads them back, `Prefix` and `Networks` are masks, subnets and the gateway address search.

## Assumptions

- The clock never goes back, is at least 20000 ms and fits 64 bits (`DevdbRuns.ClockOk`).
- Memory allocation succeeds.
- Patterns and topics use no character that is special to a regular expression, other than a wildcard
  (`Pattern.Plain`); the server does not escape them. Newlines are not assumed away: the exact conditions
  are theorems.
- The messages of one frame are separate objects, as decoding makes them.
- The table changes of one batch become visible together, at its commit, and no other writer comes between
  (`Interleaving`, step Commit). A DEL there reads the table and deletes in that one step.
- A last will taken on leaving is published by the same handler; the send of a frame to a connection is one
  step.
- A transaction that a failed database call leaves open is committed with the last will of the same
  connection, if there is one (`Interleaving`, steps DbFails and Commit), and otherwise rolled back when the
  database connection closes.
- A frame that the agent's transport accepts arrives, and the agent's messages can be encoded
  (`Convergence`, step SendOk); `AgentQueue` has the failed encoding as well. The server knows the agent by one
  name throughout a run of `Convergence`.
- Well-formed patterns (`Pattern.WellFormed`) include those that end in `/`, which the validity check rejects;
  what is proved of well-formed patterns holds of them too.

## Where the code differs from what one would expect

- A topic that ends in a newline is matched by the regular expression of the topic without it, and is lost
  by the LIKE filter unless a `%` in it takes up the newline; `#` stops at a newline
  (`MeaningNeedsNoNewline`, `PrefilterNeedsNoFinalNewline`).
- `created_at` is looked up with LIKE on a plain topic, so `_`, `%` and letter case in topics let one topic
  take another's creation time (`NeighbourGivesCreation`; exact condition in `PersistCreationExact`).
- PERSIST and APPEND can send one creation time and keep another (`NeighbourIsSent`; exact conditions in
  `PersistSendsWhatIsStored` and `AppendSendsWhatIsStored`).
- Queries merge rows into the cached message objects (`ReadChangesCreation`; exact condition in
  `ReadKeepsCreation`).
- Within one frame the greatest value wins, not the last (`LastListedIsLost`; exact conditions in
  `FrameRetainsGreatest` and `FramePersistsGreatest`).
- Of several last wills in one frame the greatest counts, not the last (`FrameSetsWill`).
- Of several DELs of one topic in a frame only the first counts, since DEL keys carry no value: a DEL of
  everything is lost behind a DEL of one value (`SecondDeleteIsLost`; exact conditions in `DeletesEveryValue`
  and `DeletesInFull`).
- One failed send to a subscriber ends the publisher's handler and starves the subscribers after it
  (`FailedSendStarves`).
- A batch whose database call failed is not rolled back: the commit for the last will makes its first part
  visible, and nobody is told (the third case of `FailsFor` in `NoMissedPublish`).
- A record whose key makes an invalid topic is dropped by the server on every resend, and one whose key holds
  `/@` is stored under another topic (`KeysThatDoNotArrive`; exact condition in `OwnPairInImage`).
- A name in a DNS packet need not come to an end (`SelfPointerNeverResolves`, `PointerOutside`; exact condition
  in `EndsExactly`).
- A single Pad in a DHCP option list swallows the option after it (`SinglePadHides`).
- A short DHCP lease time is read on into the next option, and three bytes of an FQDN option are not counted, so
  that the loop can read past the end (`LeaseTimeReadsOn`, `NameIsNotCountedWhole`).
- A failed send of the agent puts its batch behind newer messages (`FailedSendReorders`; exact condition in
  `InOrder`).
- A network without an interface address may keep another gateway address (`OtherGatewayIsKept`; exact
  condition in `FilledMacs`).

## Model

| member | source | states |
|---|---|---|
| Pattern.Wildcard.Init | netfind-server/nfserver/proto/pattern.py:10-15 | builds the regular expression text once; a pattern compiled before keeps the same text |
| Pattern.Wildcard.MatchesTopic | netfind-server/nfserver/proto/pattern.py:17-22 | answers the same whether or not the pattern was compiled before |
| Pattern.CompiledTokens | netfind-server/nfserver/proto/pattern.py:10-15 | for every plain pattern the compiled text reads back as the intended tokens: a literal for each character, one non-greedy run for each wildcard |
| Pattern.RegexMeansSegments | netfind-server/nfserver/proto/pattern.py:10-22 | for every well-formed pattern and every topic without a newline, the regular expression matches if and only if the `/`-segments match pairwise, `+` taking one non-empty segment and a final `#` any non-empty remainder |
| Pattern.TrailingNewlineMatches | netfind-server/nfserver/proto/pattern.py:13 | a topic with a newline added at its end is still matched by the pattern equal to the topic without it, although no segment meaning allows it |
| Pattern.MeaningNeedsNoNewline | netfind-server/nfserver/proto/pattern.py:10-22 | for a plain topic: all well-formed patterns match it by segments if and only if it holds no newline |
| Model.HashTestsMeanLast | netfind-server/nfserver/proto/model.py:66-71 | the two counting tests on `/#` accept exactly the topics in which `/#` can only stand last |
| Model.WireNumbers | netfind-server/nfserver/proto/model.py:12-25 | the numbers of message types and modes, by which types sort and modes are compared |
| Model.ValidExactly | netfind-server/nfserver/proto/model.py:41-82 | the validity check, character by character of the topic and field by field, for every message; a valid message has what the broker needs |
| Model.ValidPatternIsWellFormed | netfind-server/nfserver/proto/model.py:41-82 | every SUB, GET, UNSUB or DEL that passes the validity check carries a well-formed pattern (plain alphabet) |
| Database.LikeQueryTokens | netfind-server/nfserver/db.py:53-55 | the LIKE query of a plain pattern is the pattern's token list with `%` for each wildcard, so both rewritings see the same wildcards |
| Database.MatchImpliesLike | netfind-server/nfserver/db.py:51-60 | whatever the token list matches, without a final newline, the LIKE query of the same tokens matches |
| Database.PrefilterLosesNothing | netfind-server/nfserver/db.py:51-60 | for every plain pattern and every topic not ending in a newline, a regular expression match implies a LIKE match: filtering by LIKE first drops nothing |
| Database.LikeWithoutPercent | netfind-server/nfserver/db.py:57-60 | a query without `%` accepts exactly the texts of its length that agree with it character by character, up to the case of ASCII letters and any character for `_` |
| Database.LikeAtPercent | netfind-server/nfserver/db.py:57-60 | what stands before the first `%` is matched at the start of the text, what follows it anywhere behind: with the former this determines LIKE |
| Database.LikeThrough | netfind-server/nfserver/db.py:51-60 | LIKE is transitive through the tokens: if they match a text whole, and that text as a query accepts another, so does the tokens' query |
| Database.PrefilterNeedsNoFinalNewline | netfind-server/nfserver/db.py:51-60 | for a plain topic: the pre-filter is lossless for all well-formed patterns if and only if the topic does not end in a newline, or without that newline, read as a query, accepts itself with it (which takes a `%`) |
| Table.Table.Put | netfind-server/nfserver/db.py:74-89 | an existing (topic, value) row keeps its place and creation time; otherwise a row is added |
| Table.Table.DeletePattern | netfind-server/nfserver/broker.py:192-198 | the row-by-row deletion loop removes exactly the rows whose topic is selected by LIKE and regular expression (and carry the value, if given) |
| Reduce.ReduceIsReduction | netfind-server/nfserver/proto/util.py:17-33 | the result has strictly increasing keys and, under every key, exactly the merge of that key's messages: the key set of the input, once each |
| Reduce.StrLessExactly | netfind-server/nfserver/proto/util.py:19 | strings are compared by code point after their common part, and a proper prefix comes first |
| Reduce.ReductionIsUnique | netfind-server/nfserver/proto/util.py:17-33 | any list with those two properties is the result: the normal form is unique |
| Reduce.ReducedPublication | netfind-server/nfserver/proto/util.py:24-30 | each PUB of the result carries the least `created_at`, the greatest `updated_at` and the greatest mode of its group, all three attained |
| Reduce.ReduceIdempotent | netfind-server/nfserver/proto/util.py:17-33 | reducing a result changes nothing |
| Reduce.ReduceIncremental | netfind-server/nfserver/proto/util.py:17-33 | reduce(reduce(a) + b) equals reduce(a + b) |
| Reduce.ReduceIgnoresOrder | netfind-server/nfserver/proto/util.py:17-33 | for publications the result depends only on which messages occur, not on their order or number |
| Messages.SortOrderIsStable | netfind-server/nfserver/proto/util.py:19 | the sort is a stable permutation of the message objects |
| Messages.MergeRun | netfind-server/nfserver/proto/util.py:20-30 | one `groupby` step on shared objects: the first message of the run holds the merge of the whole run, even when an object occurs twice in it |
| Messages.ReduceInPlace | netfind-server/nfserver/proto/util.py:17-33 | on shared, mutated objects: the returned list has the values of the normal form, consists of the first object of each group, and every other object keeps its contents |
| SendQueue.SendQueue.SendBox | netfind-server/nfserver/proto/queue.py:26-28 | one outbox: the connection is sent its reduction, and the message objects hold what merging leaves in them |
| SendQueue.SendQueue.Send | netfind-server/nfserver/proto/queue.py:25-28 | all outboxes, whatever keys they share: each connection is sent the reduction of its part of the batch as it was before any sending, although outboxes merge messages that later ones share; exactly the messages that some outbox holds are left merged with their group |
| SendQueue.ReductionOfDistinct | netfind-server/nfserver/proto/queue.py:25-28 | reducing messages without equal keys sorts them and neither adds, drops nor changes one |
| Store.SaveOneKeepsValid | netfind-server/nfserver/broker.py:144-201 | every message keeps one cached message a topic and one row a (topic, value) |
| Store.SaveKeepsValid | netfind-server/nfserver/db.sql:24 | the unique index is kept over every batch |
| StoreProperties.LoadEmpty | netfind-server/nfserver/broker.py:128-142 | loading a pattern finds nothing if and only if nothing stored matches it |
| StoreProperties.LoadMembers | netfind-server/nfserver/broker.py:128-142 | loading returns exactly the cached messages that match and the rows that LIKE and the regular expression select |
| StoreProperties.DelExact | netfind-server/nfserver/broker.py:184-198 | after a DEL with no value, loading its pattern finds nothing; with a value every matching cached message goes but only rows with that value; everything else stays, in order |
| StoreProperties.DelMatchesRegex | netfind-server/nfserver/broker.py:193-198 | the rows that a DEL removes are exactly those the regular expression matches (plain pattern, no topic ending in a newline) |
| StoreProperties.DelWinsInBatch | netfind-server/nfserver/broker.py:144-201 | in a batch ordered by type, a DEL with no value leaves nothing that matches its pattern, whatever the batch publishes |
| StoreProperties.PersistCreationExact | netfind-server/nfserver/broker.py:167-182 | a PERSIST leaves the topic's single row with the creation time of the first PERSIST if and only if its value was stored already or no row whose topic is LIKE it is older (and, for a topic without a row, the oldest such row, if any, is as old as the message) |
| StoreProperties.NeighbourGivesCreation | netfind-server/nfserver/broker.py:167-172 | a concrete failure: a row for `/axb` gives its creation time to a new topic `/a_b`, because the lookup is a LIKE |
| StoreProperties.PersistSendsWhatIsStored | netfind-server/nfserver/broker.py:169-182 | the creation time that a PERSIST sends on equals the one it stores if and only if the value is new or no row whose topic is LIKE its own is older than the row of its topic and value |
| StoreProperties.AppendSendsWhatIsStored | netfind-server/nfserver/broker.py:175-182 | the same for an APPEND: equal if and only if the value is new or the first row in the table that carries it under a topic LIKE its own is as old as the row of its topic and value |
| StoreProperties.SentCreation | netfind-server/nfserver/broker.py:148-180 | which creation time a message is sent on with, for each mode and in terms of rows and cached messages: its own, that of the cached message, the oldest under a topic LIKE its own, or that of the first row with its value under such a topic; nothing else of it changes |
| StoreProperties.StoredCreation | netfind-server/nfserver/db.py:74-89 | what a PERSIST or APPEND stores: the creation time of the row of its topic and value if there is one, and else the one it sends |
| StoreProperties.AppendCreationExact | netfind-server/nfserver/broker.py:175-182 | an APPEND, all told: the row's own creation time, else that of the first row with the value under a topic LIKE its own, else the message's |
| StoreProperties.AppendKeepsCreation | netfind-server/nfserver/broker.py:175-198 | over every run of messages, a value of a topic that is only appended (and has no LIKE neighbour) has the creation time of its first APPEND since deletion, and is stored exactly while it has one |
| StoreProperties.NeighbourIsSent | netfind-server/nfserver/broker.py:167-182 | a concrete failure of both: `/a_b` is sent on with the creation time of `/axb` while its own row keeps another |
| StoreProperties.PersistentExact | netfind-server/nfserver/broker.py:162-182 | a PERSIST or APPEND takes its topic out of the cache and stores its value with the message's update time and mode; a PERSIST removes the topic's other values; nothing else changes |
| StoreProperties.RetainExact | netfind-server/nfserver/broker.py:153-160 | a RETAIN caches the message under its topic with the creation time found there; no other topic and no row changes |
| StoreProperties.PersistKeepsCreation | netfind-server/nfserver/broker.py:162-198 | over every run of messages, a topic only ever published PERSIST (and with no LIKE neighbour) has at most one row: the last value, with the creation time of its first PERSIST since deletion |
| StoreProperties.RetainedStep | netfind-server/nfserver/broker.py:153-191 | one message moves a topic's cached creation time exactly as the intended history says |
| StoreProperties.RetainKeepsCreation | netfind-server/nfserver/broker.py:153-191 | over every run of messages, a retained topic shows the creation time of its first RETAIN since it was last removed |
| Broker.Broker.SaveRetained | netfind-server/nfserver/broker.py:153-160 | refines the store function on the shared cache objects; the message leaves with the cached creation time |
| Broker.Broker.SavePersistent | netfind-server/nfserver/broker.py:162-182 | PERSIST and APPEND refine the store function: cache entry dropped, creation time looked up, other values deleted, row stored |
| Broker.Broker.DeleteMatching | netfind-server/nfserver/broker.py:184-198 | DEL refines the store function on cache and table |
| Broker.Broker.SaveMsgs | netfind-server/nfserver/broker.py:144-201 | a batch of separate objects is stored as the fold of the single messages, and each leaves with its stored creation time |
| Broker.Broker.GetSubs | netfind-server/nfserver/broker.py:68-75 | exactly the connections with at least one pattern that matches the topic; nobody for a DEL |
| Broker.Broker.Dispatch | netfind-server/nfserver/broker.py:85-90 | each open connection's outbox holds exactly the publications it wants, in batch order, once even when several of its patterns match |
| Broker.Broker.AcceptPubDel | netfind-server/nfserver/broker.py:77-93 | for every batch: store as above; each connection other than the sender is sent one frame, the reduction of the stamped publications it wants, or none if it wants none; the sender is sent nothing; each cached message is left as stored, or merged with its group if some recipient was sent that group, and without equal keys nothing is merged |
| Broker.FrameHoldsWanted | netfind-server/nfserver/broker.py:85-93 | that frame, for every batch, is strictly sorted and holds under each key the merge of the whole group if its topic matches one of the connection's patterns, and nothing otherwise |
| Broker.FrameIsExact | netfind-server/nfserver/broker.py:85-93 | without equal keys it holds precisely the publications whose topic matches at least one of the connection's patterns, each once and unchanged |
| Broker.Broker.LoadMsgs | netfind-server/nfserver/broker.py:128-142 | the cached objects themselves in cache order, then new objects for the selected rows |
| Broker.Broker.Collect | netfind-server/nfserver/broker.py:100-114 | subscriptions change message by message, a SUB registers before it loads, and everything loaded for GETs and SUBs is collected in order |
| Answers.LoadedExactly | netfind-server/nfserver/broker.py:102-142 | what a batch loads: exactly the cached messages that some GET or SUB of it matches, and for each row that one of them selects a message with the row's fields |
| Answers.AnsweredWhenAsked | netfind-server/nfserver/broker.py:102-115 | a frame is sent exactly for a batch with a GET or a SUB |
| Answers.AnswerHolds | netfind-server/nfserver/broker.py:95-142 | the answer holds exactly the topics and values stored that the pattern of one of the GETs or SUBs finds; so a new subscriber is sent everything stored that it subscribes to |
| Answers.FrameAnswered | netfind-server/nfserver/blueprints/websocket.py:35-56 | the same of a whole frame as it was received, with the client's name filled in |
| Answers.OthersStaySubscribed | netfind-server/nfserver/broker.py:106-114 | no other connection's subscriptions change |
| Broker.Broker.AcceptGetSubUnsub | netfind-server/nfserver/broker.py:95-115 | the connection is sent the reduction of everything loaded; the cached messages are left holding the merge with what was loaded beside them; the store stays valid |
| Broker.Broker.AcceptLwt | netfind-server/nfserver/broker.py:117-126 | the last message of the batch is the connection's last will, nobody else's changes |
| Broker.LastWillWins | netfind-server/nfserver/broker.py:122-126 | the topic and value of the last message are the will; every other connection keeps its own |
| Broker.WillIsCached | netfind-server/nfserver/broker.py:56-66 | a published will is cached under its topic with its value, as RETAIN, and changes no row |
| Broker.Broker.DelConnection | netfind-server/nfserver/broker.py:43-66 | the connection leaves every subscriber set; a last will, if set, is removed and published once, as a RETAIN, to exactly the remaining subscribers |
| CacheReads.ReadKeepsCreation | netfind-server/nfserver/broker.py:95-142 | a GET or SUB leaves the creation time of a cached message alone if and only if it does not load an older row with the same topic and value |
| CacheReads.ReadChangesCreation | netfind-server/nfserver/broker.py:95-142 | a concrete failure: a value persisted at 1 and retained at 5 shows 1 after a GET |
| CacheReads.RetainedCreationOverRuns | netfind-server/nfserver/broker.py:128-182 | over every run of writes and queries without such an older row, a retained topic keeps the creation time of its first RETAIN |
| Frame.SubscribedAfter | netfind-server/nfserver/broker.py:102-114 | for any type-ordered batch: subscribed afterwards if and only if no UNSUB and (SUB or subscribed before) |
| Frame.FrameSubscriptions | netfind-server/nfserver/blueprints/websocket.py:35-56 | whatever the order of a frame, after it the connection is subscribed to p if and only if the frame has no UNSUB p and either has SUB p or found it subscribed |
| Frame.FrameSetsWill | netfind-server/nfserver/blueprints/websocket.py:35-58 | whatever the order of a frame, of its last wills the one with the greatest topic, and of those with the greatest value, is set; without one nothing changes |
| Frame.NameFills | netfind-server/nfserver/blueprints/websocket.py:37-39 | the client's name takes the place of each `@` that starts a segment, from the left |
| Frame.NameKeeps | netfind-server/nfserver/blueprints/websocket.py:37-39 | nothing but the topic changes, and that only where there is such a segment |
| FrameEffects.FrameDeletesExactly | netfind-server/nfserver/blueprints/websocket.py:35-54 | for every frame, in any order: its publications are stored first; then of each topic's DELs only the first listed removes rows (all it selects, or those with its value if it carries one), and every DEL removes the cached messages it matches; nothing else goes |
| FrameEffects.FrameDeletes | netfind-server/nfserver/blueprints/websocket.py:35-54 | a DEL with no value that is the first DEL of its topic in the frame leaves nothing matching its pattern, whatever the same frame publishes and in whatever order |
| FrameEffects.DeletesEveryValue | netfind-server/nfserver/proto/util.py:9-32 | a frame deletes every value of a topic if and only if some DEL that is the first of its topic in the frame selects it and carries no value |
| FrameEffects.DeletesInFull | netfind-server/nfserver/proto/util.py:9-32 | when the DELs of one topic are the only ones that select it: if and only if the first of them listed in the frame carries no value |
| FrameEffects.SecondDeleteIsLost | netfind-server/nfserver/proto/util.py:9-32 | a concrete failure: after `DEL /a x` a second `DEL /a`, with or without a value, does nothing, and the other rows of `/a` stay |
| FrameValues.FrameCaches | netfind-server/nfserver/blueprints/websocket.py:35-54 | for every frame, in any order and any mix of modes: with a DEL that matches the topic nothing is cached for it; otherwise, of the values published there not only to be sent, each in its greatest mode, the greatest one is cached if its mode is RETAIN and nothing is if it is not; without such values the cache is as before |
| FrameValues.FrameStores | netfind-server/nfserver/blueprints/websocket.py:35-54 | a row of the topic is stored afterwards if and only if the frame does not delete it and either publishes its value PERSIST or APPEND and no greater value PERSIST, or found it stored and publishes no other value PERSIST |
| FrameValues.FrameRetainsGreatest | netfind-server/nfserver/blueprints/websocket.py:35-54 | for every frame that publishes a topic RETAIN only, with anything else beside it: unless a DEL of the frame matches the topic, the greatest string published there is cached, and any one of the values, the last listed included, is the one cached if and only if it is that greatest one |
| FrameValues.FramePersistsGreatest | netfind-server/nfserver/blueprints/websocket.py:35-54 | the same for PERSIST, whatever rows were stored before: the greatest string is the topic's only row, unless the frame deletes that very value |
| FrameValues.LastListedIsLost | netfind-server/nfserver/blueprints/websocket.py:35-54 | a concrete failure of both: of "b" and then "a", "b" is kept |
| Frame.OrderedDistinct | netfind-server/nfserver/blueprints/websocket.py:35-44 | a frame without `/@` gives the broker a batch without equal keys, so that nothing is merged in delivery |
| Frame.Prepare | netfind-server/nfserver/blueprints/websocket.py:34-39 | reduces the frame's objects in place and fills in the client name |
| Frame.HandleFrame | netfind-server/nfserver/blueprints/websocket.py:34-58 | one pass of the receive loop, for every frame: subscriptions, last will, store, what each cached message holds after the sending, the answer to the sender and the frame sent to every other connection are those of the reduced, renamed, type-ordered frame |
| NoMissedPublish.CacheCoveredKept | netfind-server/nfserver/broker.py:84-142 | every step of every handler keeps: an open subscriber is owed no cached value without a step under way that brings it |
| NoMissedPublish.RowsCoveredKept | netfind-server/nfserver/broker.py:84-142 | the same for table rows, using that the commit precedes reading the subscribers |
| NoMissedPublish.InvOverRun | netfind-server/nfserver/broker.py:38-142 | the whole invariant holds after every interleaving of lock-level steps |
| NoMissedPublish.SettledBy | netfind-server/nfserver/broker.py:84-142 | what the model has on record of a value and a connection is an event of the run that sent it there, began it there, or failed on the way there, and nobody began to publish the value again since |
| NoMissedPublish.GotIsOnRecord | netfind-server/nfserver/broker.py:84-142 | and conversely what a connection got is on record |
| NoMissedPublish.NoMissedPublish | netfind-server/nfserver/broker.py:84-142 | after every run, from any rows stored before it, when all handlers are quiet: each open subscriber has got every value now stored on a matching topic, and got it since the last time anyone published that value there (or was the one who did); the only exception is an event of the run, since that last time, that failed while it still had this value to send to this connection, or that committed a failed batch with this value |
| NoMissedPublish.NoMissedPublishWithoutFailures | netfind-server/nfserver/broker.py:84-142 | so a connection gets each stored value for which no event failed on the way to it, whatever else failed in the run (plain patterns, topics not ending in a newline) |
| Deliveries.OnlyWhatWasAskedFor | netfind-server/nfserver/broker.py:68-142 | conversely, over every run: a value sent in a publication was queued by an earlier event for the batch its publisher had begun last, when the recipient subscribed to a pattern that matches the topic, and never for the publisher itself, unless for its last will; a value sent in an answer was found by an earlier event for a GET or SUB of that connection whose pattern matches it |
| Deliveries.SubscribedByEvents | netfind-server/nfserver/broker.py:43-50 | a connection subscribes to a pattern if and only if a SUB of it was answered, and neither an UNSUB of it nor the end of the connection came after |
| NoMissedPublish.GoneForGood | netfind-server/nfserver/broker.py:43-66 | a connection that has ended stays ended and is in no subscriber set, no last will and not connected, after every run |
| LastWills.WillLifecycle | netfind-server/nfserver/broker.py:43-66 | the will that a connection set last is stored by exactly one event of the run, after the connection took it on leaving, and that event caches exactly its topic and value; without a will set, none is ever stored for it |
| LastWills.EndsByTaking | netfind-server/nfserver/broker.py:43-66 | every connection that has ended came to take its last will |
| LastWills.WillIsRetained | netfind-server/nfserver/broker.py:56-66 | storing a will caches exactly the topic and value that were taken |
| StarvedSubscriber.FailedSendStarves | netfind-server/nfserver/broker.py:92-93 | a concrete run: one failed send ends the publisher's handler, and a second, open subscriber never gets the value although it stays stored |
| Agreement.MessageAgrees | netfind-server/nfserver/broker.py:144-198 | each message's cache step and row effect in the interleaved model are those of the atomic one, on values |
| Agreement.BatchAgrees | netfind-server/nfserver/broker.py:144-201 | the rows that an interleaved commit makes visible are those of storing the batch atomically |
| Agreement.LoadAgrees | netfind-server/nfserver/broker.py:128-142 | the two reads of an interleaved query find together exactly what loading returns |
| Alone.PublishAgrees | netfind-server/nfserver/broker.py:77-93 | a batch of publications and deletions that no other step interrupts can run to its sending, leaves the cache and the table that storing it atomically leaves, and has for each other connection exactly the values published under topics that one of its patterns matches |
| Alone.QueryAgrees | netfind-server/nfserver/broker.py:95-142 | a batch of queries that no other step interrupts runs to its end, changes the subscriptions by its SUBs and UNSUBs in order, and sends its connection exactly what a GET or SUB matches in the cache or selects in the table |
| Devdb.Devdb.Put | netfind-agent/src/devdb/devdb.c:69-138 | find or create, value and time updated, resend reset on a changed value; a signal exactly when the interval has passed |
| Devdb.PutExact | netfind-agent/src/devdb/devdb.c:69-138 | a put, field by field: which record counts as the same, what is added when there is none, what changes in the first one otherwise, and that nothing else does |
| Devdb.Devdb.Scan | netfind-agent/src/devdb/devdb_thread.c:34-71 | every due record is published, in table order, with its current value, and stamped; no other changes |
| Devdb.RecordMessage | netfind-agent/src/devdb/devdb_thread.c:47-67 | the message of a record, character by character of its topic: fixed words, network and device address in small hexadecimal digits, key, cut at 512; and its value, times and kind |
| Devdb.PutMakesDue | netfind-agent/src/devdb/devdb.c:105-132 | whatever was put is due again exactly when the interval since its last publication has passed, and a signal is only posted for a record that is due |
| Devdb.TopicInjective | netfind-agent/src/devdb/devdb_thread.c:48-57 | up to 512 characters the topic determines both addresses and the key |
| DevdbRuns.ScanHLogsMsgs | netfind-agent/src/devdb/devdb_thread.c:59-67 | the publication history records exactly the messages handed to the send queue |
| DevdbRuns.SentMeansCurrent | netfind-agent/src/devdb/devdb.c:105-132 | over every run of puts and scans, a record stamped as sent was last published with the value it has now: no update is lost |
| DevdbRuns.ScanPublishesAll | netfind-agent/src/devdb/devdb_thread.c:34-71 | after every scan each record's last published value is its current one |
| DevdbRuns.ScanPublishesExactly | netfind-agent/src/devdb/devdb_thread.c:38-46 | over every run, a scan publishes a record if and only if its present value was not published yet, or its last publication is at least 20000 ms back and not later than its last put |
| DevdbRuns.ResendNeedsPut | netfind-agent/src/devdb/devdb_thread.c:43-45 | over every run, of two publications of one record the later has a put of the record behind it, at a time not before the earlier: what is not put is not sent for ever |
| DevdbRuns.ResendsAreSpaced | netfind-agent/src/devdb/devdb_thread.c:40-45 | two publications of one record with no change of value between them are at least 20000 ms apart |
| AgentQueue.Conn.Unsub | netfind-agent/src/conn/conn_msg.c:80-97 | removes the first registration of the pair and sends an UNSUB, or changes nothing when there is none |
| AgentQueue.Conn.WsSend | netfind-agent/src/conn/conn_ws.c:5-74 | takes the whole queue; on success the frame is the queue; a failed encoding drops it; a failed send puts it back behind what was enqueued meanwhile |
| AgentQueue.WsSendIsSteps | netfind-agent/src/conn/conn_ws.c:8-73 | one call of the sender is a take, an enqueue for each message added meanwhile, and an outcome: both leave the same messages in the queue, in the same order |
| AgentQueue.Conserved | netfind-agent/src/conn/conn_ws.c:8-73 | over every interleaving of producers and sender, each message is exactly once queued, in flight, sent, or dropped by a failed encoding |
| AgentQueue.InOrder | netfind-agent/src/conn/conn_ws.c:58-73 | with encoding succeeding, messages leave in enqueue order if and only if no send failed while newer messages were queued |
| AgentQueue.FailedSendReorders | netfind-agent/src/conn/conn_ws.c:58-73 | a concrete failure: a message enqueued during a failed send leaves before the older one |
| AgentQueue.FirstInFirstOut | netfind-agent/src/conn/conn_msg.c:23-25 | then what was sent, is in flight and is queued is, in that order, exactly the enqueued sequence |
| Convergence.OrderedAppended | netfind-server/nfserver/blueprints/websocket.py:35-44 | reduction and renaming of a frame of appended messages keep exactly their (topic, value) pairs with the client's name filled in, whatever the topics |
| Convergence.SaveAppended | netfind-server/nfserver/broker.py:162-182 | storing a batch of APPENDs adds exactly its (topic, value) pairs: idempotent and indifferent to order and repetition |
| Convergence.StoredPairs | netfind-server/nfserver/broker.py:144-201 | what the server stores of such a frame: exactly the named pairs of its valid messages |
| Convergence.StepKeeps | netfind-agent/src/conn/conn_ws.c:8-73 | every put of any key, scan, take, send, failed send and received frame keeps: each stamped record whose message is valid is stored or still under way, and nothing else is |
| Convergence.Converges | netfind-agent/src/devdb/devdb_thread.c:39-70 | for every schedule, from any valid store and for appended records under any keys: once all records have been stamped and queue and network are drained, the pairs on the server are exactly those it started with and, of each record whose message passes the validity check, the pair with the client's name filled in |
| Convergence.ScannedIsStamped | netfind-agent/src/devdb/devdb_thread.c:39-70 | a record that was scanned once past the resend interval is stamped ever after |
| Convergence.ScannedThenDrained | netfind-agent/src/devdb/devdb_thread.c:39-70 | so a full scan and a drained queue and network are enough, whatever else the schedule did in between |
| Convergence.EveryPutArrives | netfind-agent/src/devdb/devdb.c:69-138 | in terms of the events alone: after such a run the server holds, beside what it started with, the named pair of every entry that was put and whose message it accepts, and nothing else |
| Convergence.OwnPairInImage | netfind-server/nfserver/proto/model.py:41-82 | a record's own pair is in that image if and only if its message is valid and holds no `/@` (or the client's name is "@"), or another record is stored under that very pair |
| Convergence.NameLeavesTopic | netfind-server/nfserver/blueprints/websocket.py:37-39 | filling in the name leaves a topic alone if and only if it holds no `/@` or the name is "@" |
| Convergence.KeysThatDoNotArrive | netfind-agent/src/module/ethcap/layer5/mdns.c:191-201 | concrete failures: a service label with `/+` in it gives a key that the server never stores, one with `/@` a key stored under another topic |
| Convergence.ImageIsFaithful | netfind-agent/src/devdb/devdb_thread.c:48-57 | different records whose topics fit the buffer have different (topic, value) pairs, and are stored under different pairs unless one holds `/@` |
| Cursor.Dcpy.Get8 | netfind-agent/src/utils/dcpy.c:23-29 | the next byte, or zero with the cursor emptied and marked out of bounds |
| Cursor.Dcpy.Get | netfind-agent/src/utils/dcpy.c:31-38 | all bytes asked for or none |
| Cursor.Dcpy.PutBytes | netfind-agent/src/utils/dcpy.c:49-56 | appends to what was written if it fits, otherwise leaves it and marks the overrun |
| Cursor.Dcpy.CopyFrom | netfind-agent/src/utils/dcpy.c:66-73 | an overrun of the source leaves the output alone; an overrun of the output does not keep the source from advancing |
| Cursor.ReadsExactly | netfind-agent/src/utils/dcpy.c:5-38 | what fits is passed over, with bytes and big-endian words read from where the cursor stands; what does not fit moves nothing, reads as zero, empties the cursor and marks it |
| Cursor.WritesExactly | netfind-agent/src/utils/dcpy.c:40-56 | what fits is added to the output; what does not adds nothing, takes all room and marks it |
| Names.SkipNameAt | netfind-agent/src/module/ethcap/layer5/mdns.c:127-140 | terminates on every buffer and leaves the cursor where the skip function says |
| Names.SkipsByTopBits | netfind-agent/src/module/ethcap/layer5/mdns.c:127-140 | a zero byte ends a name, a byte with either top bit set is a pointer of two bytes, any other is the length of a label |
| Names.PointerLeadsTo | netfind-agent/src/module/ethcap/layer5/mdns.c:152-158 | a pointer leads to the place in its lower 14 bits |
| Names.DottedText | netfind-agent/src/module/ethcap/layer5/mdns.c:146-151 | labels are set apart by the character `.`, and a NUL ends the text |
| Names.ReadName | netfind-agent/src/module/ethcap/layer5/mdns.c:142-163 | terminates by (hops left, bytes left); leaves the source exactly where skipping the name would, whatever the output does; the output is the read function's |
| Names.BackwardResolves | netfind-agent/src/module/ethcap/layer5/mdns.c:152-159 | pointers that lead strictly before the segment they end (section 4.1.4 of RFC 1035) are always followed to an end |
| Names.EndsExactly | netfind-agent/src/module/ethcap/layer5/mdns.c:142-163 | reading a name ends, with every pointer inside the packet, if and only if a test says so that follows at most as many pointers as the packet has bytes, and one more |
| Names.TargetsDiffer | netfind-agent/src/module/ethcap/layer5/mdns.c:152-159 | on a name that ends, no two pointers lead to one place, and fewer pointers follow from each place than before it |
| Names.HopsDoNotMatter | netfind-agent/src/module/ethcap/layer5/mdns.c:142-163 | what is read does not depend on how many pointers the test allows |
| Names.PointerOutside | netfind-agent/src/module/ethcap/layer5/mdns.c:152-159 | a concrete failure: a pointer past the end of the packet cannot be followed |
| Names.SelfPointerNeverResolves | netfind-agent/src/module/ethcap/layer5/mdns.c:152-159 | a concrete failure: a pointer to itself is followed without end, for any number of hops |
| Names.OutHoldsText | netfind-agent/src/module/ethcap/layer5/mdns.c:142-163 | for any name: the output overruns if and only if the whole text does not fit, and otherwise holds exactly the text |
| Names.TextIsJoinedLabels | netfind-agent/src/module/ethcap/layer5/mdns.c:149-151 | the text is the dot-joined label list and a NUL if and only if every pointer that follows a label leads to a non-empty name |
| Names.ReadNameCorrect | netfind-agent/src/module/ethcap/layer5/mdns.c:142-163 | together: with backward pointers to non-empty names, reading ends, `oob` holds if and only if the joined labels and NUL do not fit, and otherwise they are the output |
| Mdns.ReadRecord | netfind-agent/src/module/ethcap/layer5/mdns.c:81-123 | one record: handed on with its name and own slice, or passed over when the name overruns its buffer; the cursor ends after the record either way |
| Mdns.WalkRecords | netfind-agent/src/module/ethcap/layer5/mdns.c:77-124 | the loop computes the walk function: every record up to the count or the end of the packet |
| Mdns.Mdns | netfind-agent/src/module/ethcap/layer5/mdns.c:43-125 | answers None if and only if the packet is shorter than 12 bytes or the top bit of its third byte is clear; otherwise queries are skipped and the records walked |
| Mdns.OnlyResponses | netfind-agent/src/module/ethcap/layer5/mdns.c:43-48 | the same of the walk function: a query hands on nothing, whatever records it carries |
| Mdns.ReadableExactly | netfind-agent/src/module/ethcap/layer5/mdns.c:77-124 | all names that the walk reads come to an end if and only if the bounded test says so of each, and what is visited is then the same for any bound |
| MdnsFraming.NameSkipped | netfind-agent/src/module/ethcap/layer5/mdns.c:127-140 | a written name, compressed or not, is skipped to exactly its end |
| MdnsFraming.NameRead | netfind-agent/src/module/ethcap/layer5/mdns.c:142-163 | reading a written name gives back its labels followed by those of the name pointed to |
| MdnsFraming.RecordVisited | netfind-agent/src/module/ethcap/layer5/mdns.c:81-118 | a written record is visited with its dotted name, type and body, unless the name is longer than its buffer |
| MdnsFraming.VisitsEveryRecord | netfind-agent/src/module/ethcap/layer5/mdns.c:43-125 | on every well-formed response whose pointers can be followed the walk visits exactly its records, in order: framing never drifts, even when a name overruns its buffer; of a well-formed query it visits nothing |
| MdnsFraming.RecordCutOff | netfind-agent/src/module/ethcap/layer5/mdns.c:95-123 | a record that the end of the packet cuts off inside its body is handed on with what is there, and ends the walk |
| MdnsFraming.WrittenIsRead | netfind-agent/src/module/ethcap/layer5/mdns.c:142-163 | a name written out, or ending in a pointer to such a name at an earlier place (section 4.1.4 of RFC 1035), can be followed, and reading it gives its full labels |
| MdnsFraming.VisitsCompressed | netfind-agent/src/module/ethcap/layer5/mdns.c:43-125 | end to end: on every well-formed response compressed that way the walk visits exactly its records, in order, each under its full dotted name, but for names whose text exceeds 128 bytes; of a query, nothing |
| Split.PartsJoined | netfind-agent/src/netfind_utils.c:48-60 | the parts joined by the delimiter are the string again |
| Split.PartsAreFree | netfind-agent/src/netfind_utils.c:48-60 | at most `max` parts; only the last may hold the delimiter, and only when there was no room for more |
| Split.JoinedParts | netfind-agent/src/netfind_utils.c:48-60 | parts without the delimiter are recovered from their joining, the surplus ones joined in the last |
| Split.StrSplit | netfind-agent/src/netfind_utils.c:48-60 | in place: each returned place is the start of a NUL-terminated string equal to the corresponding part; nothing after the string changes |
| Services.NameSplit | netfind-agent/src/module/ethcap/layer5/mdns.c:165-189 | which labels are instance, service, protocol and suffix, for names of three, four, five and more labels, and that nothing is read from a shorter name or one whose protocol is neither `_tcp` nor `_udp` |
| Services.SplitNameInPlace | netfind-agent/src/module/ethcap/layer5/mdns.c:165-189 | the places found are those of the parts that the split name function names |
| Services.ReadTxt | netfind-agent/src/module/ethcap/layer5/mdns.c:300-318 | the loop collects the pairs of the TXT function: empty strings passed over, strings without `=` ignored, a cut-off string ends it |
| Services.PairExactly | netfind-agent/src/module/ethcap/layer5/mdns.c:308-316 | a TXT string gives a pair if and only if it holds a `=` before any NUL: the first one ends the key, and the value goes on to the NUL or the end |
| Services.AnyTxtIsRead | netfind-agent/src/module/ethcap/layer5/mdns.c:300-318 | on any bytes, taken as whole strings and perhaps one that is cut off: the pairs of the whole strings are put in order, and nothing of the one cut off |
| Services.TxtRoundTrip | netfind-agent/src/module/ethcap/layer5/mdns.c:300-318 | key/value pairs written as a TXT record (section 6.4 of RFC 6763) are read back, in order |
| IpText.FindRun | netfind-agent/src/netfind_types.c:28-41 | the run left out is the first longest run of zero groups, of length at least two, or nothing (sections 4.2.2 and 4.2.3 of RFC 5952) |
| IpText.BestRunIsUnique | netfind-agent/src/netfind_types.c:28-41 | there is only one such run |
| IpText.TextWritten | netfind-agent/src/netfind_types.c:43-54 | the writing loop's pieces are the groups before and after the run around `::` |
| IpText.TextRoundTrip | netfind-agent/src/netfind_types.c:26-56 | an independent parser of the forms of section 2.2 of RFC 4291 recovers every address from its text |
| IpText.TextLength | netfind-agent/src/netfind_types.c:26-56 | the text never exceeds 39 characters |
| IpText.TextIsInjective | netfind-agent/src/netfind_types.c:26-56 | different addresses have different texts |
| IpText.Ip62Str | netfind-agent/src/netfind_types.c:26-56 | in the caller's buffer: the text around the best run and a NUL |
| IpText.Mac2Str | netfind-agent/src/netfind_types.c:11-19 | in the caller's buffer: the six bytes as hexadecimal pairs with the separator between them, and a NUL |
| Bytes.BytesTextInjective | netfind-agent/src/netfind_types.c:11-19 | addresses of one length have different texts |
| Bytes.BytesTextAt | netfind-agent/src/netfind_types.c:11-19 | each byte stands in the text as two small hexadecimal digits, the high one first, with the separator before every byte but the first |
| Prefix.CidrOfMask | netfind-agent/src/netfind_types.c:114-128 | on every contiguous mask the sum is the prefix length |
| Prefix.NfMaskCidr | netfind-agent/src/netfind_types.c:114-128 | the nested loops compute that sum, for any mask |
| Prefix.MaskedNumber | netfind-agent/src/netfind_types.c:83-87 | masking an address, as a big-endian number, rounds it down to a multiple of 2^(bits - prefix) |
| Prefix.SameSubnet | netfind-agent/src/netfind_types.c:83-108 | two addresses are equal under a prefix mask if and only if their numbers divided by 2^(bits - prefix) are |
| Networks.CmpZero | netfind-agent/src/netfind_types.c:104-108 | the comparison is zero if and only if length and bytes agree |
| Networks.Initialize | netfind-agent/src/module/ethcap/ethcap_network.c:5-28 | for any mask: ignored if and only if its last byte is all ones; otherwise the network address is the masked address and the length is the one computed from the mask |
| Networks.PrefixNetwork | netfind-agent/src/module/ethcap/ethcap_network.c:5-28 | with a contiguous mask: host addresses and only those are ignored, the length is the prefix length, and the addresses of the network are those equal to its own before the host bits |
| Networks.IsCapLocal | netfind-agent/src/module/ethcap/ethcap_network.c:160-188 | local if and only if some network of the same family has the source in its subnet under its mask, or the gateway is not the sender, or this host not the receiver |
| Networks.FindMacs | netfind-agent/src/module/ethcap/ethcap_network.c:34-63 | success exactly when one interface address and, among networks that have one, one gateway address occur; each failure says what occurred instead |
| Networks.CopyMac | netfind-agent/src/module/ethcap/ethcap_network.c:30-73 | only on success are missing addresses filled in, and nothing else changes |
| Networks.OutcomeIsDetermined | netfind-agent/src/module/ethcap/ethcap_network.c:34-63 | the addresses decide the outcome, except which of two ambiguities is reported |
| Networks.FilledMacs | netfind-agent/src/module/ethcap/ethcap_network.c:65-72 | afterwards all interface addresses agree; all gateway addresses agree if and only if no network without an interface address had another gateway |
| Networks.OtherGatewayIsKept | netfind-agent/src/module/ethcap/ethcap_network.c:65-72 | a concrete failure: such a network keeps its own gateway |
| Dhcp.PutIpAddrs | netfind-agent/src/module/ethcap/layer5/dhcp.c:41-59 | every whole group of four bytes, in order |
| Dhcp.Options | netfind-agent/src/module/ethcap/layer5/dhcp.c:111-181 | on any bytes that the loop does not read past, and with no text too long for its buffer, it puts what the loop function says: lengths counted in 32 bits, fixed parts read whatever the length says, the FQDN length in 8 bits |
| Dhcp.WellFormedIsRead | netfind-agent/src/module/ethcap/layer5/dhcp.c:111-181 | on every well-formed, terminated option list, with Pads in pairs, that is exactly what the options up to the first NAK say, although the FQDN option is not counted whole |
| Dhcp.KindsOfTheStandard | netfind-agent/src/module/ethcap/layer5/dhcp.c:5-19 | the option numbers by section 3, 8 and 9 of RFC 2132 and section 2 of RFC 4702: which hold addresses, four bytes each, which a text, which the lease time, and that a message type of 6 is a NAK |
| Dhcp.CTextIs | netfind-agent/src/module/ethcap/layer5/dhcp.c:68-77 | a text is the body as far as its first NUL |
| Dhcp.ListEndsExactly | netfind-agent/src/module/ethcap/layer5/dhcp.c:114-116 | on any bytes: where the count says that nothing is left, or less than the option's length, the list ends and nothing more is put |
| Dhcp.LeaseTimeTakesFour | netfind-agent/src/module/ethcap/layer5/dhcp.c:147-156 | on any bytes: a lease time reads four bytes whatever its length, by which the loop then moves on |
| Dhcp.NameTakesThreeMore | netfind-agent/src/module/ethcap/layer5/dhcp.c:175-178 | on any bytes: the FQDN option skips three bytes and reads its length less three, modulo 256, of which alone it is counted |
| Dhcp.OthersTakeTheirLength | netfind-agent/src/module/ethcap/layer5/dhcp.c:118-173 | on any bytes: what every other option reads and puts, with the one text length that has no room for its NUL |
| Dhcp.SinglePadHides | netfind-agent/src/module/ethcap/layer5/dhcp.c:114-116 | a concrete failure: after a single Pad the next option is not put; after two it is |
| Dhcp.LeaseTimeReadsOn | netfind-agent/src/module/ethcap/layer5/dhcp.c:147-156 | a failure, before any well-formed list: a lease time without a body puts the list's first four bytes, and the list is put all the same |
| Dhcp.NameIsNotCountedWhole | netfind-agent/src/module/ethcap/layer5/dhcp.c:175-178 | a concrete failure: an option longer than what is left ends the list, but behind an FQDN option it is read past the end |
| Dhcp.NakStops | netfind-agent/src/module/ethcap/layer5/dhcp.c:158-162 | a message with a NAK puts only what stands before it |

## Left out

- Broker.Broker.DelConnection: sends to remaining subscribers succeed in this model; failures are in `Interleaving`.
- Convergence.Converges: for appended records only, which is how every call in the agent publishes; a replacing record would need the frame order that `FramePersistsGreatest` shows is not kept.
- NoMissedPublish.NoMissedPublish: values and recipients are exact; `created_at` and `updated_at` are not part of the interleaved model, and the order of sends is not either, since the code does not synchronise it.
- Names.ReadName: for names that `EndsExactly` accepts; on others the code reads outside the packet or recurses without end, and no result is claimed.
- Dhcp.Options: what the code does once it reads past the end of the options or overruns its text buffer.
- Services.ReadTxt: the pairs are given as bytes; formatting the record key into a buffer of 128 is left out.
- WebSocket and curl transport, reconnection, and the protobuf encodings: a frame is a list of messages, and a send succeeds or fails.
- Packet capture, adapter, route and ARP discovery, the Ethernet, ARP, IP, IGMP, TCP and UDP handlers, and the A, AAAA, PTR and SRV record handlers: foreign calls or short header checks.
- The waiting and throttling part of the record thread's loop (semaphore and sleep): only when a scan runs is nondeterministic here; the scan is modelled whole.
- DEL propagation to subscribers: matching a pattern against a pattern is an open item in the code and answers no.
- Regular expressions and SQL beyond the forms these patterns produce.
- Dictionary iteration order of the outboxes: `SendQueue.Send` takes them in any order.
- The request context, authentication, logging, write-ahead-log checkpoints, module and option bookkeeping.
- Freeing and copying C strings and list nodes, thread cancellation; lists are sequences or heap objects.
- Little-endian host layout is assumed where the code reads a flag byte of a header word.
- The decimal text of IPv4 addresses and the choice between the two families: short formatting code.
