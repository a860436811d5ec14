# Verification of the chat service

A Dafny model of a chat service that keeps its state in ScyllaDB and Redis, with proofs about that
model. There are no transactions: one request sends several statements, each of which may fail,
time out after taking effect, or be the last one before a crash, and other requests run in between.
The theorems say what nevertheless holds, and lemmas with concrete states show where it does not.

`dafny verify dfyconfig.toml` checks everything.

## What is modelled

Two levels, sharing the same statements and the same decision functions.

*Sequential.* The repositories, the cache, the limiter and the service are classes whose fields are
the tables and hashes; the loaded conversation and the loaded message are classes too. Their methods
send statements one at a time. Each statement has a fate: done, refused, or timed out (it took effect
and the caller saw an error). A request that stops early is, to the store, one whose next statement
was refused. A method's `ensures` gives its exact answer and the new tables for every combination of
fates. `ServiceSpec` states answers and effects of the service as functions of the old state; each
writing method is proved to be one `Apply` of `ServiceRuns`, which proves what holds after every
sequence of such calls.

*Laws.* Those functions and the methods share definitions. `MessageLaws`, `ConversationLaws` and
`RunLaws` say what the calls and their sequences do without them: who may call, what each answer
carries, which columns, entries, index pairs, counters and events change and that nothing else does,
in the words of `Terms` and with the limits as numbers. The pages are characterised in the same way,
row by row (`PageHasRows`, `PageHasConversations`).

*Interleaved.* `DirectChat`, `GroupCap`, `MembershipRuns` and `MessageRuns` are step relations: any
number of calls, a step per statement, in any order; in `DirectChat` and `MessageRuns` any statement
may fail. `ConversationStore` runs scripts of statements cut off at any point. `MessageWalk` and
`ConversationWalk` put the requests of a client that pages through a list at arbitrary points of
such runs.

| file | what it models |
|---|---|
| Basics.dfy | optional values, errors, fates, the byte order on identifiers |
| Paging.dfy | what a page is, both ways of computing one, walks from page to page |
| TextKeys.dfy | page cursors as text, the lookup key of a direct chat |
| Conversation.dfy | conversation rows, the loaded conversation, the two constructors |
| ConversationStore.dfy | the four conversation tables, the scripts of the operations, agreement and repair |
| ConversationRepo.dfy | the conversation repository |
| DirectChat.dfy | concurrent creation of direct chats |
| GroupCap.dfy | the size limit of a group under concurrent adds, removals and read receipts |
| MembershipRuns.dfy | the participants and both indexes of a group under concurrent adds, removals and read receipts |
| Reactions.dfy | the reaction list as a bounded set of pairs |
| Messages.dfy | messages, their flat rows, the loaded message |
| MessageStore.dfy, MessageRepo.dfy | the two message tables and their repository |
| MessageRuns.dfy | sends, edits, deletions, reactions and receipts, interleaved |
| MessageWalk.dfy | paging through a conversation during such a run |
| ActivityWalk.dfy | paging through a list whose sort keys change, and when a walk can repeat an entry |
| ConversationWalk.dfy | paging through the conversations of a user during any run of statements |
| RateLimiter.dfy | the renewed counter of the rate limiter |
| Unread.dfy | unread counters against the history of sends and reads |
| ServiceSpec.dfy | what each service call answers and leaves behind, as functions of state and fates |
| ServiceRuns.dfy | whole sequences of service calls |
| ChatService.dfy | the service methods, proved against ServiceSpec |
| Terms.dfy | the words of the laws: list entries, rows, columns |
| MessageLaws.dfy, ConversationLaws.dfy | what single calls do, said of table contents |
| RunLaws.dfy | what sequences of calls come to, said of requests and answers |

Identifiers, texts and sizes are counted in bytes; a `string` is a sequence of bytes. Times are
integers: nanoseconds in messages, milliseconds in message keys and in the limiter.

The environment is stated as preconditions: new ids are new, the clock of one user's calls does not
run backwards, and the time codec of a cursor parses what it formats and emits no `|`
(section 5.6 of RFC 3339).

## Where the code falls short of what one might expect

- The comment at `internal/adapter/cache/rate_limiter.go:14` speaks of 60 messages per window. The
  expiry is renewed by every call, refused ones included, so the code is stricter: after 60 calls
  with gaps under a minute everything is refused until a minute of silence (`AllowedIff`).
- A direct key can stay claimed with no conversation behind it; from then on no call for that pair
  succeeds (`OrphanIsReachable`, `OrphanedKeyNeverSucceeds`). `OrphanArisesIff` says at which steps
  that happens: the claim itself timing out, or the row after it being refused.
- `AddParticipant` cut off after its first write leaves the user in the participants and the service
  refuses to run it again; `CutOffAdd` says which cut a later `Update` repairs.
- The limit of 50 and the distinctness of a group's users hold while every write of the participants
  is based on the users the row still names (`CapWithConcurrency`, `SequentialCap`); taking turns
  between reading and writing is enough for that (`TurnsMakeFresh`). Otherwise a read receipt of a
  full group that is overtaken by a removal breaks both with a single add in flight
  (`StaleReceiptBreaksCap`), and repeating that lets any group grow to any size (`NoBound`).
- Participants and indexes of a group can come apart without any failure. The two indexes do exactly
  when an add and a removal of one user overlap in their index writes (`DisagreementIff`), which
  nothing prevents (`CrossingIsReachable`); the list departs from them exactly when a call about
  somebody else writes back a list that says something else about the user (`StoreKeepsAgreementIff`,
  `StaleReceiptSplits`). Otherwise all three agree on every user nobody is adding or removing
  (`AllThreeAgree`).
- An edit that read a message before it was deleted brings it back, and nothing else does
  (`DeletionLostIff`); every text message can be brought back that way (`EditBringsBack`).
- A client paging through its conversations can get one twice. Some walk does exactly when, between
  two moments, the activity time goes down of a conversation that is not the last of the user's list
  (`ConversationWalkRepeatsIff`). Two sends whose last-message writes arrive in the other order lower
  it (`OvertakenWriteLowers`).
- A group may start with a single member: the size test counts the list as sent (`GroupOfOne`).
- Users or ids containing the separator: `CollisionIff` says when two pairs share a direct key, and a
  cursor whose id has a bar does not survive (`CursorRoundTrip`).
- A participant listed twice is counted twice per message (`SendAddsOneIff`).

## Model

| member | source | states |
|---|---|---|
| Basics.LessIff | internal/domain/conversation.go:77-79 | the order on ids is that of dictionaries on bytes: a proper prefix first, otherwise the first difference decides |
| Paging.NormalizeLimit | internal/domain/cursor.go:30-38 | a positive limit becomes the nearest one between 1 and 100, any other becomes 50 |
| Paging.PageUnique | internal/adapter/repository/message_repo.go:207-294 | the abstract page (items, flag, next cursor) of a set of keys below a cursor is unique, so the definition leaves an implementation no choice |
| Paging.SliceIsPage | internal/adapter/repository/conversation_repo.go:296-326 | cutting the sorted list at the first key below the cursor gives the abstract page |
| Paging.ExtraRowIsPage | internal/adapter/repository/message_repo.go:208-293 | reading one row too many and dropping it gives the abstract page |
| Paging.BothPagesAgree | internal/adapter/repository/conversation_repo.go:288-326 | both computations give the same items, flag and next cursor on every sorted list, cursor (matching a key or not) and limit |
| Paging.SelectNewest | internal/adapter/repository/message_repo.go:215-246 | what the clustering order and LIMIT of the store deliver: the newest n keys below the cursor |
| Paging.WalkDescends | internal/adapter/repository/message_repo.go:207-294 | whatever is written between requests, a walk goes strictly down and returns no key twice |
| Paging.WalkReturnsEveryStableKey | internal/adapter/repository/message_repo.go:207-294 | a key present at every request of a completed walk is returned |
| Paging.RemainingShrinks | internal/adapter/repository/message_repo.go:281-293 | with no writes below the cursor, each page takes a full limit off what is left |
| Paging.WalkTerminates | internal/adapter/repository/message_repo.go:207-294 | a walk of n requests needs more than (n - 1) * limit keys to have been stored at its start |
| Paging.MessageWalk | internal/adapter/repository/message_repo.go:207-294 | if rows are only added, a completed walk returns all that was stored at its start and nothing that was never stored |
| Paging.StableWalk | internal/adapter/repository/conversation_repo.go:256-327 | on unchanging data the pages concatenate to the whole sorted list |
| Paging.StableWalkLength | internal/adapter/repository/conversation_repo.go:256-327 | and there are ceil(n / limit) of them, but at least one |
| TextKeys.DecodeCursorLoop | internal/adapter/handler/chat_handler.go:648-662 | the backward scan splits at the last bar: the decoded id is the text after it and has no bar itself, and text without a bar decodes to nothing |
| TextKeys.CursorRoundTrip | internal/adapter/handler/chat_handler.go:644-662 | a cursor survives encoding and decoding if and only if its id has no bar |
| TextKeys.DirectKeySymmetric | internal/domain/conversation.go:228-233 | the key does not depend on who asks |
| TextKeys.DirectKeyInjective | internal/adapter/repository/conversation_repo.go:114-117 | without colons, keys are equal if and only if the unordered pairs are |
| TextKeys.CollisionIff | internal/adapter/repository/conversation_repo.go:114-117 | some other pair shares the key of two users if and only if a colon of the key splits it into two texts in byte order that are not those two users |
| TextKeys.DirectKeyCollision | internal/adapter/repository/conversation_repo.go:114-117 | two different pairs with colons that share a key |
| Conversations.WithoutMembers | internal/adapter/repository/conversation_repo.go:475-481 | the filter removes exactly that user, keeps distinctness, and changes nothing when the user is absent |
| Conversations.Conversation.HasMember | internal/domain/conversation.go:138-145 | the loop answers membership in the set of participants |
| Conversations.Conversation.IsAdmin | internal/domain/conversation.go:148-155 | the loop answers whether some entry of the user has the admin role |
| Conversations.Conversation.AddParticipant | internal/domain/conversation.go:158-175 | the exact error of every case; an error changes nothing, success appends one member |
| Conversations.Conversation.RemoveParticipant | internal/domain/conversation.go:178-190 | the exact error of every case; success takes out the first entry of the user and, with distinct users, equals the repository's filter |
| Conversations.DirectConversationIsSymmetric | internal/domain/conversation.go:69-88 | whoever of the two asks, the participants are the two users in the same order and claim the same key |
| Conversations.FirstAppearancesAreASet | internal/domain/conversation.go:112-124 | deduplication keeps every user named, once |
| Conversations.NewGroupConversation | internal/domain/conversation.go:91-135 | the exact refusal of every case; otherwise the members are the first appearances of creator and list, distinct, at most 50, the creator the only admin |
| Conversations.GroupOfOne | internal/domain/conversation.go:98-124 | a creator who lists themselves twice gets a group of one |
| ConversationStore.InsertPrefix | internal/adapter/repository/conversation_repo.go:165-181 | any prefix of the index inserts has put some users into the forward index and a subset of those into the reverse one; the whole has put all into both |
| ConversationStore.DeletePrefix | internal/adapter/repository/conversation_repo.go:184-200 | the same for deletions |
| ConversationStore.UpdatePrefix | internal/adapter/repository/conversation_repo.go:353-408 | the tables after any prefix of an Update |
| ConversationStore.SentIsPrefix | internal/adapter/repository/conversation_repo.go:121-492 | statements sent one by one with any fates leave what a prefix of the script leaves, the whole script if nothing failed |
| ConversationStore.AttemptKeepsRepairable | internal/adapter/repository/conversation_repo.go:353-408 | an Update cut off anywhere keeps: wanted users in the reverse index are in the forward index, unwanted ones in the forward index are in the reverse index |
| ConversationStore.FinishedUpdateAgreesIff | internal/adapter/repository/conversation_repo.go:353-408 | a finished Update brings participants and both indexes together if and only if the state it began in was repairable |
| ConversationStore.UpdateConverges | internal/adapter/repository/conversation_repo.go:353-408 | from agreement, any number of cut-off attempts and one finished attempt, in any order of the maps, end with all three equal to the new set and every other conversation untouched |
| ConversationStore.FinishedRemovalAgreesIff | internal/adapter/repository/conversation_repo.go:469-492 | a finished removal ends in agreement if and only if everybody but the removed user agreed before |
| ConversationStore.RemoveConverges | internal/adapter/repository/conversation_repo.go:469-492 | removals cut off anywhere and then run to the end restore agreement, without the user |
| ConversationStore.CutOffAdd | internal/adapter/repository/conversation_repo.go:448-465 | exactly which cut of an add leaves disagreement, and exactly which of those a later Update repairs |
| ConversationStore.CreateRun | internal/adapter/repository/conversation_repo.go:121-161 | the tables after a complete Create whose key was free |
| ConversationStore.OperationKeepsAgreement | internal/adapter/repository/conversation_repo.go:121-492 | each of the six operations, uncut, keeps all conversations in agreement |
| ConversationStore.RunKeepsAgreement | internal/adapter/repository/conversation_repo.go:121-492 | so does every failure-free run of them |
| ConversationStore.RunsAgree | internal/adapter/repository/conversation_repo.go:121-492 | after every such run on empty tables, u is a participant of c iff c is in the forward index of u iff u is in the reverse index of c |
| ConversationRepository.ConversationRepo.InsertParticipantIndexes | internal/adapter/repository/conversation_repo.go:165-181 | for all fates, what the pair of inserts leaves behind, and success exactly if both were done |
| ConversationRepository.ConversationRepo.DeleteParticipantIndexes | internal/adapter/repository/conversation_repo.go:184-200 | for all fates, what the pair of deletions leaves behind, and success exactly if both were done |
| ConversationRepository.ConversationRepo.GetParticipantIds | internal/adapter/repository/conversation_repo.go:203-218 | the scan loop collects a user if and only if the reverse index has the pair; a failed read is an error |
| ConversationRepository.ConversationRepo.FindDirectChat | internal/adapter/repository/conversation_repo.go:331-346 | the conversation that claimed the pair's key; a claim without a row is not found |
| ConversationRepository.ConversationRepo.Create | internal/adapter/repository/conversation_repo.go:121-161 | for all fates, exact answer and tables: a taken key writes nothing, otherwise the statements of the script take effect up to the first that fails |
| ConversationRepository.ConversationRepo.Update | internal/adapter/repository/conversation_repo.go:353-408 | for all fates the call is the attempt of UpdateConverges cut at exactly the statement that failed, a finished one if and only if it reports success |
| ConversationRepository.ConversationRepo.UpdateLastMessage | internal/adapter/repository/conversation_repo.go:412-417 | last message and activity time change together, every other column stays, and no agreement between participants and indexes is made or lost, also when the row did not exist |
| ConversationRepository.ConversationRepo.UpdateReadCursor | internal/adapter/repository/conversation_repo.go:421-444 | for all fates, exact answer and tables: only the first entry of the user is marked; nothing is written for a stranger |
| ConversationRepository.ConversationRepo.AddParticipant | internal/adapter/repository/conversation_repo.go:448-465 | for all fates, exact answer and tables: those of an add cut off at exactly the statement that failed |
| ConversationRepository.ConversationRepo.RemoveParticipant | internal/adapter/repository/conversation_repo.go:469-492 | for all fates, exact answer and tables: those of a removal cut off at exactly the statement that failed |
| ConversationRepository.ConversationRepo.ListConversations | internal/adapter/repository/conversation_repo.go:258-286 | the rows of exactly the user's conversations, each once, stale index entries skipped; an error if and only if one of its reads fails |
| ConversationRepository.SortByActivity | internal/adapter/repository/conversation_repo.go:288-294 | the same rows, strictly descending by activity time and id |
| ConversationRepository.FindStart | internal/adapter/repository/conversation_repo.go:296-308 | the first key below the cursor, or the end of the list |
| ConversationRepository.CutPage | internal/adapter/repository/conversation_repo.go:310-326 | the slice is the abstract page of the listed keys |
| ConversationRepository.PageHasConversations | internal/adapter/repository/conversation_repo.go:256-327 | of all conversations the user is indexed for that have a row and come after the cursor, the page has the most recent, in that order and whole; one is left over if and only if the page says there is more |
| ConversationRepository.ConversationRepo.FindByUser | internal/adapter/repository/conversation_repo.go:256-327 | the abstract page of the user's conversations, with the stored rows, and all PageHasConversations says; an error if and only if one of its reads fails |
| DirectChat.StepKeepsInv | internal/adapter/repository/conversation_repo.go:121-161 | every step of every call keeps: a claim belongs to the conversation made for that pair, a direct row has its claim, one call writes under one id, and claims and rows never go away |
| DirectChat.RunKeepsInv | internal/service/create_conversation.go:24-41 | so does every interleaving |
| DirectChat.OneConversationPerPair | internal/service/create_conversation.go:24-41 | in every interleaving of any number of calls with any failures, two direct rows made for the same unordered pair are one row, whoever has left it since |
| DirectChat.OneConversationOfTwo | internal/service/create_conversation.go:24-41 | in particular at most one has exactly these two participants |
| DirectChat.SuccessfulCallsAgree | internal/service/create_conversation.go:24-41 | all successful calls for one unordered pair return the same conversation, and it exists |
| DirectChat.ReturnedConversationIsThePairs | internal/adapter/repository/conversation_repo.go:331-346 | if no user id has a colon, the conversation returned was made for just that pair |
| DirectChat.LaterCallReturnsSame | internal/service/create_conversation.go:24-41 | once a call has succeeded, a later call for the pair that meets no failure can return nothing but that conversation |
| DirectChat.OrphanIsReachable | internal/adapter/repository/conversation_repo.go:127-151 | one refused statement after the claim leaves a claimed key with no row and nobody to write it |
| DirectChat.OrphanArisesIff | internal/adapter/repository/conversation_repo.go:127-151 | in every interleaving a key becomes orphaned at a step if and only if the step is the claim of its call timing out on a free key, or the row insert after it being refused |
| DirectChat.OrphanedKeyNeverSucceeds | internal/service/create_conversation.go:24-41 | from there, in every continuation, no call for that key succeeds |
| GroupCap.ChangedIsWritten | internal/adapter/repository/conversation_repo.go:421-492 | the list a call of this model stores is the one in the first statement of the repository's operation |
| GroupCap.StoreIff | internal/adapter/repository/conversation_repo.go:421-492 | writing back has the effect of the call's own change on the current members if and only if nobody else joined or left since the list was read |
| GroupCap.CapWithConcurrency | internal/service/create_conversation.go:58-74 | with at most k adds in flight among any removals and read receipts, each a read and a later write, size plus adds past their check stays within 49 + k in every run whose writes are all based on the current users |
| GroupCap.SequentialCap | internal/domain/conversation.go:158-175 | with one add at a time such a run keeps at most 50 users, all different |
| GroupCap.TurnsMakeFresh | internal/adapter/repository/conversation_repo.go:421-492 | if no call reads the list while another is between its read and its write, every write is based on the current list |
| GroupCap.CapIsTight | internal/adapter/repository/conversation_repo.go:448-465 | for every k such a run reaches 49 + k, also by adding one user k times |
| GroupCap.StaleReceiptBreaksCap | internal/service/chat_service.go:103-105 | from every full group of different users with an admin, a read receipt overtaken by the removal of another member leads to 51 entries with the removed user twice, with one add in flight |
| GroupCap.NoBound | internal/service/create_conversation.go:58-87 | from every group of different users with an admin, for every n from its size on and every k from 1 on, some run with at most k adds in flight ends with n different users |
| MembershipRuns.PutIsWritten | internal/adapter/repository/conversation_repo.go:448-492 | the index writes of this model are the second and third statement of the repository's add and removal |
| MembershipRuns.IndexesAgree | internal/adapter/repository/conversation_repo.go:448-492 | in every run in which the index writes of adds and removals of a user do not overlap, both indexes say the same about the user whenever no call is writing them for that user |
| MembershipRuns.DisagreementIff | internal/adapter/repository/conversation_repo.go:448-492 | after a step of a run without such an overlap so far, the index statements then under way can, in some order, leave the indexes disagreeing about the user if and only if the step made an add and a removal of that user overlap |
| MembershipRuns.CrossingIsReachable | internal/service/create_conversation.go:58-87 | from every group of different users with an admin, removing another member and adding them again at once gets there, with one add in flight |
| MembershipRuns.AllThreeAgree | internal/adapter/repository/conversation_repo.go:448-492 | if besides every write of a change about others read a list that says about the user what the row says, participants and both indexes agree about the user whenever no call is writing the indexes for that user |
| MembershipRuns.StoreKeepsAgreementIff | internal/adapter/repository/conversation_repo.go:421-492 | a write of a change about others keeps list and index in agreement about the user if and only if the list it read says about the user what the row says |
| MembershipRuns.StaleReceiptSplits | internal/service/chat_service.go:103-105 | a read receipt overtaken by a removal puts the removed member back into the list and into neither index |
| MembershipRuns.SettledGroup | internal/service/create_conversation.go:58-87 | with one add at a time, writes based on the current users and no such overlap, a group without index writes under way has both indexes equal to its participants, at most 50 |
| Reactions.AddRefines | internal/domain/message.go:125-148 | adding is insertion into a set of (emoji, user) pairs limited to 20 emojis and 50 users each; the answer tells added, already there and refused apart exactly; only an addition changes anything; the shape is kept |
| Reactions.RemoveRefines | internal/domain/message.go:151-166 | removing is removal from that set, true exactly when the pair was there; the shape is kept |
| Reactions.RemoveUndoesAdd | internal/domain/message.go:125-166 | removing what was just added gives the exact list back if and only if it had not gone into an empty group; always for a list of the shape |
| Reactions.RoomIff | internal/domain/message.go:133-141 | the two length tests decide the two limits of the set |
| Messages.ReadBackIff | internal/adapter/repository/message_repo.go:69-98 | a stored message reads back as it was, to the millisecond, if and only if each part present has a URL or id |
| Messages.BuildIsNormalForm | internal/adapter/repository/message_repo.go:413-473 | what is read from any row can be stored and read again unchanged, under the same key |
| Messages.WriteBackIff | internal/adapter/repository/message_repo.go:298-367 | writing back what was read leaves the columns alone if and only if parts without URL or id are empty |
| Messages.Message.AddReaction | internal/domain/message.go:125-148 | the loops compute the insertion that AddRefines is about |
| Messages.Message.RemoveReaction | internal/domain/message.go:151-166 | the nested loops compute the removal that RemoveRefines is about |
| MessageRepository.MessageRepo.Create | internal/adapter/repository/message_repo.go:64-134 | for all fates the two tables; success only for a new key, and then the message can be found by id and reads back |
| MessageRepository.MessageRepo.FindById | internal/adapter/repository/message_repo.go:138-154 | found exactly when lookup entry and row exist and both reads succeed; otherwise the exact error, for all fates |
| MessageRepository.MessageRepo.FetchMessage | internal/adapter/repository/message_repo.go:157-203 | what is read has the key asked for and would read the same if stored again; not found and failure are told apart |
| MessageRepository.MessageRepo.Update | internal/adapter/repository/message_repo.go:298-367 | the whole row is replaced and, if the parts are named, reads back as given |
| MessageRepository.MessageRepo.AddReaction | internal/adapter/repository/message_repo.go:371-390 | for all fates, exact error and exact table in terms of the set insertion; no row and no lookup entry is added |
| MessageRepository.MessageRepo.RemoveReaction | internal/adapter/repository/message_repo.go:394-409 | for all fates, exact error and exact table in terms of the set removal; no row and no lookup entry is added |
| MessageRepository.MessageRepo.FindByConversation | internal/adapter/repository/message_repo.go:207-294 | the abstract page of the partition, with the stored messages; an error if and only if the read fails; no row of the conversation is left out, as PageHasRows says |
| MessageRepository.PageHasRows | internal/adapter/repository/message_repo.go:207-294 | of all rows of the conversation after the cursor, of whatever type and content, the page has the newest, strictly newest first; a row is left over if and only if the page says there is more, and then the page is full |
| MessageRepository.PageCursorSurvives | internal/adapter/repository/message_repo.go:288-292 | a cursor handed out is not rounded when it comes back |
| MessageRuns.WriteIsOk | internal/adapter/repository/message_repo.go:298-409 | writing back an edit, deletion or reaction that passed its checks gives a good row, of the same sender and type, and touches no other |
| MessageRuns.StepKeepsInv | internal/adapter/repository/message_repo.go:64-154 | every step keeps lookups, rows, pending calls and the trace in order |
| MessageRuns.SendIsTwoInserts | internal/adapter/repository/message_repo.go:64-134 | the tables a single send leaves, for all fates, are those of its steps with nothing in between |
| MessageRuns.ChangeIsReadAndWrite | internal/adapter/repository/message_repo.go:298-409 | so are those of an edit, deletion or reaction |
| MessageRuns.RowsStayGood | internal/adapter/repository/message_repo.go:298-409 | in every interleaving with failures and crashes: lookup entries lead to rows, reactions keep their shape, texts stay within 4096 bytes, deleted messages are empty, sender and type stay as inserted |
| MessageRuns.OnlySendingAddsRows | internal/adapter/repository/message_repo.go:64-134 | the row insert of a send is the only step that adds a row; no step removes one |
| MessageRuns.PersistBeforePublish | internal/service/send_message.go:66-103 | every published event names a message stored earlier in the trace, and a call that succeeded names one that can be found |
| MessageRuns.WriteBackLaw | internal/adapter/repository/message_repo.go:298-409 | in every interleaving, an edit written back sets text and mark and makes every other column what the call had read, a deletion clears text, mentions and media and does the same, a reaction changes its own column only; no other row changes |
| MessageRuns.DeletionLostIff | internal/service/chat_service.go:129-195 | a step undoes a deletion if and only if it writes back an edit of that message |
| MessageRuns.EditBringsBack | internal/service/chat_service.go:129-195 | it happens to every valid text message: an edit and a deletion by its sender both read it, the deletion is stored, and then the edit |
| MessageRuns.DeletionIsFinal | internal/service/chat_service.go:166-195 | when no change overlaps another, a deleted message stays deleted |
| MessageWalks.KeysOnlyGrow | internal/adapter/repository/message_repo.go:64-134 | in every run the messages of a conversation are only added to |
| MessageWalks.NextSurvives | internal/adapter/repository/message_repo.go:288-292 | the next cursor of a page served at any point of a run goes through the store unrounded |
| MessageWalks.WalkDuringRun | internal/adapter/repository/message_repo.go:207-294 | a completed walk interleaved with any run returns every row its conversation had at the start, nothing twice, newest first, only rows it has at the end, and is as short as RemainingShrinks says when new messages are newer than the cursor |
| ActivityWalks.RepetitionIsLowered | internal/adapter/repository/conversation_repo.go:256-327 | a walk that returns a conversation twice was served at two moments between which its time went down, and at the first of them another one was below it |
| ActivityWalks.LoweredRepeats | internal/adapter/repository/conversation_repo.go:256-327 | whenever that happens between two moments, a walk with one conversation a page returns it twice |
| ActivityWalks.WalkRepeatsIff | internal/adapter/repository/conversation_repo.go:256-327 | for any sequence of moments: some walk, of any limit, returns a conversation twice if and only if between two of them the time goes down of one that was not the last in the list |
| ActivityWalks.NoConversationTwice | internal/adapter/repository/conversation_repo.go:256-327 | in particular none is returned twice while conversations only become more active |
| ActivityWalks.UntouchedConversationOnce | internal/adapter/repository/conversation_repo.go:256-327 | whatever happens to the others, one untouched during a completed walk is returned exactly once |
| ConversationWalks.RisesIff | internal/adapter/repository/conversation_repo.go:353-492 | a statement lowers no conversation's activity time if and only if the time it writes is not older than the one in the row |
| ConversationWalks.ConversationWalkRepeatsIff | internal/adapter/repository/conversation_repo.go:256-327 | during any run of statements, of whatever calls and wherever cut off, some walk of the user returns a conversation twice if and only if between two points of the run the time goes down of one listed for the user that is not the last of the list |
| ConversationWalks.ConversationWalkOnce | internal/adapter/repository/conversation_repo.go:256-327 | so none is returned twice in a run in which no statement lowers an activity time |
| ConversationWalks.UntouchedDuringWalk | internal/adapter/repository/conversation_repo.go:256-327 | whatever happens to the others, a completed walk returns a conversation that stays listed and untouched exactly once |
| ConversationWalks.OvertakenWriteLowers | internal/service/send_message.go:71-80 | two last-message writes in the order of their times rise, in the other order they do not |
| ConversationWalks.LoweredTimeRepeats | internal/adapter/repository/conversation_repo.go:412-417 | one lowered time between two requests makes a walk return a conversation twice |
| RateLimiting.AllowedIff | internal/adapter/cache/rate_limiter.go:27-41 | a call is allowed if and only if it is among the first 60 of its maximal run of calls with gaps under 60 seconds |
| RateLimiting.WindowBound | internal/adapter/cache/rate_limiter.go:27-41 | any half-open 60 seconds contain at most 60 allowed calls |
| RateLimiting.SuccessfulSendsBound | internal/adapter/cache/rate_limiter.go:27-41 | of any calls picked among the allowed ones, at most 60 fall into any half-open 60 seconds |
| RateLimiting.RateLimiter.AllowMessage | internal/adapter/cache/rate_limiter.go:27-41 | counter and expiry keep reflecting all calls so far, and the answer is that of AllowedIff |
| Unread.CacheStore.IncrementUnread | internal/adapter/cache/cache_store.go:24-30 | this counter goes up by one if the statement took effect, that of every other user and conversation stays |
| Unread.CacheStore.ClearUnread | internal/adapter/cache/cache_store.go:32-38 | this counter is zero if the statement took effect, that of every other user and conversation stays |
| Unread.CacheStore.GetUnreadCounts | internal/adapter/cache/cache_store.go:40-54 | the loop returns every counter of the user as stored |
| Unread.BumpOthersAdds | internal/service/send_message.go:93-101 | a send adds to a counter as often as the user is listed, nothing to the sender's and nothing in other conversations |
| Unread.BumpReachedAdds | internal/service/send_message.go:93-101 | whichever increments are lost, each entry of another user whose increment took effect adds one, and nothing else changes |
| Unread.SendAddsOneIff | internal/service/send_message.go:93-101 | a send adds exactly one to every other participant if and only if none of them is listed twice |
| Unread.CounterIsUnreadCount | internal/service/chat_service.go:84-110 | after any history the counter of u in c is the number of sends to c by others, while u was a participant, since u last read c |
| ServiceSpec.Truncate | internal/service/send_message.go:106-111 | the first n bytes, the whole text if it fits |
| ServiceSpec.SendOutcome | internal/service/send_message.go:25-104 | a successful send came after an allowed call, passed the checks of SendRefusalLaw, and is found and reads back as stored; a failed one announces, counts and denormalises nothing; no send touches another message |
| ServiceSpec.EditAnswer | internal/service/chat_service.go:129-163 | an edit succeeds if and only if its reads and its write do and the step relation of MessageRuns accepts it; EditLaw says when that is and what it makes of the row |
| ServiceSpec.DeleteAnswer | internal/service/chat_service.go:166-195 | the same for a deletion |
| ServiceSpec.ReactAnswer | internal/service/chat_service.go:198-233 | a reaction succeeds if and only if all five reads do, the user is a member of the conversation and the addition is not refused or lost |
| ServiceSpec.UnreactAnswer | internal/service/chat_service.go:236-259 | a removal succeeds if and only if all four reads find the message and its write, if there is one, is done |
| ServiceSpec.MarkAnswer | internal/service/chat_service.go:84-126 | reading succeeds if and only if all five statements do, for a member and a message of the conversation |
| ServiceSpec.DirectOutcome | internal/service/create_conversation.go:24-41 | without failures, success if and only if the key is free or its conversation exists; whatever fails, a success returns the conversation that holds the key, an existing one without a write, a new one complete and with both users |
| ServiceSpec.GroupOutcome | internal/service/create_conversation.go:44-55 | without failures, success if and only if the request is within bounds; a refused request writes nothing; a group made has distinct members, at most 50, its creator as admin, and agrees with both indexes |
| ServiceSpec.AddOutcome | internal/service/create_conversation.go:58-74 | a success has taken an admin's request to a group with room and without the user, is the whole operation of RunsAgree, and keeps agreement; AddLaw gives entry and role |
| ServiceSpec.RemoveOutcome | internal/service/create_conversation.go:77-87 | a success is one's own request or an admin's, is the whole operation of RunsAgree, the user is gone, and agreement follows if and only if the others agreed |
| ServiceRuns.RequestSound | internal/service/chat_service.go:84-259 | every call, whatever fails, keeps: stored before published, lookups lead to rows, participants distinct and at most 50, successful sends were allowed |
| ServiceRuns.ServiceStaysSound | internal/service/create_conversation.go:24-87 | after every sequence of calls from an empty store, with any failures, every conversation has distinct participants, at most 50, and every event names a message stored before it |
| ServiceRuns.SendsPerMinute | internal/service/send_message.go:25-33 | after every such sequence, no user has more than 60 successful sends in any half-open 60 seconds |
| ServiceRuns.SendIsRecordedIff | internal/service/send_message.go:25-104 | the sends counted there are exactly those whose caller was told of success, at the time of their call |
| ServiceRuns.CountersAreUnread | internal/service/send_message.go:93-101 | after every such sequence in which the cache did not fail, whatever else did, each counter is what the record of sends and readings comes to; CountersFromAnswers says it of the answers |
| Terms.BuildShows | internal/adapter/repository/message_repo.go:413-473 | what is read from a row shows its columns one by one, and written back is the row with the columns of absent parts cleared |
| Terms.WithoutKeepsOthers | internal/adapter/repository/conversation_repo.go:475-481 | the filter leaves every entry of another user as it was, in the same order, and nothing else |
| Terms.MarkReadMarksFirst | internal/adapter/repository/conversation_repo.go:421-444 | only the first entry of the user gets the new read position |
| MessageLaws.SendRefusalLaw | internal/service/send_message.go:25-61 | the error of each check of a send in the order of the checks: limiter, conversation, membership, admins only, ids, text and media |
| MessageLaws.SendAnswerLaw | internal/service/send_message.go:25-104 | a send succeeds if and only if the limiter allows it, the sender is listed in the conversation and an admin there if only admins may send, ids are not empty, text and media fit the type, and its statements are done; the answer carries every part of the command |
| MessageLaws.SendStoresLaw | internal/service/send_message.go:50-69 | such a send adds one row with the columns of the command under its conversation, millisecond and id, and its lookup entry; any other adds nothing, and no row changes |
| MessageLaws.SendSpreadLaw | internal/service/send_message.go:71-103 | a success becomes the last message of its conversation with the first 100 bytes of its text, is announced twice, and counts once for every entry of another user whose increment takes effect; a failure does none of this |
| MessageLaws.EditLaw | internal/service/chat_service.go:129-163 | an edit succeeds if and only if reads and write do, the message is there, is the user's, not deleted, of type text, and the text has at most 4096 bytes; each refusal has its error; the row gets text and edited mark and keeps the rest; the answer shows the new row; a success is announced |
| MessageLaws.DeleteLaw | internal/service/chat_service.go:166-195 | a deletion succeeds if and only if reads and write do and the message is the user's; text, mentions and media go, everything else stays; a success is announced |
| MessageLaws.ReactAnswerLaw | internal/service/chat_service.go:198-233 | the answer in each case: message or conversation missing, not a member, there already, no room among 20 emojis of 50 users, a failed statement |
| MessageLaws.ReactLaw | internal/service/chat_service.go:198-233 | an accepted reaction adds its pair to the row of the message and changes nothing else; success, and only success, is announced |
| MessageLaws.UnreactLaw | internal/service/chat_service.go:236-259 | anybody may take away any pair; exactly that pair goes; success is announced also when it was not there |
| MessageLaws.ReadAnswerLaw | internal/service/chat_service.go:84-105 | marking as read succeeds if and only if the user is listed in the conversation, the message is stored in it and five statements are done; each refusal has its error |
| MessageLaws.ReadLaw | internal/service/chat_service.go:103-126 | a success marks the first entry of the user, sets this counter to zero unless the clearing is lost, leaves every other counter, and announces the receipt; anything else changes at most the mark |
| ConversationLaws.AddAnswerLaw | internal/service/create_conversation.go:58-74 | an add succeeds if and only if an admin asks, the conversation is not direct, does not list the user, has fewer than 50 entries, and the statements are done; each refusal has its error |
| ConversationLaws.AddLaw | internal/service/create_conversation.go:58-74 | after a success the old entries are as they were, in place, followed by the user as an ordinary member who has read nothing; nobody becomes an admin; each index has one pair more; a refusal writes nothing |
| ConversationLaws.RemoveAnswerLaw | internal/service/create_conversation.go:77-87 | a removal succeeds if and only if the conversation is there, the user or an admin asks, and the statements are done |
| ConversationLaws.RemoveLaw | internal/service/create_conversation.go:77-87 | after a success every entry of the user is gone and the others are as they were, in order; each index has lost that pair; a refusal writes nothing |
| ConversationLaws.DirectLaw | internal/service/create_conversation.go:24-41 | nobody chats with themselves; a held key is answered with its stored conversation, without a write, or refused if that is missing; a free key, if nothing fails, with a new row of two ordinary members in byte order, in both indexes |
| ConversationLaws.GroupLaw | internal/service/create_conversation.go:44-55 | without failures a group is made if and only if its name has 1 to 100 bytes and its list 2 to 49 entries; the creator comes first and is the only admin, then every other user named, once, in order of first appearance; both indexes have them; a refusal writes nothing |
| RunLaws.CountersFromAnswers | internal/service/send_message.go:93-101 | after every sequence of calls in which no increment and no clearing is lost, each counter is the number of sends to the conversation that were answered with success, came from somebody else while the user was a participant, and were followed by no reading answered with success |
| RunLaws.CallsAreSends | internal/service/send_message.go:25-33 | the calls the limiter has seen from a user are the user's sends, in order, but for those that did not reach it |
| RunLaws.RateLimitedIff | internal/service/send_message.go:25-33 | after every sequence a send is refused for its rate if and only if it is not among the first 60 of the maximal run of the user's sends with gaps under 60 seconds |
| RunLaws.SuccessesPerMinute | internal/service/send_message.go:25-33 | in every sequence no user has more than 60 sends answered with success in any half-open 60 seconds |
| RunLaws.ServiceRowsStayGood | internal/service/chat_service.go:129-259 | after every sequence, whatever fails, reaction lists keep their shape and limits, texts have at most 4096 bytes, and deleted messages are empty |
| ChatServices.ChatService.SendMessage | internal/service/send_message.go:25-104 | for all fates, exact answer and exact state (tables, limiter calls of every user, counters, trace), as one Apply of ServiceRuns, so that SendAnswerLaw, SendStoresLaw, SendSpreadLaw and the laws on sequences hold of it |
| ChatServices.ChatService.MarkAsRead | internal/service/chat_service.go:84-126 | for all fates, exact answer and exact state, as one Apply of ServiceRuns, so that ReadAnswerLaw and ReadLaw hold of it |
| ChatServices.ChatService.EditMessage | internal/service/chat_service.go:129-163 | for all fates, exact answer and exact state, as one Apply of ServiceRuns, so that EditLaw holds of it |
| ChatServices.ChatService.DeleteMessage | internal/service/chat_service.go:166-195 | for all fates, exact answer and exact state, as one Apply of ServiceRuns, so that DeleteLaw holds of it |
| ChatServices.ChatService.CheckReaction | internal/service/chat_service.go:199-213 | only members of the message's conversation pass; otherwise the exact error, for all fates |
| ChatServices.ChatService.AddReaction | internal/service/chat_service.go:198-233 | for all fates, exact answer and exact state, as one Apply of ServiceRuns, so that ReactAnswerLaw and ReactLaw hold of it |
| ChatServices.ChatService.RemoveReaction | internal/service/chat_service.go:236-259 | for all fates, exact answer and exact state, as one Apply of ServiceRuns, so that UnreactLaw holds of it |
| ChatServices.ChatService.CreateDirectChat | internal/service/create_conversation.go:24-41 | for all fates, exact answer and exact state, as one Apply of ServiceRuns, so that DirectLaw holds of it |
| ChatServices.ChatService.CreateGroup | internal/service/create_conversation.go:44-55 | for all fates, exact answer and exact state, as one Apply of ServiceRuns, so that GroupLaw holds of it |
| ChatServices.ChatService.AddParticipant | internal/service/create_conversation.go:58-74 | for all fates, exact answer and exact state, as one Apply of ServiceRuns, so that AddAnswerLaw and AddLaw hold of it |
| ChatServices.ChatService.RemoveParticipant | internal/service/create_conversation.go:77-87 | for all fates, exact answer and exact state, as one Apply of ServiceRuns, so that RemoveAnswerLaw and RemoveLaw hold of it |
| ChatServices.ChatService.GetMessages | internal/service/chat_service.go:52-63 | members only, with the exact error otherwise; the abstract page, of at most 100 messages, each as stored, and no row left out, as PageHasRows says |
| ChatServices.ChatService.GetConversations | internal/service/chat_service.go:66-69 | the abstract page, of at most 100 conversations, each as stored, and none left out, as PageHasConversations says; an error if and only if a read fails |

## Left out

- HTTP routing, request decoding, authentication, presence and typing: plumbing around the logic.
- Kafka and Centrifugo: a publication is an entry in a trace that may fail to appear; payloads and retries are not modelled.
- JSON columns: a participants, reactions or last-message column holds the value itself; encoding it is taken to round-trip.
- Consistency levels: each statement is atomic and sees all earlier ones; IF NOT EXISTS is a compare-and-set.
- A nil and an empty slice are the same sequence; aliasing of Go slices between two holders of one backing array does not arise, since each load builds a new object.
- Sizes of integers: start + limit and the counters do not overflow.
- Fields that nothing here depends on: avatar, muted-until, the type of the last message, the domain helpers GetParticipant and UpdateLastMessage, and the message constructors that SendMessage does not use.
- Rounding of conversation times: message times are rounded to milliseconds as the store does, conversation times are not, and a conversation cursor finer than a millisecond is compared as it is.
- parsePageRequest: limit and cursor parameters that do not parse become absent; only the cursor text itself is modelled.
- RateLimiting.RateLimiter.AllowMessage: INCR and EXPIRE are one step, since a lost EXPIRE would leave a counter that never goes away.
- GroupCap.CapWithConcurrency: it is stated for runs whose writes are based on the current users, because without that there is no bound at all (GroupCap.NoBound); the repository's full Update is not one of the writers there, as no service call uses it.
- ServiceRuns.RequestSound: calls follow one another; what overlapping calls do is the subject of the step relations.
- MessageRuns.StepKeepsInv: the lookup and the row read of one FindByID are one step; rows are never removed, so what lies between them can only be an earlier state of the same row.
- MembershipRuns.DisagreementIff: calls are dropped only before they have written the list; what a statement failing after that leaves behind is the subject of ConversationStore.CutOffAdd and RemoveConverges.
- Not claimed, because the code does not keep it: that a direct chat keeps two participants, that a group has an admin or at least three members, that a live text message has text after an edit, that last_message follows edits and deletions, and that a preview cut at 100 bytes is valid UTF-8.
