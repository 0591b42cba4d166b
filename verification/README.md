# A verified model of DBMail's core

DBMail serves mail from a relational database over IMAP and POP3. This project
models the parts of it that carry state or transform data, and proves what they
promise (`Basics` holds notions that several parts share):

- **Mailbox views** (`SortedSets`, `GTreeMerge`, `MailboxView`, `MailboxStates`): the
  in-memory copy of a mailbox, with its two trees from UID to message sequence
  number (MSN) and back.
- **Refresh** (`RefreshSpec`, `RefreshProtocol`, `RefreshSkips`): writers change rows
  and then bump a counter and stamp the row; a reader compares counters and reloads
  only recently stamped rows. The protocol is a state machine over the atomic steps of
  any number of writers and one reader. The differential load is used with
  `mailbox_update_strategy` 2 only; the default strategy loads everything again.
- **Untagged responses** (`SessionSpec`, `ExistsSafety`, `ForeignExpunges`,
  `ImapSession`): EXPUNGE and EXISTS as the client sees them.
- **Sequence sets and search** (`SequenceSet`, `RangeSearch`, `SearchSpec`,
  `SearchPasses`, `SearchMerging`, `SearchMeaning`, `SearchEngine`): the parser and
  range scan of message sets, and the three passes over a search tree.
- **MIME storage** (`MimeTree`, `MimeStore`, `MimeRebuild`, `MimeRoundTrip`,
  `MimeExactly`): a message is stored part by part and its text rebuilt from sorted rows.
- **Byte streams** (`WireSpec`, `ClientBase`), the **IMAP tokenizer** (`Tokenizer`,
  `TokenForest`), and the **header prefetch** of FETCH (`HeaderPrefetch`).
- **Text** (`MailboxMatch`, `MailboxBackslash`, `BaseSubject`, `SubjectLaws`,
  `SubjectSteps`, `Replies`, `Crlf`, `PoolString`): mailbox names as LIKE patterns, base
  subjects, line-end encoding and pool strings.

Code that updates objects or buffers in place is a class or a method with loops,
proved equal to a function on values; the laws are lemmas about those functions. The
database is a set of maps, a statement or transaction one atomic step, and the
answers of the network and of failing statements are parameters.

Where a promise is false of the code, the model keeps the code and the named lemmas
state when it holds:

- STORE reserves its stamp before it changes the row, and EXPUNGE does not stamp
  (`StoreSeenExactly`, `ReaderAhead`, `StoreLost`, `ExpungeSeenExactly`).
- A state loaded at counter 0 reads its cached counter again at the first comparison
  and keeps the new value, so that comparison misses the changes completed before it;
  the next bump is noticed (`SkipSoundExactly`, `MissedOnlyAtZero`,
  `ZeroCounterMisses`). New mailboxes start at 1 (`src/dm_db.c:2943-2944`); a counter of
  0 comes from an upgraded database.
- The expunges of other sessions are never announced: a full load holds visible
  messages only, and a differential load has taken the messages out of the old state
  (`AnnouncesExactly`, `NoForeignExpunge`, `ExpungeUnannounced`).
- CLOSE sends the EXPUNGE responses that its comment says it does not show
  (`CloseSilentExactly`).
- An operand of OR that is a NOT or another OR is not evaluated, and what is below it
  is required of the whole result (`SearchComputes`, `FlatExactly`, `OrNotExactly`,
  `OrOrExactly`).
- Rebuilding a message fails when a multipart follows a multipart without epilogue,
  when a part follows a leaf without body, and when more than the outermost boundary is
  open at the end (`RoundTripExactly`).
- Backslashes in mailbox names are not escaped (`SelfMatchExactly`, `MeansExactly`).
- The walk over a header-field list can leave the arguments after a quoted `(`
  (`WalkStaysInside` says exactly when, `QuotedParenthesis` gives the arguments of a FETCH).
- A multipart without parts that has both prologue and epilogue gives them the same sort
  key (`OrderExactly`).
- Skipping a whole batch during FETCH (CHANGEDSINCE) loses headers
  (`PrefetchExactly`).
- The first LF of a text that starts with LF and ends with CR gets no CR, so the size
  announced for it is one too large (`LinesExactly`, `SizeExactly`). A text that starts
  with a dot and does not end with LF is not stuffed (`DotsUndone`).
- A reply to a subject of bare `(fwd)` trailers has another base subject
  (`ReplyKeepsBase`).

## Model

| member | source | states |
|---|---|---|
| `SortedSets.TreeKeys` | src/dm_misc.c:1042-1054 | collects the keys of a tree in ascending order, each once |
| `GTreeMerge.MergeAnd` | src/dm_misc.c:1142-1165 | keeps exactly the keys present in both trees, with the values of the first |
| `GTreeMerge.MergeOr` | src/dm_misc.c:1167-1193 | moves every key missing from the first tree out of the second; the shared keys stay behind in the second tree |
| `GTreeMerge.MergeNot` | src/dm_misc.c:1195-1223 | leaves the symmetric difference in the first tree; the shared keys leave it and stay in the second |
| `GTreeMerge.Merge` | src/dm_misc.c:1125-1238 | the in-place merge equals the algebraic result and leftover for each of the three conditions |
| `GTreeMerge.OrKeepsEveryNode` | src/dm_misc.c:1167-1193 | a union loses no key, prefers the first tree's value, and its leftovers are already in the result |
| `GTreeMerge.NotOfSubset` | src/dm_misc.c:1195-1223 | on a subset of the first tree, NOT is set difference |
| `MailboxView.NumberMessages` | src/dm_mailboxstate.c:417-444 | the remap loop numbers exactly the visible messages by rank and builds the inverse tree |
| `MailboxView.MappedView` | src/dm_mailboxstate.c:417-444 | in a mapped view `ids` and `msn` are mutually inverse, MSNs are exactly 1..n, and the messages are exactly those with status below DELETE |
| `MailboxView.MsnFollowsUid` | src/dm_mailboxstate.c:417-444 | MSN order is UID order |
| `MailboxView.RemovedOrder` | src/dm_mailboxstate.c:476-489 | removing a visible UID deletes precisely its entry from the client-visible order and keeps the view mapped |
| `MailboxView.EarlierNumbersKept` | src/dm_mailboxstate.c:476-489 | removing a message leaves every smaller UID with its old MSN |
| `MailboxStates.MailboxState.Remap` | src/dm_mailboxstate.c:417-444 | re-establishes the view invariant from any state, touching only the two trees |
| `MailboxStates.MailboxState.AddMsginfo` | src/dm_mailboxstate.c:463-474 | inserts one message and re-establishes the view invariant; a \Recent message raises the count and lowers the cached counter |
| `MailboxStates.MailboxState.RemoveUid` | src/dm_mailboxstate.c:476-489 | fails exactly on an unknown UID; otherwise the message is marked, the view renumbered and EXISTS decremented with wrap-around |
| `MailboxStates.MailboxState.GetExists` | src/dm_mailboxstate.c:552-561 | raises the counter to the number of visible messages when it is smaller as a signed value |
| `MailboxStates.MailboxState.LoadRow` | src/dm_mailboxstate.c:120-225 | one row creates or refills the entry with all its fields and `\Seen`, and drops it once its expunge was announced |
| `MailboxStates.MailboxState.LoadRows` | src/dm_mailboxstate.c:120-225 | the row loop, in whatever order rows arrive, is the pointwise patch of the cache by the selected rows |
| `MailboxStates.MailboxState.LoadKeywords` | src/dm_mailboxstate.c:254-271 | the keyword loop, one row per keyword, leaves each cached selected message with its keyword list appended in order |
| `MailboxStates.MailboxState.LoadMessages` | src/dm_mailboxstate.c:62-284 | rows and keywords read at two moments give the patched cache, a mapped view and the new state counter |
| `MailboxStates.MailboxState.Load` | src/dm_mailboxstate.c:291-333 | a full load gives a fresh, mapped state stamped with the counter read |
| `MailboxStates.MailboxState.Update` | src/dm_mailboxstate.c:341-415 | a differential load patches the messages taken from the old state, which is left empty with counter 0; at the limit of consecutive differential loads it is a full load and leaves the old state alone |
| `MailboxStates.FullLoadEvery` | src/dm_mailboxstate.c:348-352 | with a positive limit exactly every limit-th update after a full load is a full load, otherwise none is |
| `RefreshSpec.ReloadAgrees` | src/dm_mailboxstate.c:62-284 | a full load agrees with the tables on every message |
| `RefreshSpec.AgreesExactly` | src/dm_mailboxstate.c:120-271 | a cache agrees with the tables on a message if and only if it shows a live row, and no other, with its uid, flags, size, stamp, status and physical id, its date cut to 26 characters (a missing one is the start of 1970), and `\Seen` followed by the non-empty stored keywords in order |
| `RefreshSpec.ReloadShowsRows` | src/dm_mailboxstate.c:62-284 | a full load holds exactly the live rows, each with these fields |
| `RefreshSpec.EntriesExactly` | src/dm_mailboxstate.c:120-225 | a differential read drops a cached message exactly when its expunge has been announced and its row is read again, adds one exactly for a live row, and counts the reads from the first that finds it \Deleted or deleted |
| `RefreshSpec.AgreementIsReload` | src/dm_mailboxstate.c:62-284 | agreement on every message is equality with a full load |
| `RefreshSpec.ReloadIsAgreement` | src/dm_mailboxstate.c:62-284 | equality with a full load is agreement on every message |
| `RefreshProtocol.StepKeepsInv` | src/dm_db.c:4617-4648 | every step of writers and reader (insert, change, bump-and-stamp, bump, counter read, row read, keyword read, renewed read of a cached 0) keeps the protocol invariant |
| `RefreshProtocol.RunKeepsInv` | src/dm_db.c:3311-3363 | the invariant holds after every finite interleaving |
| `RefreshProtocol.RefreshAgreement` | src/dm_mailboxstate.c:341-415 | between refreshes, each message without an owed bump and without a stamp newer than the state agrees with the tables |
| `RefreshProtocol.RefreshIsReload` | src/dm_mailboxstate.c:341-415 | from any reachable state with no bump owed, a differential refresh shows exactly what a full load shows |
| `RefreshProtocol.RefreshShowsRows` | src/dm_mailboxstate.c:341-415 | so it shows exactly the live rows, each with all the fields of its row |
| `RefreshProtocol.UnchangedIsReload` | src/dm_imapsession.c:1679-1704 | when the counter has not moved and nothing is owed, the cache already is a full load |
| `RefreshSkips.SkipsExactly` | src/dm_imapsession.c:1673-1688 | a comparison says "unchanged" if and only if the cached counter is 0 or the difference is a multiple of 2^32 |
| `RefreshSkips.StampTells` | src/dm_mailboxstate.c:182-185 | a message without an owed bump agrees with the tables if and only if the cache has the stamp of its row |
| `RefreshSkips.SkipSoundExactly` | src/dm_imapsession.c:1673-1688 | over runs with any number of comparisons, a skip is sound if and only if the load was not at counter 0 or the cache has the stamp of every live row |
| `RefreshSkips.MissedOnlyAtZero` | src/dm_mailboxstate.c:510-524 | a skip misses only changes stamped after a load at counter 0 and before the cached counter was read again, and only while no bump has followed |
| `RefreshSkips.BumpIsNoticed` | src/dm_imapsession.c:1673-1688 | once the cached counter is not 0, the next comparison after fewer than 2^32 bumps says "changed" |
| `RefreshSkips.ZeroCounterMisses` | src/dm_mailboxstate.c:510-524 | after a load at counter 0 the first comparison misses a completed change; the next bump is noticed and the refresh repairs the message |
| `RefreshSkips.InterruptedRefresh` | src/dm_mailboxstate.c:341-415 | however writers interrupt a refresh, every message that was settled at the counter read and is untouched since agrees |
| `RefreshProtocol.PickedUpExactly` | src/dm_mailboxstate.c:87-107 | a stale row is repaired by the next refresh if and only if its stamp is at least the state counter minus one and its status is not beyond DELETE |
| `RefreshProtocol.StoreSeenExactly` | src/imapcommands.c:2191-2197 | a STORE, which reserves its stamp before changing the row, is seen at the next refresh if and only if the reserved or old stamp is recent enough |
| `RefreshProtocol.ReaderAhead` | src/imapcommands.c:2409-2414 | a STORE that reserves the first of three bumps and changes the row after the refresh that saw them finds the reader two stamps ahead |
| `RefreshProtocol.StoreLost` | src/imapcommands.c:2191-2197 | such a STORE is lost: the next refresh leaves the cache stale although nothing is owed |
| `RefreshProtocol.ExpungeSeenExactly` | src/dm_imapsession.c:1902-1902 | another session's EXPUNGE, which does not stamp the row, is seen if and only if the row was stamped recently |
| `SessionSpec.ExpungeReplay` | src/dm_imapsession.c:1849-1908 | after every step of an expunge run the client that deletes the announced entries holds exactly the server's list |
| `SessionSpec.ExpungeNumbers` | src/dm_imapsession.c:1864-1908 | every command but FETCH, STORE and SEARCH: the run removes exactly the \Deleted messages among the requested ones whose UPDATE succeeds, and announces each under its original MSN |
| `SessionSpec.ExpungesExactly` | src/dm_imapsession.c:1849-1908 | the same spelled out: the view loses exactly the requested \Deleted messages, and the output is one EXPUNGE for each, from the last to the first, under its number before the command |
| `SessionSpec.ExpungeAll` | src/dm_imapsession.c:1864-1908 | EXPUNGE and CLOSE over all messages leave exactly the messages that are not \Deleted, with one response per removed message |
| `SessionSpec.CloseSilentExactly` | src/imapcommands.c:1801-1820 | CLOSE, which should not show its expunges, is silent if and only if nothing is \Deleted |
| `SessionSpec.NumbersDecrease` | src/dm_imapsession.c:1864-1908 | announced numbers strictly decrease |
| `SessionSpec.RunLeavesEarlier` | src/dm_imapsession.c:1849-1862 | a run over larger UIDs leaves a smaller message and its MSN alone |
| `SessionSpec.QuietRun` | src/dm_imapsession.c:1556-1580 | during FETCH, STORE and SEARCH the run changes and says nothing |
| `ExistsSafety.ExtraExistsNever` | src/dm_imapsession.c:1582-1621 | the extra EXISTS of the notification loop is unreachable when MSNs are ranks |
| `ExistsSafety.NotifyAllMarks` | src/dm_imapsession.c:1582-1621 | announcing another session's expunges sends only EXPUNGE, nothing while quiet, and leaves the new view's numbering alone |
| `ExistsSafety.StatusSound` | src/dm_imapsession.c:1652-1765 | a status update never sends an EXISTS below the client's count and keeps the count in step |
| `ExistsSafety.ExistsExactly` | src/dm_imapsession.c:1707-1747 | a status update sends an EXISTS if and only if the next UID has grown or the command is SELECT, EXAMINE, SEARCH or SORT, and a view has a message or a counter; it comes first, is the only one, and is the largest of both counters and message counts |
| `ExistsSafety.ExpungeRunSound` | src/dm_imapsession.c:1864-1908 | an expunge run lowers the client's count by exactly the EXPUNGEs sent |
| `ExistsSafety.ExistsNeverDrops` | src/dm_imapsession.c:1652-1765 | over any session of refreshes and expunges no EXISTS falls below the client's count |
| `ExistsSafety.NoExpungeWhenQuiet` | src/dm_imapsession.c:1556-1580 | no EXPUNGE is sent during FETCH, STORE or SEARCH |
| `ExistsSafety.SelectSound` | src/imapcommands.c:687-687 | the EXISTS sent by SELECT starts a sound session |
| `ForeignExpunges.AnnouncesExactly` | src/dm_imapsession.c:1604-1613 | beyond its own EXISTS a status update sends something if and only if the command allows it, the old state kept its messages, and one of them is held but not numbered by the new state |
| `ForeignExpunges.FullLoadVisible` | src/dm_mailboxstate.c:82-86 | a full load holds visible messages only |
| `ForeignExpunges.NoForeignExpunge` | src/dm_imapsession.c:1582-1621 | so neither a full nor a differential load ever announces the expunges of other sessions |
| `ForeignExpunges.GoneAreMarked` | src/dm_imapsession.c:1604-1613 | a status update marks exactly the messages of the old view that the new one no longer numbers |
| `ForeignExpunges.ExpungeUnannounced` | src/dm_imapsession.c:1652-1765 | a message that disappears at a NOOP with nothing new is not announced at all |
| `ForeignExpunges.NewMailCounted` | src/dm_imapsession.c:1707-1747 | after the EXISTS that is due, the client counts every message of the new view |
| `ImapSession.Session.NotifyExpunge` | src/dm_imapsession.c:1556-1580 | the new state and output are those of the specification; it fails exactly on a UID without number or, outside FETCH, STORE and SEARCH, without message |
| `ImapSession.Session.DoExpunge` | src/dm_imapsession.c:1849-1862 | the same for one message of an expunge run, failing UPDATEs included |
| `ImapSession.Session.MailboxExpunge` | src/dm_imapsession.c:1864-1908 | the loop from the highest UID down is the specified expunge run |
| `ImapSession.Session.MailboxNotifyExpunge` | src/dm_imapsession.c:1582-1621 | the loop over the old view is the specified notification |
| `ImapSession.Session.MailboxStatus` | src/dm_imapsession.c:1652-1765 | the update sends the specified responses and installs the new state |
| `SequenceSet.SegmentReads` | src/dm_mailboxstate.c:722-857 | every well-formed item (number, `*`, range in either direction) parses to its two bounds |
| `SequenceSet.SplitReads` | src/dm_misc.c:442-461 | splitting a rendered set at commas gives back its items |
| `SequenceSet.CollectReads` | src/dm_mailboxstate.c:722-857 | collecting segments yields the messages picked by any item so far |
| `SequenceSet.SetMeaning` | src/dm_mailboxstate.c:722-857 | a well-formed set on a non-empty mailbox yields exactly the messages in the union of its ranges, each with its MSN; `*` and 2^32 - 1 are the largest UID, or the EXISTS count |
| `SequenceSet.RefusedExactly` | src/dm_mailboxstate.c:756-857 | any text is refused on a non-empty mailbox if and only if a malformed segment comes before any empty one |
| `SequenceSet.EmptySegmentExactly` | src/dm_mailboxstate.c:762-796 | on an empty mailbox a segment passes if and only if it starts with `*` or is a number with nothing or a good right end after it |
| `SequenceSet.EmptySetMeaning` | src/dm_mailboxstate.c:762-796 | on an empty mailbox a well-formed set yields 1 with the next UID |
| `RangeSearch.EarlyStop` | src/dm_mailboxstate.c:688-708 | stopping at the first key above the range loses nothing |
| `RangeSearch.FindRange` | src/dm_mailboxstate.c:710-720 | the early-stop scan equals inserting every key in range |
| `RangeSearch.LeftoversHarmless` | src/dm_mailboxstate.c:722-857 | nodes left in the scratch tree by the merge never change the result |
| `RangeSearch.RangeAdded` | src/dm_mailboxstate.c:722-857 | scanning a range into the used scratch tree and merging adds exactly that range |
| `RangeSearch.CollectSegments` | src/dm_mailboxstate.c:756-857 | the segment loop with its shared scratch tree equals the specification, errors included |
| `RangeSearch.CheckSegments` | src/dm_mailboxstate.c:756-796 | on an empty mailbox segments are only checked |
| `RangeSearch.GetSet` | src/dm_mailboxstate.c:722-857 | the whole operation equals the specification and changes only the EXISTS counter |
| `SearchPasses.LeafTreeRight` | src/dm_mailbox.c:1257-1263 | a leaf query restricted to the ids found so far has the same answer on them |
| `SearchPasses.PrescanTakesSets` | src/dm_mailbox.c:1864-1894 | the prescan intersects the result with every set directly under the root and marks only those |
| `SearchPasses.SearchReady` | src/dm_mailbox.c:1896-1948 | the search pass fills every node of a subtree and nothing outside it |
| `SearchMerging.MergeMeans` | src/dm_mailbox.c:1950-2023 | on every tree, merging a ready node keeps exactly the messages it computes, and leaves operands of OR that are a NOT or OR unevaluated |
| `SearchPasses.RevisitSearch` | src/dm_mailbox.c:1896-1948 | revisiting searched nodes changes nothing |
| `SearchMerging.RevisitMerge` | src/dm_mailbox.c:1950-2023 | merging a merged node again changes neither marks nor result |
| `SearchMerging.VisitLeft` | src/dm_mailbox.c:2034-2064 | the traversal below a merged node requires exactly the residue: what is below operands that were not evaluated |
| `SearchMerging.VisitReady` | src/dm_mailbox.c:2034-2064 | visiting a ready node keeps exactly the messages that it computes and that satisfy the residue |
| `SearchMeaning.SearchComputes` | src/dm_mailbox.c:2034-2064 | for every search tree, prescan, search and merge leave exactly the messages that are computed and satisfy the residue, each with its MSN |
| `SearchMeaning.FlatExactly` | src/dm_mailbox.c:2034-2064 | with any number of keys that are an OR of leaves, groups, NOTs or ORs, a search is answered correctly if and only if every message in scope that it means also satisfies, for each such OR, one evaluated operand and all keys below the others |
| `SearchMeaning.SearchAnswers` | src/dm_mailbox.c:2034-2064 | when OR operands are leaves or parenthesised groups, the result is exactly the messages satisfying the Boolean formula, each with its MSN |
| `SearchMeaning.NarrowingInvisible` | src/dm_mailbox.c:1257-1263 | on every tree, narrowing queries to at most 200 ids never changes the final result |
| `SearchMeaning.OrNotExactly` | src/dm_mailbox.c:1950-2023 | `OR NOT k other`, in either order and at any position, is answered correctly if and only if k holds of every message in scope that satisfies the other keys |
| `SearchMeaning.OrOrExactly` | src/dm_mailbox.c:1950-2023 | `OR OR a b c`, in either order and at any position, is answered correctly if and only if every message in scope that satisfies the other keys and one of the three satisfies all three |
| `SearchEngine.Mailbox.Invert` | src/dm_mailbox.c:1715-1757 | the inverted leaf is the view minus the tree |
| `SearchEngine.Mailbox.SearchQuery` | src/dm_mailbox.c:1230-1263 | the query is narrowed exactly when at most 200 ids are left |
| `SearchEngine.Mailbox.PrescanTop` | src/dm_mailbox.c:1864-1894 | the traversal of the first two levels equals the specified prescan |
| `SearchEngine.Mailbox.DoSearch` | src/dm_mailbox.c:1896-1948 | the recursive pass writes the specified marks |
| `SearchEngine.Mailbox.MergeNode` | src/dm_mailbox.c:1950-2023 | the recursive merge writes the specified marks and result |
| `SearchEngine.Mailbox.Run` | src/dm_mailbox.c:2034-2064 | the three traversals compute the specified result |
| `MimeTree.TextSplits` | src/dm_message.c:546-654 | the serialised text is the text written while boundaries are open followed by the outstanding close delimiters |
| `MimeRebuild.CloseLevels` | src/dm_message.c:459-464 | the inner loop writes the close delimiters of every open level down to the row and clears their slots |
| `MimeRebuild.HandleRow` | src/dm_message.c:422-487 | one row updates output, boundary table and flags as the step function says |
| `MimeRebuild.Retrieve` | src/dm_message.c:376-514 | the loop over the rows rebuilds the specified text, and fails exactly when no row was used |
| `MimeRoundTrip.EntityEmitted` | src/dm_message.c:376-514 | from any ready table the rows of an entity emit its text, each boundary opened and closed at its level |
| `MimeRoundTrip.RoundTrip` | src/dm_message.c:376-514 | if every row finds what it needs, rebuilding gives the text back if and only if what is open at the end is closed: nothing, or one boundary after more than two rows |
| `MimeExactly.EntityDiverges` | src/dm_message.c:422-487 | otherwise the output differs from the text at some position, from the first bad row on |
| `MimeExactly.RoundTripExactly` | src/dm_message.c:376-514 | for every message of depth at most 64, rebuilding gives the text back if and only if no multipart head follows an open multipart, no head of a part follows a leaf without body, and what is open at the end is closed |
| `MimeExactly.AdjacentMultiparts` | src/dm_message.c:453-464 | a message in which a multipart follows a multipart without epilogue is never rebuilt, also when both have the same boundary |
| `MimeExactly.EmptyBody` | src/dm_message.c:469-477 | a message in which a leaf without body precedes another part is never rebuilt |
| `MimeStore.StoreInOrder` | src/dm_message.c:283-310 | unless a multipart without parts has both prologue and epilogue, sort keys strictly increase in storage order, even when insertions fail |
| `MimeStore.SortRestores` | src/dm_message.c:404-411 | sorting rows with strictly increasing keys reproduces storage order |
| `MimeStore.OrderExactly` | src/dm_message.c:546-586 | stored without failures, sort keys strictly increase if and only if no multipart without parts has both a prologue and an epilogue |
| `MimeStore.Store` | src/dm_message.c:606-654 | the part depth is restored after every object, whatever fails inside it |
| `MimeStore.EveryPartTried` | src/dm_message.c:546-586 | every part takes a new key, whichever parts before it failed |
| `MimeStore.StoreLines` | src/dm_message.c:538-654 | the stored rows are the lines of the tree |
| `MimeStore.StoredRoundTrip` | src/dm_message.c:376-654 | the same exact condition for storing, fetching in query order and rebuilding |
| `MimeStore.MessageStore.Blob` | src/dm_message.c:283-310 | one insertion advances key, order and row list as specified, failure included |
| `MimeStore.MessageStore.Object` | src/dm_message.c:606-654 | the recursive store produces the specified rows and cursor |
| `MimeStore.MessageStore.EachPart` | src/dm_message.c:546-586 | the loop over the parts ignores failures and restores its cursor as specified |
| `WireSpec.WriteSound` | src/clientbase.c:276-391 | with the bytes on the wire defined from the record of calls and answers alone, partial writes, soft and hard errors and TLS retries keep wire ++ pending equal to queued, and the result is 1 if and only if everything is on the wire |
| `WireSpec.ExactlyOnce` | src/clientbase.c:276-405 | over any run of writes, TLS start and length queries without a hard error, wire ++ pending is exactly the messages, and a held TLS segment is a prefix of pending |
| `WireSpec.WriteRecords` | src/clientbase.c:302-391 | the record holds the answers of the transport in order, each call with the segment it was given |
| `WireSpec.SegmentsRepeated` | src/clientbase.c:308-341 | over any run a segment that `SSL_write` did not take is given again unchanged |
| `WireSpec.CodeExactly` | src/clientbase.c:302-391 | a write fails if and only if its last call met a hard error, and stops short only when the last call took nothing or the transport gives no more answers |
| `WireSpec.WantReadRetried` | src/clientbase.c:325-331 | under TLS a write does not give up on WANT_READ while there are retries and answers |
| `WireSpec.NothingAfterError` | src/clientbase.c:292-405 | after a hard error nothing more is written, and a length query drops what is left |
| `WireSpec.CopiedExactly` | src/clientbase.c:310-313 | the TLS copy of a segment is the segment up to its first NUL, and NUL from there on |
| `WireSpec.ProgressFinishes` | src/clientbase.c:302-391 | a transport that takes a byte at every call gets everything within as many calls as there are bytes |
| `WireSpec.Delivered` | src/clientbase.c:276-391 | after any run, a transport that takes all it is given gets everything ever written, with result 1 |
| `WireSpec.InputIntact` | src/clientbase.c:412-526 | over any run bytes handed out ++ bytes unread are the bytes received |
| `WireSpec.ReadExactly` | src/clientbase.c:473-495 | a read hands out the next n bytes if n are unread, and otherwise nothing |
| `WireSpec.LineIsOneLine` | src/clientbase.c:497-526 | a line handed out ends at its first LF |
| `WireSpec.NoLineExactly` | src/clientbase.c:497-526 | no line is handed out if and only if there is no LF within the line limit |
| `WireSpec.LineErrorExactly` | src/clientbase.c:497-526 | a line is given up with an error if and only if there is an LF but none within the limit |
| `ClientBase.Client.Write` | src/clientbase.c:276-391 | the retry loop, with its offsets, held segment and record of calls, equals the specification, and the byte counter grows by what is on the wire |
| `ClientBase.Client.WbufLen` | src/clientbase.c:393-405 | tells what is left to write, and drops the buffer after a hard error |
| `ClientBase.Client.Receive` | src/clientbase.c:412-471 | everything available is appended and counted |
| `ClientBase.Client.Read` | src/clientbase.c:473-495 | hands out the next n bytes if n are unread, and otherwise nothing |
| `ClientBase.Client.ReadLn` | src/clientbase.c:497-526 | the line reader equals the specification |
| `MailboxMatch.StateIsRun` | src/dm_db.c:73-145 | the scan state at each character is membership in an `&`...`-` run |
| `MailboxMatch.PatternsMean` | src/dm_db.c:2391-2403 | for a name without `%` or backslash, a stored name matches both patterns if and only if it has equal length, is identical inside every run and equal up to case elsewhere |
| `MailboxBackslash.HarmlessSelects` | src/dm_db.c:73-145 | with backslashes only at the end or before an underscore, the query reads such an underscore as any character and otherwise compares as promised |
| `MailboxBackslash.SelfMatchExactly` | src/dm_db.c:73-145 | a name without `%` is selected by its own patterns if and only if every backslash stands at the end or before an underscore |
| `MailboxBackslash.MeansExactly` | src/dm_db.c:2391-2403 | for a name without `%` the query selects exactly the names of the same mailbox if and only if no backslash stands before the last character |
| `MailboxMatch.Escape` | src/dm_db.c:81-92 | the copy with escaped underscores fits its buffer exactly |
| `MailboxMatch.Scan` | src/dm_db.c:96-141 | the loop that reads from the buffer it overwrites still produces both patterns |
| `MailboxMatch.BuildPatterns` | src/dm_db.c:73-145 | the patterns are those of the specification |
| `Tokenizer.TokensNest` | src/dm_imapsession.c:2098-2213 | a line that tokenizes has properly nested () and [] tokens, at most MAX_ARGS - 1 of them |
| `Tokenizer.TokensReadBack` | src/dm_imapsession.c:2098-2213 | any list of tokens written on a line, with quotes escaped by a backslash, is read back as its first 511 tokens; a bracket that does not match or stays open fails, and a literal at the end is announced |
| `TokenForest.NestedExactly` | src/dm_imapsession.c:2116-2154 | the bracket stack accepts exactly the tokens that are the text of a forest of words and bracketed groups |
| `TokenForest.LineIsForest` | src/dm_imapsession.c:2098-2213 | a line that tokenizes yields the text of a forest, with at most 511 tokens |
| `TokenForest.ForestReadsBack` | src/dm_imapsession.c:2098-2213 | tokens that fit and do not end in a literal are read back if they are the text of a forest, and refused otherwise |
| `Tokenizer.UnclosedQuote` | src/dm_imapsession.c:2100-2114 | a quoted string that is not closed is dropped without an error |
| `Tokenizer.OpenIsClosed` | src/dm_imapsession.c:470-482 | an open parenthesis is closed by a later token |
| `Tokenizer.TokenizeLine` | src/dm_imapsession.c:2098-2213 | the scanning loop with its bracket stack equals the specification |
| `Tokenizer.WalkList` | src/dm_imapsession.c:470-482 | the header-field walk stops at the first argument `)`, or runs past the last argument if there is none |
| `Tokenizer.WalkStaysInside` | src/dm_imapsession.c:470-482 | on a line that tokenized, the walk stays inside the arguments if and only if a bracket `(` is open where it starts, or a later argument is a bracket `(` or a quoted `)` |
| `Tokenizer.WalkAfterBracket` | src/dm_imapsession.c:470-482 | in particular it does after a bracket `(`, which is what the walk relies on |
| `Tokenizer.QuotedParenthesis` | src/dm_imapsession.c:466-482 | the arguments 1 BODY[HEADER.FIELDS "("] tokenize, pass the test for `(`, and nothing closes the list |
| `HeaderPrefetch.ServeKeeps` | src/dm_imapsession.c:777-957 | every fetch keeps later messages complete below the ceiling and absent above it |
| `HeaderPrefetch.PrefetchExactly` | src/dm_imapsession.c:806-957 | for every ascending choice of messages each gets its own headers if and only if it has none or lies within the reach of the queries so far |
| `HeaderPrefetch.LongSkipMisses` | src/dm_imapsession.c:1169-1169 | skipping more than a batch loses the headers of the next message |
| `HeaderPrefetch.PrefetchInvisible` | src/dm_imapsession.c:806-957 | without skips every message gets exactly what a query for it alone gives |
| `HeaderPrefetch.QueriedOnce` | src/dm_imapsession.c:816-823 | each id lies in exactly one query range, and after k queries the ceiling is ids[min(2000k, n-1)] |
| `HeaderPrefetch.Session.ReadRows` | src/dm_imapsession.c:905-941 | the row loop appends each wanted row to its message |
| `HeaderPrefetch.Session.FetchHeaders` | src/dm_imapsession.c:762-958 | one message is served from memory or by a query as specified |
| `HeaderPrefetch.Session.FetchAll` | src/dm_imapsession.c:762-958 | a FETCH of the whole list sends each message its own headers |
| `BaseSubject.PackChar` | src/dm_misc.c:477-487 | the in-place loop leaves one of each run of the character, terminated |
| `BaseSubject.LeaderShrinks` | src/dm_misc.c:559-574 | removing leaders shortens the text or leaves it unchanged |
| `BaseSubject.TurnShrinks` | src/dm_misc.c:594-633 | a pass that goes on is shorter, and the last pass changes nothing, so the loops end |
| `BaseSubject.StripBlobPrefix` | src/dm_misc.c:506-528 | the two scans remove a leading blob exactly when text is left after it |
| `BaseSubject.StripSubLeader` | src/dm_misc.c:559-574 | the blob loop and the reply loop equal the specification |
| `BaseSubject.DmBaseSubject` | src/dm_misc.c:576-639 | the nested loops end on every text with the specified result |
| `SubjectLaws.BaseIdempotent` | src/dm_misc.c:576-639 | the base subject of a base subject is itself |
| `SubjectLaws.BaseClean` | src/dm_misc.c:576-639 | the result is lower-case, packed and trimmed, with no prefix, blob, wrapper, trailer or colon left that the rules remove |
| `SubjectSteps.BaseReached` | src/dm_misc.c:506-639 | the base subject is reached from the subject by the removals of section 2.1 of RFC 5256 (blanks, blobs, reply words, trailers, wrappers, colons) alone, in lower case |
| `SubjectSteps.NothingLeft` | src/dm_misc.c:506-639 | no such removal applies to a base subject |
| `Replies.ReplyKeepsBase` | src/dm_misc.c:576-639 | `Re: s`, `Fw: s` and `Fwd: s` have the base subject of s if and only if s is not made of (fwd) trailers alone |
| `Crlf.OutputFits` | src/dm_misc.c:2437-2466 | the output never exceeds n plus twice the number of LFs, although `prev` starts with the last input character |
| `Crlf.EncodeIdempotent` | src/dm_misc.c:2437-2466 | encoding without dots is idempotent |
| `Crlf.ContentKept` | src/dm_misc.c:2437-2466 | up to line ends the encoding is the text |
| `Crlf.LinesExactly` | src/dm_misc.c:2437-2466 | every LF of the output has its CR if and only if the text does not start with LF and end with CR |
| `Crlf.NoEndMark` | src/dm_misc.c:2437-2466 | dotted output never contains LF . CR LF (section 3 of RFC 1939) |
| `Crlf.DotsUndone` | src/dm_misc.c:2437-2466 | a receiver that removes one dot per line gets the undotted text if and only if the input does not start with a dot and end without LF |
| `Crlf.SizeExactly` | src/dm_misc.c:1607-1632 | the announced size is the encoded length if and only if the text does not start with LF and end with CR |
| `Crlf.EncodeBuffer` | src/dm_misc.c:2437-2466 | the two-pass loop writes the encoding inside its buffer with room for the terminator |
| `Crlf.GetSizes` | src/dm_misc.c:1607-1632 | the loop computes the announced size and one plus the number of LFs |
| `PoolString.UnescapeUndoesEscape` | src/dm_string.c:183-200 | unescaping undoes backslash-escaping of quotes and backslashes |
| `PoolString.UnescapeChanges` | src/dm_string.c:183-200 | text changes, and gets shorter, if and only if it holds an escape pair |
| `PoolString.PString.Append` | src/dm_string.c:50-67 | appending formats once if it fits and otherwise exactly twice, yields old ++ new and keeps the terminator |
| `PoolString.PString.AppendLen` | src/dm_string.c:128-141 | appends the bytes and keeps the terminator |
| `PoolString.PString.Erase` | src/dm_string.c:153-172 | removes exactly the given stretch, or everything from the position on |
| `PoolString.PString.Truncate` | src/dm_string.c:174-181 | cuts to a prefix, or does nothing when already short enough |
| `PoolString.PString.Unescape` | src/dm_string.c:183-200 | the two-cursor loop leaves the unescaped text, with the length field right |

## Left out

- SQL execution, transactions and schema: tables are maps; each statement or transaction is one atomic step.
- GMime parsing, iconv, digests and the extraction of a boundary from a header: abstract functions of the header text.
- The event loop, sockets, TLS handshake, timeouts, retry pauses, configuration, logging and authentication.
- The second strategy of the counter update, \Recent flushing and its queue, physical row deletion, and `mailbox_sync_deleted=2`.
- In the refresh protocol, the lowered counter with which a session forces a refresh after its own APPEND.
- The search-key parser, the alternative strategy that answers leaves from the cached state, and the modseq filter; the model starts from the built tree.
- Searches on an empty mailbox.
- Signs and blanks that `strtoull` accepts in numbers of sets and literals.
- Literals and the AUTHENTICATE branches of the tokenizer; the model tokenizes a fresh line.
- Blob deduplication, and the message types other than `message/rfc822` that are stored as plain parts.
- NUL bytes on the wire, in names and in pool strings: the C strings end there.
- RFC 2047 decoding in front of the base subject, and case folding outside ASCII; the in-place moves of the subject buffer are modelled as assignments of the new text, except in `pack_char`.
- Failing header queries and the cursor shared by several header sections of one FETCH.
- listex_match, match_glob, cidr_match, access rights, delivery status tables and capability lists: lookups and matchers that no modelled operation depends on.
- AddMsginfo: does not model the queue of recent messages that `MailboxState_build_recent` fills.
- MailboxStatus: does not model the RECENT, FLAGS and FETCH responses; the comparison that leads to the update is in `RefreshSkips`.
- PrescanTop: a set that does not parse ends the traversal in the source; the theorems about searches assume valid sets.
- Receive: does not model the error and end-of-file answers of a read, which change only the client's state flags.
- StatusSound: assumes loaded mailboxes with fewer than 2^31 messages, because the counter is compared as a signed 32-bit number.
- ExistsExactly: the same bound on both views; `ExistsIsLarger` says what a larger counter gives.
- NewMailCounted: the same bound on both views.
- TokensReadBack: speaks of lines in which one space separates the tokens.
- ExistsNeverDrops: assumes the same of every loaded mailbox.
- SkipSoundExactly: assumes fewer than 2^32 bumps since the cached counter was read, because the comparison truncates to 32 bits; SkipsExactly gives the exact condition of the comparison.
- RoundTripExactly: assumes at most 64 levels, boundaries without line feed that differ from the enclosing multipart's, and, after a leaf without body whose head does not rule out `message/rfc822`, a head that starts with text.
- MeansExactly: leaves out names with `%`, which callers use as wildcards; a backslash at the end of a pattern is read as itself, as MySQL does.
- FlatExactly: leaves out keys in which such an OR stands below another key; SearchComputes says what every tree computes.
- SetMeaning: states the well-formed sets on a non-empty mailbox; RefusedExactly and EmptySetMeaning cover refused texts and empty mailboxes, and GetSet models the rest.
