# A verified model of the URL shortener's storage

The service keeps short URLs in one of two storages: a map in memory, optionally logged to a CSV
file, or an SQL database with a write-behind buffer for deletions. This project models both, the id
scheme they share, the handler loops that depend on them, and the repository's `os.Exit` analyzer,
and proves what they keep over whole runs. `dafny verify dfyconfig.toml` checks everything.

- `Types.dfy`: entries, the order in which they may evolve, the in-memory store and lookup.
- `Interleaving.dfy`, `ConcurrentRuns.dfy`: the in-memory storage as a concurrent step system. Each
  `sync.Map` operation and each hand-off over the channel is one atomic step; `Range` visits no key
  twice, may see any value a key had since it began, and ends only when every key present throughout
  has been visited. The invariant holds in every interleaving of any number of calls.
- `InMemory.dfy`: the same methods run alone, with their loops and the `ids` array shrunk in place.
- `FileLog.dfy`: the append-only file as records, replay with the last one winning, and histories in
  which calls are served at any point of a flush. `FileText.dfy`, `Csv.dfy`: the text of the file.
  `FileWriter.dfy`: how much of a flush reaches it. `FileTorn.dfy`, `CsvTorn.dfy`: what a file cut anywhere
  loads as. `FileRuns.dfy`, `FileSpoiled.dfy`, `TwoFlushes.dfy`: what further flushes make of such a file.
- `Base64.dfy`, `Handlers.dfy`: ids, batch shortening, redirecting.
- `Database.dfy`, `WriteBehind.dfy`, `WriteBehindRuns.dfy`, `WriteBehindModes.dfy`: the gob encoder, the
  `bufio.Writer` of 4096 bytes with its sticky error, decoding into a reused slice, the generated
  `UPDATE`, runs of delayed against immediate deletion, and what any run whatever applies.
- `TwoSections.dfy`, `SectionRuns.dfy`: `DeleteURLs` calls whose two locked sections interleave with each
  other and with flushes.
- `Agreement.dfy`: both storages behind the same calls.
- `OsExitCheck.dfy`: the analyzer's two traversals.

A Go string is a sequence of bytes, modelled as a `string` whose characters are below 256 where bytes
matter. An encoded message is a run of abstract bytes that know their message and position, so that
cutting a message in two, or losing its type, is visible to the decoder.

## Where the code does not keep what it promises

Each has its exact condition, and the code is modelled as it is.

- The delete buffer keeps its stream whole exactly when the next batch fits in it
  (`WriteBehind.KeepsStreamIff`). Behind a partly filled buffer an oversized batch loses everything
  queued and every later deletion (`WriteBehindRuns.OverflowLosesAll`).
- The queue decodes to what was asked exactly when every empty field meets an empty leftover of the
  reused slice at its position (`WriteBehind.QueueExact`); otherwise an earlier field leaks, and a URL
  can be deleted that its owner did not name (`WriteBehind.EmptyIdDeletesAnother`).
- A flush fails, for good, exactly when something is queued and it is empty id lists only, or the server
  does not answer (`WriteBehind.FlushOutcome`).
- Two parameters are bound per id and a PostgreSQL statement takes 65535. A list of more than 32767
  ids, which goes straight through the buffer, is refused and breaks the writer, while the memory
  deletes it (`Agreement.DeleteAgrees`).
- `DeleteURLs` locks its mutex twice and its calls share a scratch array in between. However the
  sections of any number of calls interleave, the buffer holds what they asked exactly when each wrote
  its own bytes and the type came first (`TwoSections.StreamIntactIff`; with flushes and overflows
  `SectionRuns.StaysWholeIff`). Two crossing calls of different sizes in one array lose everything queued
  (`TwoSections.CrossedLosesAll`), and a flush between the sections of a call loses it unless it was
  the first and no other call follows (`TwoSections.FlushBetweenLater`, `TwoSections.FlushBetweenThenCall`).
- Delayed deletion also deletes what is stored while its own deletion is queued
  (`WriteBehindRuns.DeferredIsImmediate`).
- The csv writer is never flushed, so a snapshot reaches the file in full exactly when the store is
  empty (`FileWriter.FlushIncomplete`). The replay results of `FileLog` therefore speak of the records
  given to the writer; what the file itself loads as is the subject of the next three.
- A file that ends in a cut line is unreadable, or makes New panic, unless the cut fell behind the first
  letter of the flag or before the line end (`FileTorn.FileReads`).
- The program flushes again before it ends when it serves gRPC. What the second flush appends is loaded
  unharmed exactly when the file ended at a line boundary; behind an id cut short its first record is
  loaded under a wrong id (`FileRuns.NewAfterFlush`, with an input in `TwoFlushes.TwoFlushesRename`).
- Behind a line cut after its id the row becomes too long, and the file stays unreadable whatever is
  appended later (`FileSpoiled.SpoiledForever`; the exceptions are in `FileSpoiled.SpoiledByLine` and
  `FileSpoiled.SpoiledByPart`).
- Loaded values have a struct type the assertions in `inmemory.go` reject
  (`FileLog.RestartPanics`). The other results assume one record type.
- A CSV table survives the file exactly when no field holds a CRLF (`Csv.RoundTrip`).
- The empty URL can be stored and is never found again (`Handlers.RedirectsBack`); any other is handed
  to `http.Redirect`, which rewrites one without scheme and host.

## Model

| member | source | states |
|---|---|---|
| Base64.Encode | internal/shortener/shortener.go:38-42 | the id of n bytes has ceil(4n/3) characters and no slash |
| Base64.RoundTrip | internal/shortener/shortener.go:38-42 | a decoder recovers exactly the URL from its id and accepts no other id |
| Base64.Injective | internal/shortener/shortener.go:38-42 | different URLs have different ids |
| Base64.OneByteVector | internal/shortener/shortener.go:40 | a test vector of section 10 of RFC 4648 whose padding is left out |
| Base64.ThreeByteVector | internal/shortener/shortener.go:40 | a test vector of section 10 of RFC 4648 |
| Base64.UrlDigitsVector | internal/shortener/shortener.go:40 | the two digits of section 5 of RFC 4648 that differ from plain base64 |
| Base64.UrlVector | internal/shortener/shortener.go:38-42 | the id of the URL http is aHR0cA |
| Base64.DigitIsLetter | internal/shortener/shortener.go:40 | the digits are the 64 letters of the URL-safe alphabet of section 5 of RFC 4648, written out, in both directions |
| Base64.EncodesOne | internal/shortener/shortener.go:40 | one byte is the two letters whose number is its bits and four zeros |
| Base64.EncodesTwo | internal/shortener/shortener.go:40 | two bytes are the three letters whose number is their bits and two zeros |
| Base64.EncodesThree | internal/shortener/shortener.go:40 | three bytes are the four letters whose number is theirs |
| Base64.EncodesInThrees | internal/shortener/shortener.go:40 | a longer URL is encoded three bytes at a time |
| Base64.FitsColumn | internal/storage/database/database.go:84-90 | an id fits its column exactly when the URL has at most 75 bytes |
| Interleaving.StepKeepsInv | internal/storage/inmemory/inmemory.go:66-225 | every step of every call keeps the invariant, and no step loses a key, changes a url or owner, or undoes a deletion |
| Interleaving.WriteBackPrecedes | internal/storage/inmemory/inmemory.go:186 | the older copy DeleteURLs writes back differs from the current value in the deleted flag only |
| Interleaving.ItemTaken | internal/storage/inmemory/inmemory.go:181-192 | one turn of the consumer keeps the invariant: no id whose key is still to come is dropped from the slice, duplicates included |
| ConcurrentRuns.RunKeepsInv | internal/storage/inmemory/inmemory.go:66-225 | over any interleaving keys only grow, url and owner are fixed and deletion is one-way |
| ConcurrentRuns.StoreTakesEffect | internal/storage/inmemory/inmemory.go:92-98 | whatever runs after a store, the entry is there with its url and owner, or the older one with its own, and LoadURL answers that url or gone |
| ConcurrentRuns.OnlyStoresAdd | internal/storage/inmemory/inmemory.go:92-98 | every entry was there at the start or was stored in the run with its url for its owner |
| ConcurrentRuns.GoneForever | internal/storage/inmemory/inmemory.go:66-98 | a deleted id answers gone and conflicts on store from then on |
| ConcurrentRuns.DeleteTakesEffect | internal/storage/inmemory/inmemory.go:171-225 | when DeleteURLs returns, every listed entry of the user that existed at its start is deleted, url and owner intact |
| ConcurrentRuns.OnlyOwnersDelete | internal/storage/inmemory/inmemory.go:171-225 | an entry becomes deleted only by a request of its owner naming its id |
| ConcurrentRuns.DeletesConfluent | internal/storage/inmemory/inmemory.go:171-225 | without stores, all interleavings of returned calls end in the same map: exactly the requested entries are deleted |
| ConcurrentRuns.LoneDelete | internal/storage/inmemory/inmemory.go:171-225 | a call running alone is the immediate deletion of the user's listed entries |
| ConcurrentRuns.ListIsComplete | internal/storage/inmemory/inmemory.go:79-89 | LoadUrlsByUser lists every entry live from start to end, none twice, and only entries that were live during the call |
| ConcurrentRuns.NoDeadlock | internal/storage/inmemory/inmemory.go:172-225 | until a call has returned one of its steps is enabled and its context is not cancelled |
| ConcurrentRuns.CallsTerminate | internal/storage/inmemory/inmemory.go:172-225 | a call takes at most three steps per key at its start, three per store made meanwhile, and three more |
| ConcurrentRuns.CanFinishAlone | internal/storage/inmemory/inmemory.go:172-225 | from every reachable state a call can return by its own steps only |
| InMemory.Store.LoadURL | internal/storage/inmemory/inmemory.go:66-76 | missing, gone or the stored url |
| InMemory.Store.StoreURL | internal/storage/inmemory/inmemory.go:92-98 | an existing id is a conflict and changes nothing, a new one is added live |
| InMemory.Store.LoadUrlsByUser | internal/storage/inmemory/inmemory.go:79-89 | each live URL of the user is listed exactly once, nothing else is |
| InMemory.Store.CountURLs | internal/storage/inmemory/inmemory.go:132-142 | the number of keys |
| InMemory.Store.CountUsers | internal/storage/inmemory/inmemory.go:117-130 | the number of distinct owners of all entries, deleted ones included |
| InMemory.UsersExact | internal/storage/inmemory/inmemory.go:117-130 | a user counts exactly if some entry, deleted or not, is theirs |
| InMemory.Store.DeleteURLs | internal/storage/inmemory/inmemory.go:171-202 | exactly the user's listed entries become deleted; remaining plus matched ids are the caller's ids as multisets, duplicates included |
| InMemory.RemoveAt | internal/storage/inmemory/inmemory.go:187 | the in-place append removes one element and keeps the others in order |
| InMemory.Conservation | internal/storage/inmemory/inmemory.go:117-142 | CountURLs is the deleted entries plus all users' listed ones, and there are no more users than URLs |
| InMemory.DeletionKeepsCounts | internal/storage/inmemory/inmemory.go:117-142 | deleting changes neither CountURLs nor CountUsers |
| FileLog.ReplayPartial | internal/storage/inmemory/filestorage/filestorage.go:51-58 | after part of a snapshot a key reads as now if it was reached and as before if not |
| FileLog.SnapshotReplays | internal/storage/inmemory/inmemory.go:145-168 | after a whole snapshot of a map with all the file's keys the file replays to that map |
| FileLog.StepChanges | internal/storage/inmemory/inmemory.go:66-225 | every step of every interleaved call is a change of the map that the histories allow |
| FileLog.ReplayBetween | internal/storage/inmemory/inmemory.go:145-168 | from start-up, over any history of calls, restarts and flushes, broken off or not, with calls served during a flush, replay lies between the map when the last complete flush began and memory |
| FileLog.ReplayIsLastFlush | internal/storage/inmemory/inmemory.go:42-63 | from start-up, when no flush broke off and no call changed the map during one, replay is the map as of the last flush, whatever order it was written in |
| FileLog.RestartIsLastFlush | internal/storage/inmemory/inmemory.go:42-63 | after such a history a restart brings the map as of the last flush into memory |
| FileLog.RestartLoads | internal/storage/inmemory/inmemory.go:42-63 | a restart loads the replay of the file into memory and changes nothing in the file |
| FileLog.FlushPersists | internal/storage/inmemory/inmemory.go:145-168 | what there is when a complete flush begins is in memory and in every replay from then on, with its url and owner, whatever follows |
| FileLog.StoredSurvives | internal/storage/inmemory/inmemory.go:92-98 | a URL stored after any history and flushed completely comes back after every later restart |
| FileLog.FileManager.Flush | internal/storage/inmemory/inmemory.go:145-168 | running alone, hands the writer each entry at most once, field by field as it is in memory, all of them exactly when the writer reports no error |
| FileText.ReadFile | internal/storage/inmemory/filestorage/filestorage.go:34-61 | loads the replay of the rows, fails on a bad flag, panics on a first bad row that is too short |
| FileText.TextReadsBack | internal/storage/inmemory/filestorage/filestorage.go:44-58 | the text of a log parses back to its records, deleted flags included |
| FileText.LineVector | internal/storage/inmemory/filestorage/filestorage.go:71-78 | the text of one record written out, id, url, owner and flag in this order |
| FileText.OneLineReads | internal/storage/inmemory/filestorage/filestorage.go:51-58 | one printed line is read back as one entry, field by field |
| FileText.FlagSpellings | internal/storage/inmemory/filestorage/filestorage.go:52-55 | the spellings accepted as a deleted flag, written out |
| FileText.TextAppends | internal/storage/inmemory/filestorage/filestorage.go:71-78 | appending records appends their text |
| FileText.Reload | internal/storage/inmemory/inmemory.go:42-63 | loading the text of a log gives its replay |
| FileWriter.FlushIncomplete | internal/storage/inmemory/inmemory.go:152-160 | however the csv writer cuts the text and whether or not long strings are forwarded: the file receives a prefix lacking at most 4096 bytes, the whole exactly when the snapshot is empty, and nothing exactly up to 4096 bytes |
| FileWriter.ReceivedBlocks | internal/storage/inmemory/inmemory.go:152-160 | when no string is longer than the buffer the file receives all whole blocks of 4096 bytes but the last |
| FileWriter.SmallFlushIsLost | internal/storage/inmemory/inmemory.go:145-168 | a store of one URL, flushed, leaves the file unchanged |
| FileTorn.CutBeforeFlag | internal/storage/inmemory/filestorage/filestorage.go:44-56 | behind any log, a line cut before its flag is an error, or a panic exactly when it is the first and the cut lies outside quotes |
| FileTorn.CutAtFlag | internal/storage/inmemory/filestorage/filestorage.go:44-56 | a line cut at its flag loads as if whole exactly when the first letter of the flag or all of it is left, and is an error otherwise |
| FileTorn.FileReads | internal/storage/inmemory/filestorage/filestorage.go:34-61 | what New makes of whole lines and the first bytes of one more, for every number of bytes |
| FileTorn.TornFile | internal/storage/inmemory/filestorage/filestorage.go:71-78 | any part of a text appended to whole lines is whole lines and the first bytes of one more |
| FileRuns.AppendExact | internal/storage/inmemory/filestorage/filestorage.go:71-78 | any part of a text appended at a line boundary or behind part of an id is such a file again, its first record under both parts of the ids |
| FileRuns.NewAfterFlush | internal/storage/inmemory/inmemory.go:145-168 | what New makes of the file after a flush, calls being served meanwhile: what it loads is no older than before and no newer than in memory exactly when the file ended at a line boundary or a right record replaced the misnamed one |
| FileRuns.NewAfterFlushes | cmd/shortener/main.go:49-59 | the same outcome after any number of flushes none of which finds the file cut behind an id |
| FileRuns.BoundariesBetween | cmd/shortener/main.go:49-59 | after any number of flushes each of which finds the file ending at a line boundary, what New loads lies between the first log and memory |
| FileSpoiled.EveryCut | internal/storage/inmemory/filestorage/filestorage.go:71-78 | every cut of a line is so many bytes of one of its four fields |
| FileSpoiled.SpoiledForever | internal/storage/inmemory/filestorage/filestorage.go:44-56 | a whole line behind one cut after its id, in an unquoted field and behind a whole line, makes the file unreadable whatever follows |
| FileSpoiled.SpoiledByLine | internal/storage/inmemory/filestorage/filestorage.go:44-56 | the outcome when a whole line and any part of more follow such a cut: an error unless the two lines are all there is and their fourth field reads as a flag |
| FileSpoiled.SpoiledByPart | internal/storage/inmemory/filestorage/filestorage.go:44-56 | the outcome when only part of a line, cut in an unquoted field, follows: one row, loaded exactly if it has four fields or is the first and its fourth field reads as a flag |
| FileSpoiled.SpoiledInQuotes | internal/storage/inmemory/filestorage/filestorage.go:44-56 | text without quotes behind a line cut inside quotes leaves the file unreadable |
| TwoFlushes.TwoFlushesRename | internal/server/grpcserver/grpcserver.go:120-130 | two URLs of 1735 and 1736 bytes, flushed twice: New loads the second under an id that was never stored and not under its own |
| FileLog.RestartPanics | internal/storage/inmemory/inmemory.go:66-72 | after a restart LoadURL panics exactly for the loaded ids and answers what was first stored since for any other, ranging calls panic exactly when any record was loaded |
| Csv.PrintThenParse | internal/storage/inmemory/inmemory.go:152-155 | any table reads back with CRLF folded to LF, whatever commas, quotes and line breaks it holds |
| Csv.RoundTrip | internal/storage/inmemory/filestorage/filestorage.go:44-49 | a table reads back unchanged exactly when no field holds a CRLF |
| Csv.QuotedExactly | internal/storage/inmemory/inmemory.go:152-155 | an ASCII field is quoted exactly when it holds a comma, a quote or a line break, begins with white space or ends a COPY |
| Csv.QuoteVector | internal/storage/inmemory/inmemory.go:152-155 | three fields written out, a quote being doubled |
| Csv.BareQuote | internal/storage/inmemory/filestorage/filestorage.go:44-49 | a quote inside an unquoted field is an error |
| Csv.BehindQuote | internal/storage/inmemory/filestorage/filestorage.go:44-49 | text behind a closing quote is an error |
| Csv.OtherWidth | internal/storage/inmemory/filestorage/filestorage.go:44-49 | a record is an error exactly when its width is not that of the first, or what follows is |
| Csv.BlankLine | internal/storage/inmemory/filestorage/filestorage.go:44-49 | blank lines are skipped |
| Database.DecodeAll | internal/storage/database/database.go:355-375 | the decode loop computes the specified decoding of a byte stream, errors included |
| Database.BuildUpdate | internal/storage/database/database.go:381-389 | the i-th tuple is bound to the i-th queued id and user |
| Database.ExecuteMarksQueued | internal/storage/database/database.go:391-395 | up to 65535 bound parameters the statement marks exactly the rows whose id and user are queued, repeats included; with more, or with none, it is refused |
| Database.Database.Write | internal/storage/database/database.go:337-407 | decodes and applies all of its bytes or fails leaving the rows alone |
| Database.Database.WriteBuffered | internal/storage/database/database.go:314-320 | the buffered writer's fill, flush and pass-through loop ends in the specified state |
| Database.Database.DeleteURLs | internal/storage/database/database.go:302-323 | encodes the user's items, with the type if not yet sent, and hands them to the writer |
| Database.Database.FlushBuffer | internal/storage/database/database.go:502-510 | renews the encoder and empties the buffer or breaks the writer |
| Database.Database.StoreURL | internal/storage/database/database.go:137-164 | conflict exactly on a known url that fits, otherwise a new live row or an error and no change |
| Database.Database.LoadURL | internal/storage/database/database.go:166-204 | the empty string for a missing row, gone for a deleted one, else its url |
| Database.CharVector | internal/storage/database/database.go:84-90 | the columns count characters of UTF-8, not bytes: three in a sample of six bytes |
| WriteBehind.DecodeStream | internal/storage/database/database.go:355-375 | a type followed by whole batches decodes batch by batch through the reused slice |
| WriteBehind.BatchExact | internal/storage/database/database.go:357-373 | a batch decodes to itself after anything exactly when no field is empty |
| WriteBehind.QueueExact | internal/storage/database/database.go:355-375 | a queue decodes to exactly its items if and only if every empty field meets an empty leftover |
| WriteBehind.EmptyIdDeletesAnother | internal/storage/database/database.go:357-373 | a request for the empty id deletes a URL its owner did not name |
| WriteBehind.FlushOutcome | internal/storage/database/database.go:502-510 | succeeds exactly when nothing is queued, or the server answers and more than empty lists are; applies what the queue decodes to |
| WriteBehind.DeleteQueues | internal/storage/database/database.go:302-335 | a batch that fits is queued behind the others |
| WriteBehind.OverflowEmpty | internal/storage/database/database.go:302-335 | a batch too big for an empty buffer is applied exactly when the server runs its statement, leaving the encoder stale, and breaks the writer otherwise |
| WriteBehind.OverflowPartial | internal/storage/database/database.go:302-335 | behind a partly filled buffer it always breaks the writer and marks nothing |
| WriteBehind.OverflowFull | internal/storage/database/database.go:302-335 | behind a full buffer the queue is applied if the server runs it; the batch then lies untyped in the buffer when it fits and breaks the writer when not |
| WriteBehind.KeepsStreamIff | internal/storage/database/database.go:302-335 | the stream stays type info and whole batches exactly when the batch fits the buffer |
| WriteBehind.OrphanIsLost | internal/storage/database/database.go:502-510 | a batch without its type is never applied |
| WriteBehind.StaleLosesNext | internal/storage/database/database.go:502-510 | after a pass-through write the next batch is lost unless a flush comes first |
| WriteBehindRuns.AdmissibleExact | internal/storage/database/database.go:302-323 | exactly the calls that fit the buffer, meet the leftovers and flush no queue of empty lists keep the buffer decoding to the queue |
| WriteBehindRuns.StaysGoodIff | internal/storage/database/database.go:302-323 | over a whole run the buffer decodes to the queue after every call exactly when every call is admissible |
| WriteBehindRuns.RemoveRefines | internal/storage/database/database.go:302-323 | with queued deletions applied, DeleteURLs is an immediate deletion |
| WriteBehindRuns.FlushRefines | internal/storage/database/database.go:502-510 | a flush changes nothing abstractly and makes the rows equal to the abstract ones |
| WriteBehindRuns.StoreRefines | internal/storage/database/database.go:137-164 | a store answers as on the abstract rows, and a row whose deletion is queued is abstractly deleted |
| WriteBehindRuns.StoreAnswersSame | internal/storage/database/database.go:137-164 | throughout a run StoreURL answers as under immediate deletion |
| WriteBehindRuns.DeferredIsImmediate | internal/storage/database/database.go:302-323 | after any admissible run and a flush the rows are those of immediate deletion, except for ids stored while queued |
| WriteBehindRuns.FlushDecodesQueue | internal/storage/database/database.go:337-375 | in any admissible run the buffer decodes to exactly the queued items, in order |
| WriteBehindRuns.BrokenForever | internal/storage/database/database.go:316-319 | after a writer error no deletion is ever applied |
| WriteBehindRuns.OverflowLosesAll | internal/storage/database/database.go:302-335 | an oversized batch behind a partly filled buffer loses all queued and later deletions |
| WriteBehindModes.CallExact | internal/storage/database/database.go:302-335 | from every state a run can reach, each call, with the server up or down, leads to the computed state and applies exactly the computed items |
| WriteBehindModes.DeletedExactly | internal/storage/database/database.go:302-407 | after any run whatever, an entry is deleted exactly when it was before or the run applied an item with its id and owner |
| WriteBehindModes.StoreExact | internal/storage/database/database.go:137-164 | in a run a store adds a live row exactly when the columns of 100, 100 and 38 characters hold it, url and id are new and the user is known |
| WriteBehindModes.StoredRowStays | internal/storage/database/database.go:137-164 | whatever runs after it, the stored row keeps its url and owner |
| WriteBehindModes.RequestedAndFlushed | internal/storage/database/database.go:302-407 | a list that fits, and a flush the server answers, delete exactly the listed rows of the user |
| WriteBehindModes.OversizedThenFlush | internal/storage/database/database.go:302-335 | an oversized list on an empty buffer is applied in full when the server answers, and a flush makes the buffer as new |
| WriteBehindModes.AdmissibleHolds | internal/storage/database/database.go:302-335 | an admissible call keeps the buffer a queue, and a flush applies what was queued |
| TwoSections.Uninterrupted | internal/storage/database/database.go:309-316 | the two locked sections with nothing in between are the atomic DeleteURLs |
| TwoSections.StreamIntactIff | internal/storage/database/database.go:302-335 | in every interleaving of the two sections of any number of calls that fit, without flushes, the buffer holds what was asked exactly when each call wrote its own bytes and the type came first |
| TwoSections.CrossedCallsQueuedIff | internal/storage/database/database.go:325-335 | two crossing calls behind a queue are both queued exactly when the scratch array is not reused or they ask the same |
| TwoSections.CrossedLosesAll | internal/storage/database/database.go:309-316 | two crossing calls of different sizes in one scratch array make the next flush lose them and everything queued |
| TwoSections.FirstCallLost | internal/storage/database/database.go:325-335 | crossing calls of the same size queue the second twice and lose the first |
| TwoSections.FlushBetweenBreaks | internal/storage/database/database.go:309-316 | a flush between the two sections of a call leaves a stream the encoder does not go on from |
| TwoSections.FlushBetweenFirst | internal/storage/database/database.go:309-316 | behind an empty queue the next flush applies the call, unless its list is empty |
| TwoSections.FlushBetweenThenCall | internal/storage/database/database.go:309-316 | another call before that flush loses both |
| TwoSections.FlushBetweenLater | internal/storage/database/database.go:309-316 | behind a queue the call is lost and the writer breaks, the queue being applied if it is more than empty lists |
| SectionRuns.StaysWholeIff | internal/storage/database/database.go:302-335 | in every interleaving of sections, overflowing writes and flushes, with the server up or down, the buffer always holds what was asked since the last flush exactly when every event is intact |
| SectionRuns.EncodeSpares | internal/storage/database/database.go:325-335 | when encoding one call leaves the bytes of another call as they are |
| Agreement.IdClashIsUrlClash | internal/storage/database/database.go:84-90 | an insert never hits an id clash without a url clash |
| Agreement.StoreAgrees | internal/storage/database/database.go:137-164 | StoreURL answers alike on both storages exactly when the row fits and a new row's user is known |
| Agreement.DeleteAgrees | internal/storage/database/database.go:302-323 | a deletion flushed at once is the in-memory one and the storages stay in step exactly when the server answers and the list has 1 to 32767 ids; otherwise the writer breaks and no row changes |
| Agreement.UsualExact | internal/storage/storage.go:46-60 | a call is answered alike and leaves the storages in step exactly when the database accepts its row or list |
| Agreement.MakeLongAgrees | internal/server/httpserver/handlers.go:185-205 | gone, not found and redirect come out alike for every id |
| Agreement.BackendsAgree | internal/storage/storage.go:46-60 | over any run of such calls both storages give the same replies |
| Agreement.StoreVisitDelete | internal/storage/storage.go:46-60 | on both storages a URL shortened, visited, deleted and visited again is answered stored, redirect, accepted and gone |
| Handlers.MakeLongExact | internal/server/httpserver/handlers.go:185-205 | gone exactly for deleted entries, http.Redirect exactly with a live entry's non-empty url |
| Handlers.RedirectsBack | internal/server/httpserver/handlers.go:185-205 | a stored URL is handed to http.Redirect exactly when it is not empty |
| Handlers.ClashIsStored | internal/storage/inmemory/inmemory.go:92-98 | during a batch an id is taken exactly when the URL was stored before or occurred earlier |
| Handlers.ShortenBatch | internal/server/httpserver/handlers.go:162-171 | a batch succeeds exactly when no URL clashes, answers base URL, slash and id in order, and otherwise adds exactly the prefix before the first clash |
| Handlers.BatchLeadsBack | internal/server/httpserver/handlers.go:162-171 | what lies behind the last slash of each answer is the id under which its URL was stored for the caller, and looking it up redirects there unless the URL is empty |
| Handlers.ShortURLVector | internal/shortener/shortener.go:48-50 | the answer to one request written out |
| OsExitCheck.Checker.InspectImports | cmd/staticlint/osexitcheck/osexitcheck.go:39-53 | the pruned import traversal finds the alias that WhichAlias describes |
| OsExitCheck.Checker.InspectCalls | cmd/staticlint/osexitcheck/osexitcheck.go:23-33 | reports the positions of the exit sites below a node, in order |
| OsExitCheck.Checker.Run | cmd/staticlint/osexitcheck/osexitcheck.go:16-71 | the two passes with both early returns report the positions of the computed sites, file by file |
| OsExitCheck.WhetherAlias | cmd/staticlint/osexitcheck/osexitcheck.go:37-59 | an alias is found exactly when some file imports os |
| OsExitCheck.WhichAlias | cmd/staticlint/osexitcheck/osexitcheck.go:37-54 | it is the name, or os without one, of the last os spec in the first declaration, of the first file, that has one |
| OsExitCheck.WhichCalls | cmd/staticlint/osexitcheck/osexitcheck.go:61-69 | exactly the calls in a function main that lie in no other call and call Exit on the alias, each once |
| OsExitCheck.WhatIsReported | cmd/staticlint/osexitcheck/osexitcheck.go:16-71 | for a package of Go files: in package main only, exactly the calls of Exit on the alias of os that lie in a function main and in no other call, each once |
| OsExitCheck.SmallFileReported | cmd/staticlint/osexitcheck/osexitcheck.go:16-71 | a file with one import, one function and one call is reported exactly when package and function are named main, the path is os in quotes, and the call is of Exit on the given name, or os without one |
| OsExitCheck.NestedCalls | cmd/staticlint/osexitcheck/osexitcheck.go:23-33 | a call is judged by what it calls and not entered |
| OsExitCheck.TwoSpecs | cmd/staticlint/osexitcheck/osexitcheck.go:39-53 | of two os specs in one declaration the second counts, of two in two declarations the first |

## Left out

- Database.Database.Write: the SQL server accepts the statement or fails for the whole of a call, given by a parameter; timeouts, transactions and connections are not modelled.
- Database.Database.StoreURL: text the server refuses as such, that is invalid UTF-8 or NUL bytes, and its cutting of trailing blanks are not modelled.
- Database.DecodeAll: gob's byte values are abstract; a message is a length byte, at least one byte for each item and a payload whose size is a parameter of the model.
- WriteBehindRuns.DeferredIsImmediate: calls do not overlap; TwoSections shows what overlapping does.
- TwoSections.StreamIntactIff: runs without flushes and overflowing writes; SectionRuns.StaysWholeIff has both.
- FileLog.FileManager.Flush: the loop running alone; the service flushes before it stops serving, and calls served meanwhile are in the histories of ReplayBetween and in FileRuns.NewAfterFlush. There is one flush at a time.
- FileRuns.NewAfterFlush: no field holds a CRLF; ids are those the service makes.
- FileSpoiled.SpoiledInQuotes: what a later quote makes of a line cut inside quotes.
- FileSpoiled.SpoiledByLine: a third flush behind two lines that ran into one at the start of the file.
- Handlers.RedirectsBack: http.Redirect itself, which makes a path of a URL without scheme and host.
- ConcurrentRuns.RunKeepsInv: the interleaved calls are DeleteURLs, LoadUrlsByUser, StoreURL and LoadURL; counting is modelled alone, a flush among changes of the map in `FileLog`.
- FileText.ReadFile: errors of opening and reading the file.
- OsExitCheck.WhichCalls: syntax trees are general, with kinds only for the nodes the analyzer tests.
- Sessions, tokens, UUIDs and AES in `auth.go`, and the user tables behind them.
- HTTP and gRPC plumbing, gzip, cookies, JSON and configuration; the gRPC batch loop repeats the HTTP one.
- `LoadUrlsByUser` and `CountUsers` of the database, which by design count deleted rows and sessions.
- The timer that flushes every five seconds: it calls `Flush`, which a run may do at any point.
