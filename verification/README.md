# loftail: a verified model of the live log core

loftail shows logs that grow while they are read. Its central promise is that a log tailed for
hours shows exactly what a fresh open would show. Almost everything hard in its core is an
incremental form that must agree with a simple one, or a protocol that must hold under every
interleaving. This project models those parts in Dafny and proves them.

| part | files |
|---|---|
| Records, filters, the line index | `Records`, `Filter`, `RecordIndex` |
| The live view: context emitter, visible subset, one tick, any history | `ContextEmitter`, `FilteredIndex`, `LiveView`, `Document`, `LiveController`, `LiveEqualsFresh`, `LiveRounds` |
| Bytes to lines to records, tail scans, batches | `Decoder`, `InternTable`, `Indexer`, `TailScan`, `IndexController` |
| The gate that runs work on the application thread | `GuiCallGate` |
| The wrapped-view line map | `GeometryMap` (on values), `EstimatedGeometry` (the cached form), `GeometryTruth` (over its whole life) |
| The density marks of the scrollbar | `DensityMap` |
| Runs, their statistics, highlight rules, the digest | `Runs`, `Highlight`, `DigestOrder`, `Digest` |
| Spool publication, and the reader that stops watching | `ArchiveFetcher`, `ConsoleFetcher` |

`dafny verify dfyconfig.toml` checks the whole project.

## How it is built

- An object whose methods update its fields is a class with those fields; each method is proved
  against a function of the old state, and the promises are lemmas about those functions.
- Threads are step relations: one step is one critical section, one post, one file operation or
  one return of a read. The invariants hold over every sequence of steps.
- Regexes, the decode of a message, timestamps and field parsers are uninterpreted functions of a
  record or of a line's bytes. Since bytes are only ever appended, a record that keeps its offset
  and length keeps its text.
- Ghost fields (the map a geometry stands for, the answers of a density probe) carry the abstract
  state; they are never part of a returned value.

## Where the code falls short of the promise

Nine forms do not always give what the simple one gives. Each is kept as the code has it, with
the exact condition proved for all inputs and a concrete case where it fails.

- A line that matched the record-start pattern while it was still unterminated and stops matching
  when it grows is kept as a record of its own by the tail scan, and becomes a continuation in a
  full index (`TailScans.SpliceEqualsIndex`, `TailScans.StartLostHappens`). The comment in
  LiveController.cpp:716-718 says a partial trailing line is not turned into a record; the scan
  does turn it into one at the end of the file, and the model follows the scan.
- A filter resolves its subsystem and thread names to ids before a tick. A name that the tick
  brings is in no filter's ids while its records are evaluated, so they stay hidden where a fresh
  open shows them. In a foreground tab the filter is resolved again behind each tick
  (MainWindow.cpp:4289-4290), without being applied, so the record stays hidden and later ones of
  the name are shown; in a background tab they are hidden too (`LiveRounds.RoundsAgainstFresh`,
  `LiveRounds.KnownNamesAreShown`, `LiveEqualsFresh.LateNameIsHidden`).
- The run list is extended over new records only, so a trailing record that gains or loses its
  marker by growing is not noticed (`Runs.HistoryEqualsDetect`, `Runs.GrownMarkerIsMissed`).
- Run statistics, file statistics and first instants go on from what they remember, so a trailing
  record they had folded before it grew keeps its first reading (`Runs.TickKeepsSound`,
  `Runs.GrownErrorIsNotCounted`, `Runs.GrownTimestampIsNotSeen`).
- The digest looks again only at entries that already name the trailing record, so a rule that
  starts to match it through growth is missed until a later match (`Digests.UpdateReaches`,
  `Digests.GrownTextIsMissed`).
- The wrapped view syncs only when the record count or the last record's physical height moved
  (EstimatedGeometry.cpp:251-252), so a measured last record that only widens keeps its height
  (`GeometryTruths.HistoryIsTrue`, `GeometryTruths.WidenedTailIsMissed`). As long as growth moves
  the last record alone no other record's line is affected (`GeometryTruths.MeasuredMapIsExact`).
  A filtered view can withdraw several rows and add them again; the view syncs at each of the two
  steps, unless wrapping is off, and then stale heights may lie anywhere behind the rows that
  stayed (`GeometryTruths.WithdrawnRowsBehind`).
- The wrapped view counts on wrapping never shrinking a record (EstimatedGeometry.cpp:125). Blank
  lines at the end of a record are counted as physical lines and chopped off its text, so a
  measured record can be shorter, and the whole view with it (`GeometryTruths.FallsBelowPhysical`,
  `GeometryTruths.BlankLinesShrink`).
- An archive member whose transport dies ends like a member that is over, for a codec that cannot
  tell, and is published as complete (`ArchiveFetchers.WhatAReaderSees`,
  `ArchiveFetchers.DeadTransportCompletes`).
- A console write that fails after some bytes landed leaves them in the file, and everything
  fetched later is appended behind them (`ConsoleFetchers.AfterPartialWrite`,
  `ConsoleFetchers.PartialWriteCorrupts`). The result of the flush behind a
  write is not looked at (ConsoleFetcher.cpp:264), so a published size can pass what is on disk
  (`ConsoleFetchers.FlushedIsOnDisk`).

## Hypotheses

- Tail scans and the views built on them: bytes are append-only, and a file is no longer than the
  greatest 64-bit offset.
- The comparison of a tailed and a fresh view by name: one run bound and one text query for both
  (`Runs.HistoryEqualsDetect` says when the run lists agree).
- The digest update: in-bound records fit the lookback of 100000, settled records answer as they
  did, and no rule becomes active by being resolved that was not configured (`Agrees`).
- The density map: a retained row answers differently only after it was invalidated.
- Archives: a transport that reports a total reports the container's size, and a read that is
  not cut off ends at the member's end.
- Spools: the origin keeps the prefix already read, and a console rotation is noticed before
  anything is appended (the verdict itself is not modelled).
- Geometry: every record has at least one line, growth changes the last record alone between two
  syncs where not said otherwise, factors are exact fractions, and rounding is half
  up.

## Model

| member | source | states |
|---|---|---|
| ContextEmitter.EmitWithContext | src/core/ContextEmitter.h:108-142 | The loop with its backward lead buffer computes the functional pass row for row: what is written and the state it leaves. |
| ContextEmitter.EmitRow | src/core/ContextEmitter.h:114-141 | One row of the loop: nothing, a trailing-context row, or the leading window in ascending order followed by the match. |
| ContextEmitter.GatherLead | src/core/ContextEmitter.h:123-127 | The walk back gathers exactly the newest `before` in-bound rows above the last emitted one, newest first. |
| ContextEmitter.VisibleBelowExact | src/core/ContextEmitter.h:26-46 | The emitted list holds exactly the in-bound rows that match or lie within `before` in-bound places ahead of, or `after` behind, a match: ascending, once each, flagged as context iff not a match. |
| ContextEmitter.OneShotIsWidened | src/core/ContextEmitter.h:37-51 | A pass over all rows from the fresh state emits the declarative grep -B/-A set. |
| ContextEmitter.SuffixClosed | src/core/ContextEmitter.h:53-71 | The suffix invariant: at or below a row already shown, later matches add nothing, so leading context is always a tail append. |
| ContextEmitter.PassSplits | src/core/ContextEmitter.h:102-107 | Cutting a scan at any row and resuming with the carried state gives the same emissions and the same final state. |
| ContextEmitter.RebuiltIsGood | src/core/LiveController.cpp:829-836 | The state read back off the visible list alone (last emitted, last match, trailing count) is a correct place to resume, whatever prefix of the log the list was computed over. |
| ContextEmitter.ResumeCompletes | src/core/LiveController.cpp:829-845 | Resuming from a cut list with the rebuilt state completes it to the view a fresh search of the whole log builds. |
| ContextEmitter.NoContextIsTheFilter | src/core/Document.cpp:630-636 | With both windows empty the view is exactly the accepted rows. |
| ContextEmitter.InertWhenAllMatch | src/core/ContextEmitter.h:40-46 | A search that every in-bound row matches makes context inert: no context row, and the same list as without context. |
| LiveView.CutIsResumable | src/core/LiveController.cpp:779-815 | After popping at the resume row the list is the view of some prefix of the grown log cut there, in every case of the provisional record: unchanged, same class, flipped, with or without leading context. |
| LiveView.TickIsFresh | src/core/LiveController.cpp:758-855 | One tick (resume row, pop, rebuilt state, re-emit) leaves the view a fresh search over the grown log computes. |
| LiveView.TickMeans | src/core/LiveController.cpp:758-855 | One tick over any list, whatever filter built it: rows in front of the resume row stay as they were listed, those from it on are listed as matches exactly when they match now, and the list stays ascending. |
| LiveView.TailedIsFresh | src/core/LiveController.cpp:758-855 | The same over every history of appends. |
| LiveView.SameClassPopsOne | src/core/LiveController.cpp:795-800 | A changed provisional record that keeps its class costs at most one withdrawn row. |
| LiveView.WalkBackCounts | src/core/Document.cpp:923-934 | The context window start is the record `before` in-bound places back; answered with record 0, no more than that many lie in front of the row. |
| LiveControllers.IngestAppended | src/core/LiveController.cpp:698-855 | One tick in place: spliced records, block sums of a full rebuild, extended runs, and of a filtered view, whatever filter built it, exactly what a tick makes of it; from a fresh view the one a fresh applyFilters builds, in ordinals, context flags and copied records. The run and file memos stay sound iff the tick is harmless to them. `LiveEqualsFresh.ScanIsTail` shows that a tail scan meets what it asks of the tail. |
| LiveControllers.TailForHours | src/core/LiveController.cpp:698-855 | Any sequence of ticks keeps the filtered view equal to a fresh applyFilters over the index so far, each tick a tail as `LiveEqualsFresh.ScanIsTail` gives it. |
| LiveEqualsFresh.ScanIsTail | src/core/LiveController.cpp:706-732 | The scan from the provisional record on hands over exactly what the ingest takes: offsets ascend, it starts at that record, and splicing it in is the ingest of the live index, ids and tables included. |
| LiveEqualsFresh.IngestGrowth | src/core/LiveController.cpp:698-855 | One tick over the bytes themselves: the chunked scan of the tail with the live tables feeds the ingest; records and tables are those of the value-level ingest, the view is the tick of the old one, and a fresh view stays fresh. |
| LiveEqualsFresh.TailGrowths | src/core/LiveController.cpp:698-855 | The same for any sequence of growths under one filter. |
| LiveEqualsFresh.ResolvedByName | src/core/MatchCriteria.cpp:59-70 | A filter whose ids were resolved in an earlier table answers what its names ask for, except for names that came later. |
| LiveEqualsFresh.TailedShowsTheFreshView | src/core/LiveController.cpp:698-855 | For a tab whose filter is resolved once, end to end and by name: after any growths that lose no start, the tailed log and a fresh open of its final bytes hold the same rows, and give every row the same flags iff no row of the fresh view carries a name first seen after the filter was resolved; then both lists of rows and context flags are one. |
| LiveEqualsFresh.SameScreen | src/core/LiveController.cpp:698-855 | For two open documents, the tailed one under a filter resolved once: no such late name means one list on both; and without a text axis one list means no such name. |
| LiveEqualsFresh.MissedRowIsHidden | src/core/MatchCriteria.cpp:59-70 | Under a filter resolved once, a row with a late name that the text axis passes is listed by the fresh view and absent from the tailed one, whatever the context windows. |
| LiveEqualsFresh.LateNameIsHidden | src/core/MatchCriteria.cpp:59-70 | A concrete log of one record, and the next record with a name of its own: the filter resolved before it hides it, the same filter resolved again admits it. |
| LiveRounds.AppliedTells | src/core/Document.cpp:614-647 | The screen of a filter that was just applied starts such a history: its matches are the rows that pass, its context rows none without windows or text axis. |
| LiveRounds.RoundTells | src/core/LiveController.cpp:758-855 | Whatever earlier tables a tick's filter was resolved in, the matches on the screen stay exactly the rows that passed the filter that evaluated them last. |
| LiveRounds.RoundsAgainstFresh | src/ui/MainWindow.cpp:4273-4298 | Any history of ticks, the filter resolved again before any of them in the tables of any earlier moment, against a fresh open of the final bytes under the same names: the rows are the same, the matches are the fresh ones but for rows late for the tables of the tick that evaluated them last, and with no context windows or no text axis the lists are one iff there is no such row. |
| LiveRounds.TimelyRoundsAreFresh | src/ui/MainWindow.cpp:4273-4298 | For any schedule in which no tick meets a row late for its filter the tailed list is the fresh one, context rows included. |
| LiveRounds.KnownNamesAreShown | src/ui/FilterPane.cpp:310-318 | In a foreground tab a name is late in the tick that brings it and in no later one. |
| LiveRounds.PlayRound | src/core/LiveController.cpp:698-855 | One tick of a document whose filter was resolved in some earlier tables leaves the view of the value-level screen. |
| LiveRounds.TailInForeground | src/ui/MainWindow.cpp:4273-4298 | Any sequence of growths, the filter resolved again in the tables so far before each, leaves that screen. |
| LiveControllers.SpliceIndex | src/core/LiveController.cpp:724-747 | The provisional record is replaced iff its re-read differs, the rest appended, and the sums extended from the first record that moved are those of a full rebuild. |
| LiveControllers.ExtendSource | src/core/LiveController.cpp:758-777 | Updating the source and the run list moves no already settled record across the run bound. |
| LiveControllers.ResumeRow | src/core/LiveController.cpp:803-812 | The resume row: past an unchanged provisional record, at a changed one, at its window start on a flip, 0 for an empty index. |
| LiveControllers.Withdraw | src/core/LiveController.cpp:814-821 | Exactly the trailing rows at or past the resume row are withdrawn and the compact sums repaired. |
| LiveControllers.ReadState | src/core/LiveController.cpp:829-836 | The emitter state is a function of the surviving rows. |
| LiveControllers.Resume | src/core/LiveController.cpp:838-855 | Appending what the resumed emitter passes leaves a fresh view. |
| Documents.Document.ApplyFilters | src/core/Document.cpp:614-647 | The one-shot recomputation: no subset iff neither a run bound nor one of the five axes is on, and then every record is in the view and the list of all of them is the fresh view; else the widened view with copied records and fresh sums. |
| Documents.Document.ContextWindowStart | src/core/Document.cpp:923-934 | The walk back equals its specification for every row and window. |
| Documents.ViewPredicateSplits | src/core/Document.cpp:892-921 | The view predicate is exactly the context stream and the text axis together. |
| Filter.AcceptedMeans | src/core/Filter.h:131-250 | AND across the axes, OR within one: accepted iff every axis that is on accepts the field carried, or its absence. |
| Filter.AbsentFields | src/core/Filter.h:161-229 | A record with none of the four integer fields passes iff absent fields match or no integer axis is on. |
| Filter.SeverityOrder | src/core/Priority.h:33-41 | The six severities in their order, an unparsed line below them all. |
| Filter.OffIsInactive | src/core/Filter.h:178-181 | A filter is inactive iff priority, subsystem, thread and time are off and the text axis is off or empty. |
| FilteredIndexes.FilteredIndex.SetVisible | src/core/FilteredIndex.h:71-97 | The published subset: ordinals and flags as given, record copies, fresh compact sums, and the ascending flag exact. |
| FilteredIndexes.FilteredIndex.AppendVisible | src/core/FilteredIndex.h:245-252 | One row appended to all parallel vectors, with counter and ascending flag kept right. |
| FilteredIndexes.ContextRowsCount | src/core/FilteredIndex.h:245-252 | The counter is how many context rows there are. |
| FilteredIndexes.FilteredIndex.PopLastVisible | src/core/FilteredIndex.h:231-239 | The newest row removed from all parallel vectors; nothing on an empty subset. |
| FilteredIndexes.FilteredIndex.TrailingCountFrom | src/core/FilteredIndex.h:208-214 | How many trailing rows have an ordinal of at least the bound. |
| FilteredIndexes.FilteredIndex.LastMatchSource | src/core/FilteredIndex.h:197-204 | The last row that is not context, -1 for none. |
| FilteredIndexes.FilteredIndex.ViewRowOf | src/core/FilteredIndex.h:136-150 | The inverse of sourceRow, by binary search when ascending and by scan otherwise; -1 iff not visible. |
| FilteredIndexes.FilteredIndex.ViewRowAtOrAfter | src/core/FilteredIndex.h:158-169 | The partition point of an ascending subset; clamped identity when inactive. |
| RecordIndexes.RecordIndex.RebuildBlockSums | src/core/RecordIndex.h:62-74 | The stored sums are the display lines before each block, and the total. |
| RecordIndexes.RecordIndex.ExtendBlockSums | src/core/RecordIndex.h:85-111 | Repairing from the first changed record gives the sums of a full rebuild. |
| RecordIndexes.RecordIndex.FirstLineOfRecord | src/core/RecordIndex.h:114-123 | The exact prefix sum of display lines. |
| RecordIndexes.RecordIndex.RecordAtLine | src/core/RecordIndex.h:127-159 | The record whose lines contain the line, with both ends clamped. |
| RecordIndexes.FirstLineFindsRecord | src/core/RecordIndex.h:113-159 | With no empty record, looking up a first line finds that record and no other. |
| RecordIndexes.LinesOfRecord | src/core/RecordIndex.h:46-55 | A record takes as many display lines as it has lines, a hundred at most. |
| Indexers.ForwardScan | src/core/Indexer.cpp:206-254 | For every chunk size of at least one and unit size one or two a completed scan is the fold of the record-start rule over all lines of [startPos, size); a cancelled one stopped where going on would give that same fold; both loops terminate. |
| Indexers.ScanGrowing | src/core/Indexer.cpp:206-236 | The doubling retry always completes at least one line and folds it exactly once. |
| Indexers.Scan.ScanWindow | src/core/Indexer.cpp:206-254 | The window walk processes whole lines only and keeps the fold of what is left. |
| Indexers.Scan.ProcessLine | src/core/Indexer.cpp:87-195 | A start line opens a record with interned names; any other line extends the open parsed record or opens an unparsed one. |
| TailScans.ProcessedLineResolves | src/core/Indexer.cpp:87-195 | By name, one line does to the records with ids what the record-start rule does to rows with names, in any table. |
| TailScans.SpliceEqualsIndex | src/core/Indexer.cpp:291-301 | For append-only bytes the spliced tail equals one full index of the grown file iff no unterminated start line behind an open record stopped matching. |
| TailScans.StartLostIsPartial | src/core/LiveController.cpp:713-718 | Only a last line without its newline can lose its match. |
| TailScans.StartLostHappens | src/core/Indexer.cpp:291-301 | A concrete growth on which it does, and the two indexes differ. |
| TailScans.IngestedResolves | src/core/LiveController.cpp:706-732 | The ingest with live intern tables is the splice of rows by name. |
| TailScans.TailedEqualsIndexed | src/core/LiveController.cpp:706-732 | Over any sequence of growths in which no start is lost the live records equal one full index of the final bytes, compared by name. |
| TailScans.IndexedRowsMean | src/core/Indexer.cpp:87-195 | The index told of its lines: a record opens at every line that matches and, in front of the first match, at every line; it has the facts of that line, the number of lines up to the next record to 65535, and their bytes to 32 bits. |
| TailScans.PlainTextIsLines | src/core/Indexer.cpp:87-195 | Without a format every line is a record of its own, of no priority. |
| TailScans.IndexCovers | src/core/Indexer.cpp:256-289 | For every file the records start one behind the other from the byte-order mark on, each with the length up to the next one (or the end) as a saturating 32-bit length holds it. |
| TailScans.IndexTiles | src/core/Indexer.cpp:256-289 | The records tile [start, size) with no gap and no overlap iff none is longer than 32 bits hold, whatever the size of the file; in particular when no stored length is the greatest one. |
| Decoders.LineEnd | src/core/Decoder.cpp:183-222 | The first newline code unit on the grid laid from `from`, or the end, in all encodings. |
| Decoders.FirstBreakMeaning | src/core/Decoder.cpp:201-203 | A newline byte inside an unrelated UTF-16 code unit is never a line end, and no earlier newline is skipped. |
| Decoders.BreakOfText | src/core/Decoder.cpp:183-222 | Of a text encoded unit by unit, one byte each or two with the low or the high one first, a line from the k-th unit ends right behind the first unit that is a line feed, or at the end. |
| Decoders.BreakInWindow | src/core/Decoder.cpp:183-222 | A line cut inside a window is the line of the whole source. |
| Decoders.CompleteUtf8Prefix | src/core/Decoder.cpp:82-106 | The cut falls before a sequence that is longer than what is left, and nowhere else. |
| Decoders.TrimmedAtBoundary | src/core/Decoder.cpp:75-106 | Well-formed UTF-8 cut at any byte and trimmed is exactly the whole characters in front of the cut. |
| Decoders.CodePointIsChar | src/core/Decoder.cpp:82-106 | The UTF-8 form of every code point (section 3 of RFC 3629) is one character to the trimming, and none of its later bytes leads one. |
| InternTables.InternTable.Intern | src/core/InternTable.h:49-58 | The id names the string, ids already given stay, no name is stored twice. |
| InternTables.InternTable.IdOf | src/core/InternTable.h:72-79 | Resolves without interning; not found answers id 0. |
| InternTables.InternedKeepsIds | src/core/InternTable.h:49-58 | Interning keeps the table well formed and every id it had. |
| InternTables.StreamedNamesRebuild | src/core/IndexController.cpp:145-150 | Names streamed in id order rebuild the table with identical ids. |
| IndexControllers.IndexWorker.Flush | src/core/IndexController.cpp:54-82 | One flush carries exactly the settled records and the names not yet sent, and advances the counters past them. |
| IndexControllers.IndexController.OnBatch | src/core/IndexController.cpp:141-156 | Names are interned at once, records held. |
| IndexControllers.ScanGrows | src/core/IndexController.cpp:54-58 | Between two flush points the scan only changes the last record and only extends the tables. |
| IndexControllers.StreamRebuilds | src/core/IndexController.cpp:48-82 | Wherever the flush points fall, the batches rebuild the final record list and both tables, id for id. |
| IndexControllers.ScanDelivered | src/core/IndexController.cpp:141-181 | Worker and receiver over a whole scan: however the lines fall into flushes, and wherever a cancelled scan stopped, what is published is the index of the lines scanned, every record and both tables, id for id. |
| IndexControllers.DeliveredIsSettled | src/core/IndexController.cpp:55-58 | A record of a non-final batch is the record every later flush point has there. |
| IndexControllers.FlushSendsSettled | src/core/IndexController.cpp:54-82 | A flush leaves unsent the last record at most, the final one nothing. |
| GuiCallGate.StepKeepsInv | src/core/GuiCallGate.cpp:76-288 | Every critical section, post, delivery and return keeps the gate invariant. |
| GuiCallGate.ReachableInv | src/core/GuiCallGate.cpp:76-288 | The invariant holds after every interleaving of call, drain, cancel and reopen. |
| GuiCallGate.WaitingIsNotForgotten | src/core/GuiCallGate.cpp:94-139 | In every reachable state a non-empty queue means a running work, a posted drain, a drain under way or an asker about to post. |
| GuiCallGate.EveryScheduleReleases | src/core/GuiCallGate.cpp:228-288 | However threads, event loop and works take turns, from every reachable state a run with no new question and no cancel is no longer than what was under way, and one that can go no further has an empty queue and every parked asker released, although nested loops swallow drains. |
| GuiCallGate.EveryStepHelps | src/core/GuiCallGate.cpp:94-139 | Every step of the gate left to itself lowers the amount of work under way. |
| GuiCallGate.NobodyIsStranded | src/core/GuiCallGate.cpp:228-288 | Such a run to rest exists from every reachable state. |
| GuiCallGate.InlineCallsAddUp | src/core/GuiCallGate.cpp:200-248 | Over every run: an inline call answered true is one whose work returned, each begun is answered or still on the stack. |
| GuiCallGate.InlineStep | src/core/GuiCallGate.cpp:192-236 | No step changes that balance, and a refused call touches no work, no call and no queue. |
| GuiCallGate.WorkRunsInsideItsCall | src/core/GuiCallGate.cpp:94-130 | A queued work starts at most once, only while its asker is inside call(), never once abandoned. |
| GuiCallGate.TrueMeansItRan | src/core/GuiCallGate.cpp:272-287 | A queued call() answers true iff its work ran to completion; false means abandoned and never started. |
| GuiCallGate.CallsAreFinal | src/core/GuiCallGate.cpp:174-190 | Over every run: an answer, an abandonment and a completion are never undone. |
| GuiCallGate.CancelAbandonsTheQueue | src/core/GuiCallGate.cpp:174-198 | A cancel abandons every queued question and touches no other. |
| GuiCallGate.CancelledNeverRuns | src/core/GuiCallGate.cpp:100-130 | A question a cancel found in the queue never runs and is never answered true, along every later run, across a reopening too. |
| GuiCallGate.CheckedWhileCancelled | src/core/GuiCallGate.cpp:200-204 | A call that looks at a cancelled gate is refused on the spot: nothing begins, nothing is queued. An open gate lets it in. |
| GuiCallGate.OthersRefused | src/core/GuiCallGate.cpp:226-230 | A second asker while a work runs on another thread, and one whose pump no loop serves, are refused and leave the gate as it is. |
| GuiCallGate.OutStaysOut | src/core/GuiCallGate.cpp:200-204 | While the gate stays cancelled a thread outside call() gets no further into it, and no call of its own appears. |
| GuiCallGate.OpenGateAnswers | src/core/GuiCallGate.cpp:94-139 | An open gate that comes to rest has run the work of every question once, and whoever was answered was answered true. |
| GuiCallGate.AskAfterReopen | src/core/GuiCallGate.cpp:168-172 | A gate opened again takes a question again. |
| GuiCallGate.WorksOnlyNest | src/core/GuiCallGate.cpp:66-90 | Works overlap only by nesting on the owner thread, and the depth counts them. |
| GeometryMap.FirstLineStrict | src/core/EstimatedGeometry.cpp:332-368 | First lines strictly increase over all records, across blocks and across the measured/estimated boundary, up to the total. |
| GeometryMap.RoundTrip | src/core/EstimatedGeometry.cpp:332-428 | recordAtLine(firstLineOfRecord(r)) is r in a measured prefix and r or r-1 behind it. |
| GeometryMap.RecordAtMonotone | src/core/EstimatedGeometry.cpp:370-428 | recordAtLine is monotone over all lines. |
| GeometryMap.BlockAtMeaning | src/core/EstimatedGeometry.cpp:383-394 | The chosen block is the one whose lines hold the line. |
| GeometryMap.AllMeasuredIsExact | src/core/EstimatedGeometry.cpp:298-326 | With all blocks measured every first line and the total are exact prefix sums. |
| GeometryMap.TotalAgainstPhysical | src/core/EstimatedGeometry.cpp:120-126 | For every map the total is at least the physical total iff what is measured is at least as tall as its physical lines, the guard under which an estimate is scaled up. |
| GeometryMap.EstimateMeans | src/core/EstimatedGeometry.cpp:298-314 | What a block adds behind its measured prefix is its physical lines there times measured over physical lines of all measured records, to the nearest line; unscaled while nothing is measured or what is came out below. |
| GeometryMap.EstimateIsEven | src/core/EstimatedGeometry.cpp:332-368 | Inside those lines a record starts as far in as its physical lines are, to the nearest line. |
| GeometryMap.TotalsMean | src/core/EstimatedGeometry.cpp:224-242 | The running totals are the sums of all measured heights and of the physical heights of those same records. |
| EstimatedGeometries.EstimatedGeometry.Reset | src/core/EstimatedGeometry.cpp:48-72 | Binding leaves every block unmeasured at its physical height with all caches consistent. |
| EstimatedGeometries.EstimatedGeometry.SetWrapWidth | src/core/EstimatedGeometry.cpp:132-153 | A different width drops every measurement, the same one none; the representation stays consistent. |
| EstimatedGeometries.EstimatedGeometry.MeasureBlock | src/core/EstimatedGeometry.cpp:159-185 | Folding a run in keeps the representation and touches only the prefix of that block; a hole or a whole block changes nothing. |
| EstimatedGeometries.MeasuringMeans | src/core/EstimatedGeometry.cpp:159-185 | Height by height what a measurement leaves: the old ones in front of its start, the new ones from there on as far as the block goes; nothing changes for one that would leave a hole or starts a whole block over. |
| EstimatedGeometries.EstimatedGeometry.SyncTail | src/core/EstimatedGeometry.cpp:244-292 | After growth, shrink or in-place growth of the last record the representation is that of the map a sync leaves: the clean prefix when the count or the last physical height moved, the old map otherwise; it answers which. |
| EstimatedGeometries.EstimatedGeometry.TruncateBlockMeasurement | src/core/EstimatedGeometry.cpp:212-222 | Only the records in front of the first dirty one stay cached, with their aggregates. |
| EstimatedGeometries.EstimatedGeometry.RefreshTotals | src/core/EstimatedGeometry.cpp:224-242 | The running totals and the prefix sums are those of the map. |
| EstimatedGeometries.EstimatedGeometry.FirstLineOfRecord | src/core/EstimatedGeometry.cpp:332-368 | The cached form answers what the map says, for every record number. |
| EstimatedGeometries.EstimatedGeometry.RecordAtLine | src/core/EstimatedGeometry.cpp:370-428 | The binary search and the two inner scans answer what the map says, for every line. |
| EstimatedGeometries.EstimatedGeometry.HeightBounds | src/core/EstimatedGeometry.cpp:430-445 | A measured record has its measured height; any other is at least physical and at most the cap. |
| EstimatedGeometries.EstimatedGeometry.HeightIsScaled | src/core/EstimatedGeometry.cpp:430-445 | An unmeasured record below the cap has its physical lines times the same factor, to the nearest line. |
| EstimatedGeometries.SyncKeepsUntouched | src/core/EstimatedGeometry.cpp:254-291 | A sync keeps every measurement the growth cannot have touched. |
| GeometryTruths.StepKeepsTruth | src/core/EstimatedGeometry.cpp:244-292 | A true map stays true over a measurement, a growth or a width change iff the growth moved the record count or the last physical height, or the last record was not measured, or its wrapped height is what it was. |
| GeometryTruths.HistoryIsTrue | src/core/EstimatedGeometry.cpp:244-292 | Over any history the map is true at every moment iff every event was harmless in that sense. |
| GeometryTruths.AfterOneMore | src/core/EstimatedGeometry.cpp:159-292 | What a history and one event more leave is what that event makes of what the history left. |
| GeometryTruths.HistoryStaysSettled | src/core/EstimatedGeometry.cpp:255-260 | Over any history of measurements, growths of the last record and width changes every cached height but the last record's is true. |
| GeometryTruths.WidenedTailIsMissed | src/core/EstimatedGeometry.cpp:251-252 | A concrete growth the sync does not see: the last record widens without gaining a physical line, stays flagged measured, and the view stays one line short. |
| GeometryTruths.MeasuredMapIsExact | src/core/EstimatedGeometry.cpp:298-326 | After any history, once every block is measured, every record starts on its true line; the total is off by the last record's height alone and right iff the map is true. |
| GeometryTruths.FallsBelowPhysical | src/core/EstimatedGeometry.cpp:120-126 | The same after any history. |
| GeometryTruths.BlankLinesShrink | src/core/LogModel.cpp:244-249 | A concrete record of three lines whose two blank ones are chopped off its text: measured on one line, it takes the total below the physical one. |
| GeometryTruths.WithdrawnRowsBehind | src/core/EstimatedGeometry.cpp:251-260 | When all but the first k rows were withdrawn and added again between two syncs, a height the sync leaves that is false lies at or behind row k, and in front of the first dirty row when the sync found something moved. |
| GeometryTruths.VisitingAllIsExact | src/ui/LogView.cpp:800-829 | From any map, visiting every block once, each from its first unmeasured record, measures all and makes every first line exact iff every height cached before was true. |
| DensityMaps.DensityMap.SetRows | src/core/DensityMap.cpp:61-92 | Growth re-offers nothing, a shrink at most one bucket of surviving rows; every scanned row stays marked and no mark is left that no row gives. |
| DensityMaps.DensityMap.InvalidateRows | src/core/DensityMap.cpp:94-111 | After the answers of those rows changed both lanes are right again, at the price of the buckets that hold them. |
| DensityMaps.DensityMap.Reshape | src/core/DensityMap.cpp:113-148 | One geometry for both lanes, at most 2048 buckets, never finer; lanes stay right for the rows they had. |
| DensityMaps.DensityMap.Coarsen | src/core/DensityMap.cpp:125-138 | The merging loop terminates, stops as soon as the map fits, and keeps both lanes right. |
| DensityMaps.DensityMap.Clear | src/core/DensityMap.cpp:150-155 | One lane starts over with possibly new answers; the other keeps everything. |
| DensityMaps.DensityMap.Scan | src/core/DensityMap.cpp:157-173 | Offers exactly min(budget, rest) rows and keeps the lane right; the other lane is untouched. |
| DensityMaps.DensityMap.Rebind | src/core/DensityMap.cpp:50-59 | A new row space starts unscanned within the bucket limit. |
| DensityMaps.DensityMap.BucketOfMeans | src/core/DensityMap.cpp:37-43 | A row's bucket is the one its rows fall in, the nearest one for a row that is not there. |
| DensityMaps.DensityMap.NothingOutside | src/core/DensityMap.cpp:175-189 | A lane shows nothing outside its buckets, and each lane its own. |
| DensityMaps.DensityMap.CompleteShows | src/core/DensityMap.h:40-66 | A lane is complete iff every row was offered, and then the map shows for a row exactly the classes some row of its bucket gives. |
| DensityMaps.DensityMap.AffectedMeans | src/core/DensityMap.cpp:94-111 | The rows an invalidation reaches include every row between the two it names, and are those two when both are there. |
| DensityMaps.DensityMap.UnionMask | src/core/DensityMap.cpp:183-189 | A class is in the mask iff some bucket holds it. |
| DensityMaps.LowestClass | src/core/DensityMap.cpp:27-35 | The least class of a mask, -1 iff it is empty. |
| DensityMaps.MergeIsExact | src/core/DensityMap.cpp:122-138 | A pairwise merge loses no mark and invents none. |
| DensityMaps.HalvedBucket | src/core/DensityMap.cpp:131-137 | A row's new bucket is its old one halved. |
| DensityMaps.GrowthKeeps | src/core/DensityMap.cpp:140-147 | Appended rows leave every bucket right. |
| DensityMaps.ShrinkRepairs | src/core/DensityMap.cpp:67-88 | Clearing the last surviving bucket and rewinding to its first row is enough, and costs at most one bucket. |
| DensityMaps.InvalidationRepairs | src/core/DensityMap.cpp:98-110 | Clearing the buckets of the changed rows and rewinding is enough. |
| DensityMaps.ScanStep | src/core/DensityMap.cpp:164-169 | Offering the next row puts its marks in its own bucket and keeps the lane right. |
| DensityMaps.ScannedIsShown | src/core/DensityMap.h:40-66 | At every moment a scanned row's marks are in its bucket and every mark is given by a row of its bucket. |
| DensityMaps.CompleteIsExact | src/core/DensityMap.h:40-66 | A complete lane holds a class in a bucket iff one of the bucket's rows gives it. |
| Documents.Document.DetectRuns | src/core/Document.cpp:979-1020 | The detected run list, the selection clamped or moved to the followed last run, the bounds recomputed, every memo dropped. |
| Documents.Document.UpdateRunsAfterAppend | src/core/Document.cpp:1022-1055 | The list is extended by the new records only and the bounds follow. |
| Documents.Document.SelectRun | src/core/Document.cpp:1057-1068 | Selecting the last run follows it; an index out of range selects all. |
| Runs.BoundIsTheRun | src/core/Document.cpp:954-969 | With a run selected the byte bound admits exactly the records of that run, no more and no less. |
| Runs.DetectedRunsTile | src/core/Document.cpp:979-1020 | A non-empty run list partitions the records, every marker starts a run, and only the first may be a preamble. |
| Runs.UpdateEqualsDetect | src/core/Document.cpp:1022-1055 | One incremental update equals a full detection iff the re-read trailing record keeps its marker status and its run facts. |
| Runs.HistoryEqualsDetect | src/core/Document.cpp:1022-1055 | Over any history of appends the updated list equals a full detection over the final index iff every record first met while it was still growing kept its marker status and its run facts. |
| Runs.GrownMarkerIsMissed | src/core/Document.cpp:1022-1055 | A concrete first line, unterminated when it was indexed, that grows into a marker, and a run list that never hears of it. |
| Runs.BoundKept | src/core/Document.cpp:954-969 | Runs opened by new records move no settled record across the selected run's bound. |
| Documents.Document.RunStatsOf | src/core/Document.cpp:1189-1204 | What the run's memo answers when it is resumed, for any memo; the fresh fold over the run when the memos are sound, which asking leaves them. |
| Documents.Document.FileStats | src/core/Document.cpp:1206-1213 | The same for the whole file. |
| Documents.Document.FoldStats | src/core/Document.cpp:1215-1250 | A memo goes on from its cursor, or starts over when that is out of range; a sound one ends with the fresh fold. |
| Documents.Document.ResolveBaseline | src/core/Document.cpp:1129-1146 | The first timestamp from the memo's cursor on, or the one it holds; for a sound memo the first of the range. |
| Documents.Document.RunBaseTimestamp | src/core/Document.cpp:1148-1187 | With sound memos the instant a row counts from is the first timestamp of its own run, found by the hint or by the search; of the whole file when there are no runs. |
| Documents.Document.RunOfRow | src/core/Document.cpp:1165-1180 | The last run that starts at or before the row. |
| Runs.StatsMeaning | src/core/Document.cpp:1215-1250 | The fold is the FATAL, ERROR and WARN counts and the first and last timestamps. |
| Runs.TimestampFromMeaning | src/core/Document.cpp:1129-1146 | The first instant of a range is the timestamp of its first record that has one, or none. |
| Runs.RunsSumToFile | src/core/Document.cpp:1189-1250 | Per-run counts of a priority sum to the file's. |
| Runs.TickKeepsMemo | src/core/Document.cpp:1215-1232 | One append keeps a statistics memo sound iff it had not folded the trailing record or that record still contributes what it did. |
| Runs.TickKeepsBaseline | src/core/Document.cpp:1129-1146 | One append keeps a first-instant memo sound iff it rests on records in front of the trailing one, or that one still has the timestamp, or the lack of one, taken from it. |
| Runs.TickKeepsSound | src/core/Document.cpp:1115-1250 | Both for all memos at once, over the run list the tick leaves. |
| Runs.StaleCountsStay | src/core/Document.cpp:1215-1232 | A memo that is wrong stays wrong by the same counts until it is dropped. |
| Runs.GrownErrorIsNotCounted | src/core/Document.cpp:1215-1232 | A trailing line that turns out to be an ERROR and is never counted. |
| Runs.GrownTimestampIsNotSeen | src/core/Document.cpp:1129-1146 | A first instant that arrives by growth and is never seen. |
| DigestOrders.DigestOrderMeaning | src/core/Document.cpp:663-720 | The published list is a permutation of the deduplicated ordinals; rows without a timestamp keep their slot; the rest is in time order with ties in file order. |
| DigestOrders.DigestOrderReads | src/core/Document.cpp:663-720 | Told of the timestamps alone: a record without one stands where it stands in file order; of two with one the earlier stands first, or the one written first. |
| DigestOrders.OrdinalsMeaning | src/core/Document.cpp:668-674 | Ascending, without duplicates, the same rows. |
| Digests.Digest.Chronological | src/core/Document.cpp:663-720 | The loops build that order from the entries. |
| Digests.Digest.PublishDigest | src/core/Document.cpp:721-743 | Republished iff forced or the list changed, and then with fresh record copies. |
| Digests.Digest.RebuildDigest | src/core/Document.cpp:745-796 | Every rule's entry is its newest in-bound match within the fence of 100000 in-bound records. |
| Digests.Digest.AnswerRow | src/core/Document.cpp:779-792 | One record answers every rule still looking that it matches, and the count of open rules stays right. |
| Digests.FoundIsNewest | src/core/Document.cpp:767-778 | Within the fence the walk finds the newest match there is. |
| Digests.HitMeans | src/core/Document.cpp:767-792 | A record answers a rule iff it lies in the run bound, and the rule carries the digest and matches it. |
| Digests.FenceStops | src/core/Document.cpp:775-776 | Past the fence nothing counts any more. |
| Digests.InBoundMeans | src/core/Document.cpp:775-776 | What the fence counts is the records of the run bound among those looked at. |
| Digests.Digest.FindLastMatchBefore | src/core/Document.cpp:876-890 | The newest match up to a row, under the same fence. |
| Digests.Digest.UpdateDigestAfterAppend | src/core/Document.cpp:798-874 | Each entry equals a rebuild's iff the grown trailing record did not newly match that rule without a later match; the strip never shows a stale copy. |
| Digests.UpdateReaches | src/core/Document.cpp:823-869 | The same for one entry, on values. |
| Digests.GrownTextIsMissed | src/core/Document.cpp:823-846 | A concrete growth on which the update misses the match a rebuild finds. |
| Highlights.HighlighterSet.MatchActions | src/core/Highlight.h:220-260 | Each wanted action gets the least index of an enabled matching rule that carries it; the decodes, counted where they happen, are at most one, and one iff some rule's answer for a still open action hangs on the text. |
| Highlights.HighlighterSet.RuleMatches | src/core/Highlight.h:270-288 | One rule on its own terms, sharing the decode memo. |
| Highlights.HighlighterSet.MatchingRule | src/core/Highlight.h:236-288 | A rule matches iff it is enabled, resolved, has one of the five axes on, and accepts the record on every axis that is. |
| Highlights.HighlighterSet.Match | src/core/Highlight.h:300-304 | The single-action search answers the first match. |
| Highlights.HighlighterSet.PassIsFourSearches | src/core/Highlight.h:220-260 | The one pass equals a separate first-match search per action. |
| Highlights.HighlighterSet.NoShadow | src/core/Highlight.h:205-211 | A rule that does not carry an action cannot change that action's winner below it. |
| ArchiveFetchers.StepKeepsInv | src/core/ArchiveFetcher.cpp:441-483 | Every step of the worker, of a cancel and of a publication keeps the spool invariant, reads whose input was cut off included. |
| ArchiveFetchers.WhatAReaderSees | src/core/ArchiveFetcher.cpp:666-802 | At every moment of every run: the published generation's file exists, its first committed bytes are the member's, the first non-zero size covers the whole prime unless cancelled or cut short, and Complete means every byte iff no uncancelled read was cut short. |
| ArchiveFetchers.DeliveredIsWhole | src/core/ArchiveFetcher.cpp:666-802 | When every read that ended had a container that was delivered (complete, or all of a known size), Complete means every byte. |
| ArchiveFetchers.SeenBytesStay | src/core/ArchiveFetcher.cpp:755-770 | A size seen once stays good for the rest of the run. |
| ArchiveFetchers.RunIsLater | src/core/ArchiveFetcher.cpp:679-689 | Generations only rise, sizes and files within one only grow. |
| ArchiveFetchers.CompleteIsFinal | src/core/ArchiveFetcher.cpp:794-802 | Complete is never left, nothing is committed after it, and whether it is the whole member is settled. |
| ArchiveFetchers.OverMeans | src/core/ArchiveFetcher.cpp:441-483 | A worker that was not stopped ends with an error or with Complete. |
| ArchiveFetchers.FailingEnds | src/core/ArchiveFetcher.cpp:735-760 | Whatever fails, opening, making the file, a read nobody cancelled or a write, ends the worker with an error. |
| ArchiveFetchers.WorkerIsNeverStuck | src/core/ArchiveFetcher.cpp:441-483 | In every reachable state but the last some worker step can be taken. |
| ArchiveFetchers.ExpansionCompletes | src/core/ArchiveFetcher.cpp:785-802 | From every reachable, uncancelled, uncut state some run goes on to publish the whole member iff nothing has failed, however long the member. |
| ArchiveFetchers.PrimeIsBounded | src/core/ArchiveFetcher.cpp:713-716 | The held-back first part is never longer than 128 KiB. |
| ArchiveFetchers.CancelTakes | src/core/ArchiveFetcher.cpp:722-724 | A cancel can come at any moment, is not taken back, changes nothing on disk, and is what the status says unless everything was published. |
| ArchiveFetchers.StoppedWorkerEnds | src/core/ArchiveFetcher.cpp:709-732 | A stopped worker starts no new read and takes at most twenty more steps. |
| ArchiveFetchers.CutReadCompletes | src/core/ArchiveFetcher.cpp:713-745 | A read that came back empty in front of the member's end is taken for the end iff it was not cancelled: after a cancel no run reaches Complete, without one some run does, short. |
| ArchiveFetchers.DeadTransportCompletes | src/core/ArchiveFetcher.cpp:592-628 | A concrete run on which the transport dies behind the first of two bytes and the member is published as complete with one. |
| ArchiveFetchers.AwaitInput | src/core/ArchiveFetcher.cpp:574-632 | The end of the input is reported only when every byte committed at the status snapshot was already read. |
| ArchiveFetchers.ExhaustedMeans | src/core/ArchiveFetcher.cpp:588-614 | The input is exhausted iff its transport neither waits for the container nor is on its way with something left to send. |
| ArchiveFetchers.DeliveredIsAll | src/core/ArchiveFetcher.cpp:603-613 | A transport that publishes no size but the container's, and has delivered without saying so, has all of it. |
| ArchiveFetchers.EndedMeans | src/core/ArchiveFetcher.cpp:592-628 | What an end of the input means, told from the status it was seen in: either the transport had delivered and everything was read, or it ended idle, failed or disconnected and the read is cut off. |
| ArchiveFetchers.EndedIsTheEnd | src/core/ArchiveFetcher.cpp:611-628 | With a complete upstream that end is the end. |
| ArchiveFetchers.StopIsFinal | src/core/LiveController.cpp:217-378 | A look that stops watching has ingested the final size, which is the whole member iff no uncancelled read was cut short. |
| ArchiveFetchers.LookIsBounded | src/core/LiveController.cpp:217-378 | A look takes in what was committed, never more than that or than is on disk, so a reader always has the beginning of the member; a reader that has stopped looks no more. |
| ArchiveFetchers.CompleteEndsTheWatch | src/core/LiveController.cpp:366-378 | The first look at a complete source that is neither rotated nor gone ends the watch. |
| ArchiveFetchers.LateAnswerLosesBytes | src/core/LiveController.cpp:217-222 | A run on which asking for completion after the refresh would lose a byte. |
| ConsoleFetchers.StepKeepsInv | src/core/ConsoleFetcher.cpp:211-273 | With whole writes every step keeps the spool equal to the origin from the base offset on. |
| ConsoleFetchers.RunIsVisible | src/core/ConsoleFetcher.cpp:462-527 | Over every run: the published file exists, its first committed bytes are the origin's, and what was seen stays. |
| ConsoleFetchers.FetchingGoesOn | src/core/ConsoleFetcher.cpp:236-273 | From every state a run of whole writes reaches, unless stopped, some run fetches all the device has, through a replaced log and a new generation if need be. |
| ConsoleFetchers.TurnsAreTold | src/core/ConsoleFetcher.cpp:236-273 | A turn in which a step goes wrong ends there and is told as failed; one that ends in any other way takes the telling back. |
| ConsoleFetchers.ReadsMayFail | src/core/ConsoleFetcher.cpp:248-257 | A read may bring anything that is there, nothing, or fail: the runs spoken of include them all. |
| ConsoleFetchers.LogsMove | src/core/ConsoleFetcher.cpp:462-527 | What the world does to a log: bytes behind it, or another log in its place. |
| ConsoleFetchers.BaseMeans | src/core/ConsoleFetcher.cpp:217-219 | A new generation fetches the whole log, or its last tailStart bytes when it is longer. |
| ConsoleFetchers.AfterPartialWrite | src/core/ConsoleFetcher.cpp:258-270 | After a write that failed with bytes on disk, at any moment of any later run in the generation: a reader sees the right bytes iff what was fetched again is no longer than what stayed behind, or repeats with its length. |
| ConsoleFetchers.LeftOverStays | src/core/ConsoleFetcher.cpp:211-273 | No later step within the generation takes the left-over away. |
| ConsoleFetchers.OnlyNothingLeftIsSafe | src/core/ConsoleFetcher.cpp:258-270 | Nothing left behind is always right; anything left behind is shown wrong as soon as one byte more than it was fetched that differs from the first. |
| ConsoleFetchers.PartialWriteCorrupts | src/core/ConsoleFetcher.cpp:258-270 | A concrete write of which one byte of two lands: right after the retry, wrong after the turn behind it. |
| ConsoleFetchers.FlushedIsOnDisk | src/core/ConsoleFetcher.cpp:260-270 | Over any run in which refused writes leave nothing and flushes may fall short: a published size lies on disk iff no flush of the generation fell short. |

## Left out

- Regex compilation and matching, timestamp parsing, Qt string conversion: uninterpreted functions of a line or a record.
- The byte-order-mark and NUL-parity heuristics of `Decoder::sniff`: a frequency guess with no crisp statement.
- Model and view signals (begin/end insert, remove, reset), wall-clock budgets, progress reports, status texts and translations.
- Indexers.Scan.ProcessLine: the scan holds the two intern tables as their name sequences; the hash behind them is proved apart in `InternTables.InternTable`.
- Indexers.ForwardScan: starts from an empty record vector, as both of its callers do, and takes the cancel as a function of the position.
- The laziness of the message decode inside the context emitter: matching is a property of a row, so how often it is asked is not counted there (it is in `Highlights.HighlighterSet.MatchActions`).
- Saturation and wrap-around of 32- and 64-bit offsets and totals, other than the record length and line count, which saturate as in the source.
- The unbound states of `EstimatedGeometry` and `FilteredIndex` (no index set yet), which answer constants.
- Mark masks are modelled as the set of their bits, so the 32-bit encoding of a mask is not.
- Geometry arithmetic in `double`: replaced by exact fractions with half-up rounding.
- Runs that are followed or re-targeted by their saved start (`retargetLastRun`, `selectRunByStart`).
- EstimatedGeometries.EstimatedGeometry.SyncTail: asks that between two syncs growth moved the last record alone; for rows withdrawn and added again while wrapping was off (LogView.cpp:2453-2463) only the cached heights are spoken of (`GeometryTruths.WithdrawnRowsBehind`), not the physical totals of the blocks in front.
- LiveRounds.RoundsAgainstFresh: the names a filter asks for stay the same over the history; names that a pane selects as it discovers them count as asked for from the start, and are late until then.
- ConsoleFetchers.FlushedIsOnDisk: what a flush did not bring to disk is taken as lost, though a later flush of the same open file may still bring it.
- GuiCallGate.EveryScheduleReleases: speaks of runs in which the works that started return and posted drains are delivered; the interrupt callback and exceptions thrown by a work are not modelled.
- ArchiveFetchers.StepKeepsInv: seeking to the member, the free-space question and nested decompression are one opening step that may fail; bytes a cancelled read hands back are dropped, as in the source.
- ConsoleFetchers.StepKeepsInv: signing in, waiting and the rotation verdict are reduced to one poll step with its outcome; SshFetcher is not part of this model.
- ArchiveFetchers.StopIsFinal: of the watch tick only the order of the four questions and the stop are modelled; grace periods, stale documents and first-bytes settling are not.
- Digests.Digest.UpdateDigestAfterAppend: when the rule list changed its length meanwhile it rebuilds, and the freshness of copies is then not claimed, because that rebuild republishes only a changed list.
- libarchive, SSH, serial and telnet transports, Avahi, keychain, JSON stores, configuration editing, file watching: I/O and foreign calls.
- Location normalisation, `FormatDetector`, `FormatPreview`, `AlertPolicy`, `Find`, `HeadWitness`, log throttling: heuristics, or members too simple to be worth a proof.
