# Verified models of the html2xtc core

Dafny models of six parts of html2xtc, with proofs about all inputs, all runs or all interleavings.
`dafny verify dfyconfig.toml` checks everything. Each module follows one or two files of the repository.

- **Splitting a document in four** (`Html`, `Segments`, `Boundaries`, `Splitter`, `SplitWhen`). The content
  tree is flattened into weighted segments, dominant children being unwrapped; three cuts are chosen by the
  first lexicographic minimum of (score, distance) inside a band, moved off orphaned headings, and the chunks
  are put together. Proved: what every stage computes, that there is one result, exactly when a document is
  split and when it is refused, that the chunks are balanced where no segment is heavy, that at most twelve
  elements are unwrapped, and that no text is lost, with the exact exception.
- **The catalog sync** (`CatalogDb`, `CatalogRuns`, `CatalogRows`, `CatalogLate`). Many runs at once, each
  database statement an atomic action, each step repeatable until it returns, leases that expire at any time.
  Proved over all traces: only an unbroken owner with a current snapshot activates, and once; every
  activation is healthy; and the active rows are exactly what was parsed as long as no cleanup takes rows of
  the active generation or of a run past its checks. A cleanup that does is shown to be harmful without
  exception, and two traces of ten thousand books each show that both kinds happen.
- **Text normalisation** (`TextNormalize`, `NormalizeLaws`, `TextLimits`). Each loop against its function,
  conservation of the non-whitespace characters, exactly when running the pipeline twice is running it once,
  and exactly when a text that was within the limits is within them afterwards.
- **Accounts, invites, challenges and sessions** (`AuthDb`, `AuthRuns`, `AuthTerms`, `AuthUndo`, `Sessions`).
  All interleavings of registrations, logins and deletions: every account keeps a passkey, a challenge is
  claimed once, an invite brings about at most one account, an open registration leaves its terms and its
  event. The session limit with `k` calls in flight, a bound that is met for every `k`.
- **The page pipeline** (`PageRange`, `Chunks`, `Chapters`, `Placement`). Two page-range parsers in two
  languages and exactly where they differ; chunks and the shared deadline; the chapter table; crop and placement.
- **Rate limiting** (`RateLimit`, `Ipv6`). Trace bounds of the fixed window, and the IPv6 parser against the
  text forms of section 2.2 of RFC 4291.

`Strings` holds the JavaScript string operations the others are written in.

## How the source is read

- A text is a sequence of code points (`char`); lengths that the source takes with `Array.from` are sequence
  lengths. Where lone surrogates matter (chapter names) a text is a sequence of numbers below 0x110000.
- The factors 0.8, 0.2, 0.4 and 0.25 are compared after multiplying out, so positions in the splitter are in
  twentieths of the text. Page images use exact reals with Python's rounding to even written out.
- A D1 statement, or a `batch`, is one atomic action. A generation goes by the name of its run: both come
  from the scheduled time, and a second run for the same time is refused (`src/index.ts:123-146`).
- The methods of a `Database` class and the actions of the transition system beside it are given by the same
  functions, so what a statement does is defined once.
- A timed-out attempt of a step is taken to write nothing after its step has returned.
- `crypto.randomUUID` draws ids that were never used; this is a guard of the actions that need it.

## Where code and comments disagree

- `src/aozora-fallback/split.ts:382-419` takes the segment it cuts up to be a text segment. Nothing makes it
  one: the document `<p>text</p>` has a single segment, an element, and its tags become text
  (`SplitWhen.CutUpElementIsReturned`). `Splitter.SplitKeepsText` gives the exact condition.
- `src/aozora-fallback/split.ts:446-452` calls its last guard unreachable. It is reached by a document of seven
  segments, none heavy, two of them empty `div`s where the second cut's search begins
  (`SplitWhen.RefusedExample`). `SplitWhen.SplitExactly` gives the exact condition.
- `src/catalog-workflow.ts:273-282` calls the cleanup best-effort because leftover rows never matter. A late
  cleanup deletes the rows of a newer active generation, because activation has given up the lock before it
  (`CatalogLate.LateCleanupHappens`); one that comes while its own generation is still active deletes the rows
  of a run that has passed its checks and then activates (`CatalogLate.CleanupAfterChecksHappens`).
  `CatalogLate.HarmfulExactly` gives the exact condition.
- `src/text-normalize.ts:315` with `preserveSpaces` and joining both on is not idempotent: a line of spaces is
  absorbed into the line before it by the first pass, and its break joined away by the second
  (`NormalizeLaws.UnstableExample`). `validateTextLimits` accepts a text of control characters that
  normalises to nothing (`TextLimits.AcceptedCanBeEmptied`), and limits the length of a line before lines are
  joined, not after (`TextLimits.JoinedPastTheLimit`, with the exact condition in
  `TextLimits.LineLimitAfterNormalize`).
- `src/auth/webauthn.ts:421-426` undoes an account that nobody was told of. Its owner's device holds the passkey
  already; a login and an added passkey in between succeed and are undone with it
  (`AuthUndo.AddedPasskeyCanBeTaken`).
- `src/pdf-page-range.ts` clamps an end beyond the document, `converter/pdf_upload.py` rejects it
  (`PageRange.WhereTheyDiffer`).

## Model

| member | source | states |
|---|---|---|
| Html.UnescapeEscape | src/aozora-fallback/split.ts:114-116 | decoding `&lt;`, `&gt;`, `&amp;` one after the other undoes the escape, for every text |
| Html.EscapeIsPerCharacter | src/aozora-fallback/split.ts:114-116 | three global replaces in this order escape each character on its own |
| Html.NodeRoundTrip | src/aozora-fallback/split.ts:194-206 | reading the text of a node's `outerHTML` gives the node's `textContent`, and the markup leaves no tag or reference open |
| Html.MarkupRoundTrip | src/aozora-fallback/split.ts:194-206 | the same for a list of siblings |
| Html.UnescapedElementIsNotItsText | src/aozora-fallback/split.ts:398-405 | decoding an element's `outerHTML` as if it were escaped text never gives its text |
| Segments.FlattenSegments | src/aozora-fallback/split.ts:145-209 | the recursive loop yields the flattened segments of the tree |
| Segments.FlattenKeepsText | src/aozora-fallback/split.ts:145-209 | flattening keeps the text in document order, however deep it unwraps; every segment's weight is that of its markup's text |
| Segments.UnwrappedShareTheText | src/aozora-fallback/split.ts:183-193 | the elements unwrapped on one level together weigh more than 0.4 of the text each |
| Segments.UnwrapsPerLevel | src/aozora-fallback/split.ts:183-193 | at most two elements are unwrapped per depth level |
| Segments.AtMostTwelveUnwraps | src/aozora-fallback/split.ts:82-83 | at most twelve elements are unwrapped in any document |
| Boundaries.PrecedingBreakRun | src/aozora-fallback/split.ts:220-232 | the backward scan counts the line breaks right before an index, blanks skipped |
| Boundaries.FindPreviousMeaningful | src/aozora-fallback/split.ts:235-242 | the backward scan finds the last segment that is neither break nor blank |
| Boundaries.ScoreBoundary | src/aozora-fallback/split.ts:245-261 | the score of a cut, from both scans |
| Boundaries.SearchBand | src/aozora-fallback/split.ts:284-297 | the loop finds the first lexicographic minimum of (score, distance) among the in-band indices, or that there is none |
| Boundaries.SearchAll | src/aozora-fallback/split.ts:298-308 | the widening loop finds the first index of least distance |
| Boundaries.ChooseCut | src/aozora-fallback/split.ts:280-311 | one target's cut, the fallback included |
| Boundaries.ChooseBoundaries | src/aozora-fallback/split.ts:266-316 | the three cuts, each searched from behind the one before |
| Boundaries.CutsUnique | src/aozora-fallback/split.ts:266-316 | the specification of the cuts leaves no choice |
| Boundaries.CutsLeaveNoChunkWithoutSegments | src/aozora-fallback/split.ts:266-316 | with four or more segments the cuts rise strictly and leave each chunk one; the last-resort fallback is for fewer only |
| Boundaries.QuarterBoundedIsBalanced | src/aozora-fallback/split.ts:266-316 | when no segment holds more than a quarter, all searches succeed in the band: outer chunks 5% to 45%, inner ones at most 65% |
| Boundaries.RepairHeadingOrphans | src/aozora-fallback/split.ts:322-341 | the repairing loops compute the repair |
| Boundaries.RepairCut | src/aozora-fallback/split.ts:322-341 | a cut moves back only over headings, not below its lower bound, and stops where no heading is before it |
| Boundaries.RepairIsSafe | src/aozora-fallback/split.ts:322-341 | the repair keeps the order, moves no cut later, only over headings, and leaves no orphan but a chunk of one segment |
| Boundaries.RepairFixes | src/aozora-fallback/split.ts:322-341 | cuts that the repair leaves alone are exactly those without an orphan |
| Boundaries.RepairIdempotent | src/aozora-fallback/split.ts:322-341 | repairing twice is repairing once |
| Splitter.SplitTextIntoPieces | src/aozora-fallback/split.ts:358-374 | the loop cuts a text into pieces, or finds it shorter than their number |
| Splitter.PiecesPartition | src/aozora-fallback/split.ts:358-374 | the pieces are non-empty, make up the text, and differ by at most one in length, the longer first |
| Splitter.FindLargest | src/aozora-fallback/split.ts:387-394 | the first largest segment that is no line break |
| Splitter.ForceEnoughSegments | src/aozora-fallback/split.ts:382-419 | the splice that brings a short list to four segments, or its failure |
| Splitter.ForcedKeepsText | src/aozora-fallback/split.ts:382-419 | forcing keeps the text if and only if it does not cut up an element |
| Splitter.CutUpElementExample | src/aozora-fallback/split.ts:382-419 | for a document of one plain paragraph the text is changed |
| Splitter.JoinHtml | src/aozora-fallback/split.ts:347-349 | the inner loop concatenates the markup of a slice |
| Splitter.AssembleChunks | src/aozora-fallback/split.ts:343-352 | the four chunks between the cut points |
| Splitter.SplitContentIntoChunks | src/aozora-fallback/split.ts:430-455 | the whole split, all failures included |
| Splitter.SplitUnique | src/aozora-fallback/split.ts:430-455 | a document has one split |
| Splitter.SplitKeepsText | src/aozora-fallback/split.ts:430-455 | four chunks, each with text, whose texts make up the document's text if and only if no element was cut up |
| SplitWhen.SplitExactly | src/aozora-fallback/split.ts:430-455 | a document with text and enough segments is split if and only if some segment with text lies between any two neighbouring cuts, and refused otherwise |
| SplitWhen.BalancedSplit | src/aozora-fallback/split.ts:266-352 | without a heavy segment and without orphaned headings the chunks are balanced and add up, and they are the split if and only if both inner ones have text |
| SplitWhen.WeightOfDocument | src/aozora-fallback/split.ts:430-441 | four segments or more are not forced, and together weigh what the document does |
| SplitWhen.OverlapsSuffice | src/aozora-fallback/split.ts:266-316 | both inner chunks have text where no segment without text stands in the overlap of two bands, wherever the cuts fall |
| SplitWhen.RefusedExample | src/aozora-fallback/split.ts:446-452 | a document of seven segments, none above a quarter, that the last guard refuses |
| SplitWhen.CutUpElementIsReturned | src/aozora-fallback/split.ts:382-419 | the document `<p>text</p>` is split, and its chunks do not hold its text |
| CatalogDb.Database.AcquireCatalogSyncLock | src/catalog-db.ts:92-113 | the conditional UPDATE and its answer |
| CatalogDb.Database.ReleaseCatalogSyncLock | src/catalog-db.ts:116-128 | gives up the lock only when the run owns it |
| CatalogDb.Database.UpsertBookChunk | src/catalog-db.ts:357-401 | the batch merges its rows by key, the later of two winning |
| CatalogDb.Database.UpsertContributorChunk | src/catalog-db.ts:404-438 | the same, all or nothing, with a book required for every row |
| CatalogDb.CountOf | src/catalog-db.ts:452-463 | counting row by row finds the size of the generation's part of a table |
| CatalogDb.CountCardUrls | src/catalog-db.ts:464-468 | counting row by row finds how many rows have a card URL |
| CatalogDb.Database.CountGeneration | src/catalog-db.ts:448-474 | the three counts are the sizes of the generation's books, contributors and books with a card URL |
| CatalogDb.Database.ActivateGeneration | src/catalog-db.ts:487-523 | switches for the owner only; reports `true` exactly when the active generation is the caller's |
| CatalogDb.Database.DeleteOldGenerations | src/catalog-db.ts:530-544 | leaves exactly the rows of the generation kept |
| CatalogDb.UpsertTwice | src/catalog-db.ts:330-349 | a repeated upsert changes nothing |
| CatalogDb.KeyedHolds | src/catalog-db.ts:330-349 | with distinct keys every row of an upsert is there, whatever the order |
| CatalogRuns.OwnerSinceAcquire | src/catalog-db.ts:92-113 | whoever owns the lock in a trace has owned it without a break since an acquire of its own |
| CatalogRuns.LeaseProtects | src/catalog-db.ts:92-113 | until a lease expires nobody else's statements change the lock or the active generation |
| CatalogRuns.EveryActivationIsHealthy | src/catalog-workflow.ts:498-532 | over all traces: every active book count is at least 10,000 and at least 80% of its predecessor |
| CatalogRuns.SwitchOnlyByUnbrokenOwner | src/catalog-workflow.ts:146-159 | an activating UPDATE that changes the row: unbroken ownership since acquire, nothing activated meanwhile, the snapshot still current |
| CatalogRows.FinishedHasActivatedOnce | src/catalog-workflow.ts:242-260 | over all traces: a run past its activate step, however often that was tried, has changed the state row exactly once, as the owner of the lock |
| CatalogRows.ActivatedByOneSwitch | src/catalog-db.ts:487-523 | a run has activated if and only if one of its UPDATEs changed the row, and no two did |
| CatalogRuns.SwitchInvKept | src/catalog-workflow.ts:99-287 | what every step keeps for the two results above |
| CatalogRows.EpochInvKept | src/catalog-workflow.ts:99-287 | what every step keeps about who activated when: a run activates once, as the owner of its epoch |
| CatalogRows.TableInvKept | migrations/aozora/0001_init.sql:141-145 | every step keeps the foreign key, and a run that has not begun to load has no rows |
| CatalogRows.CountTellsAll | src/catalog-workflow.ts:498-514 | as many rows as were parsed, all of them parsed, are exactly what was parsed: nothing missing, no two rows of one key |
| CatalogRows.BaseInvKept | src/catalog-workflow.ts:99-287 | every step whatsoever keeps: one activation a run, no row that was not parsed, the state row's counts those of the active run's manifest |
| CatalogRows.RowsInvKept | src/catalog-workflow.ts:202-282 | every step but a harmful cleanup keeps the rows complete of the active run and of the owner once past its checks |
| CatalogRows.ActiveRowsAreWhatWasParsed | src/catalog-workflow.ts:202-282 | in every state of a trace without a harmful cleanup the active rows are exactly the keyed union of the run's chunks, and the counts on the state row are theirs |
| CatalogRows.InTimeIsHarmless | src/catalog-workflow.ts:273-282 | a cleanup before the next run begins to load is harmless |
| CatalogRows.TimelyTraceIsHarmless | src/catalog-workflow.ts:273-282 | so is every trace in which each cleanup is in time |
| CatalogLate.CleanupKeepsActiveIff | src/catalog-db.ts:530-544 | either DELETE of a cleanup keeps the active generation's rows if and only if it keeps that generation, or there are none to lose |
| CatalogLate.HarmfulExactly | src/catalog-workflow.ts:232-282 | after any trace without a harmful cleanup, the next DELETE takes rows of the active run or of one past its checks if and only if it leads, without further cleanups, to an active generation that lacks what it parsed |
| CatalogLate.HarmfulLeadsToWrong | src/catalog-workflow.ts:232-282 | from any state that can come about, cleanups of every kind before it included, a harmful cleanup leads there |
| CatalogLate.LateCleanup | src/catalog-workflow.ts:232-282 | for any two valid manifests, the second at least 80% of the first, there is a trace that leaves the active generation without rows |
| CatalogLate.CleanupAfterChecks | src/catalog-workflow.ts:232-282 | the same with the cleanup running while its own generation is active, after the second run's checks |
| CatalogLate.LateCleanupHappens | src/catalog-workflow.ts:232-282 | a concrete such trace, 10,000 books by the state row and none in the table |
| CatalogLate.CleanupAfterChecksHappens | src/catalog-workflow.ts:232-282 | a concrete trace of the second kind |
| TextNormalize.StripControlChars | src/text-normalize.ts:103-115 | the loop removes the control characters and counts them |
| TextNormalize.CleanedIsClean | src/text-normalize.ts:77-115 | after the first two stages no carriage return and no control character is left |
| TextNormalize.CollapseLines | src/text-normalize.ts:121-138 | the loop keeps blank lines up to the limit |
| TextNormalize.CollapseBoundsRuns | src/text-normalize.ts:121-138 | no run of blank lines is over the limit afterwards |
| TextNormalize.JoinLinesInParagraph | src/text-normalize.ts:210-226 | the loop joins the lines of a paragraph as the line-by-line function does |
| TextNormalize.JoinWrappedIsOnePass | src/text-normalize.ts:235-240 | joining paragraph by paragraph is one pass over all lines |
| NormalizeLaws.Normalize | src/text-normalize.ts:315-323 | the whole pipeline and the number of control characters removed |
| NormalizeLaws.JoinParagraphs | src/text-normalize.ts:235-240 | the joined paragraphs, even pieces joined and odd ones kept |
| NormalizeLaws.LayOutKeeps | src/text-normalize.ts:121-240 | the stages after NFC keep the non-whitespace characters in order and never lengthen the text or add lines |
| NormalizeLaws.CountedLines | src/text-normalize.ts:23-25 | the lines counted before are the LF lines after line endings are unified |
| NormalizeLaws.NormalizeKeeps | src/text-normalize.ts:315-323 | the whole pipeline without NFC: exactly the non-whitespace characters that are no removed controls |
| NormalizeLaws.JoinedTwice | src/text-normalize.ts:210-240 | joining twice is joining once exactly when no spaces-only line was absorbed |
| NormalizeLaws.LayOutTwice | src/text-normalize.ts:315-323 | the stages after NFC are stable exactly when not `Unstable` |
| NormalizeLaws.NormalizeTwice | src/text-normalize.ts:315-323 | given that NFC fixes the output: normalising twice is normalising once if and only if not `Unstable` |
| NormalizeLaws.NormalizeIdempotent | src/text-normalize.ts:315-323 | idempotent for every text and limit when spaces are not preserved or lines not joined, given that NFC fixes the output |
| NormalizeLaws.UnstableExample | src/text-normalize.ts:315-323 | every text of two lines that would be joined, with a line of one space between them, normalises differently the second time |
| TextLimits.ValidateTextLimits | src/text-normalize.ts:51-71 | the first limit that is exceeded, in the order of the checks |
| TextLimits.AcceptedAfterNormalize | src/text-normalize.ts:44-71 | an accepted text stays within the limits on characters and lines when normalised; it comes out blank exactly when it held nothing but whitespace and controls |
| TextLimits.LineLimitAfterNormalize | src/text-normalize.ts:51-71 | it stays within the limit on a line's length, except exactly when lines are joined and some maximal run of joined lines is too long together |
| TextLimits.JoinedTooLong | src/text-normalize.ts:210-240 | joining makes a line too long exactly when such a run is |
| TextLimits.JoinedPastTheLimit | src/text-normalize.ts:63-71 | two letters on two lines, accepted at one character a line, become a line of three |
| TextLimits.AcceptedCanBeEmptied | src/text-normalize.ts:51-54 | such a text |
| AuthDb.Database.RunNewAccountRegistrationBatch | src/auth/repository.ts:285-299 | exactly when the batch throws, that it then leaves nothing, and what it commits otherwise |
| AuthDb.Database.RunOpenAccountRegistrationBatch | src/auth/repository.ts:345-355 | exactly when one of the four INSERTs throws, that the batch then leaves nothing, and that it commits account, passkey, accepted terms and event otherwise |
| AuthDb.Database.InsertTermsAcceptance | src/auth/repository.ts:304-314 | the INSERT with its primary key and foreign key |
| AuthDb.Database.InsertRegistrationEvent | src/auth/repository.ts:317-326 | the INSERT and its primary key |
| AuthDb.Database.InsertAccount | src/auth/repository.ts:15-31 | the INSERT and its primary key |
| AuthDb.Database.InsertCredential | src/auth/repository.ts:129-132 | the INSERT with its primary key, UNIQUE and foreign key |
| AuthDb.Database.ConsumeInvite | src/auth/repository.ts:260-263 | the conditional UPDATE |
| AuthDb.Database.DeleteCredentialById | src/auth/repository.ts:186-196 | deletes unless it is the account's last one |
| AuthDb.Database.DeleteAccountById | src/auth/repository.ts:34-36 | deletes the account and, by cascade, its credentials and the terms it accepted |
| AuthDb.Database.ConsumeChallenge | src/auth/challenges.ts:114-149 | claims exactly a present, unconsumed, unexpired challenge of the purpose |
| AuthDb.Database.ClaimChallenge | src/auth/challenges.ts:136-143 | the conditional UPDATE |
| AuthDb.RegistrationKeepsSound | src/auth/repository.ts:285-299 | a new account comes with its passkey |
| AuthDb.OpenRegistrationKeepsSound | src/auth/repository.ts:345-355 | so does one by open registration |
| AuthDb.DeleteCredentialKeepsSound | src/auth/repository.ts:186-196 | deleting a passkey never leaves an account without one |
| AuthDb.DeleteAccountKeepsSound | src/auth/repository.ts:34-36 | deleting an account leaves no passkey of it behind |
| AuthRuns.InvKept | src/auth/webauthn.ts:331-502 | what every action of every call keeps |
| AuthRuns.EveryAccountHasAPasskey | src/auth/webauthn.ts:331-502 | in every interleaving every account has a passkey, and passkeys are unique |
| AuthRuns.OneClaimant | src/auth/challenges.ts:114-149 | each challenge is claimed by at most one call |
| AuthRuns.OneAccountPerInvite | src/auth/webauthn.ts:401-434 | once all undos have run an invite has brought about at most one account that is there |
| AuthRuns.UndoSparesTheRegistered | src/auth/webauthn.ts:420-430 | an undo can hit the account of a registration that succeeded only if that one added a passkey, from a session somebody logged in to |
| AuthUndo.AddedPasskeyCanBeTaken | src/auth/webauthn.ts:420-430 | and it can: from every reachable state with an undo to come a run adds a passkey with success that the undo then takes |
| AuthUndo.RaceIsLost | src/auth/webauthn.ts:401-430 | such a state is reached: for any names, a run in which two calls register with one invite |
| AuthTerms.TermsInvKept | src/auth/webauthn.ts:331-502 | what every action keeps about accepted terms and events |
| AuthTerms.OpenAccountsAcceptedTerms | src/auth/webauthn.ts:436-479 | in every interleaving an open account has the terms of its challenge on record, no acceptance is orphaned, and the events are as many as the open registrations that succeeded |
| Sessions.SessionTable.CountActiveSessions | src/auth/sessions.ts:130-137 | counting session by session finds the number of active ones |
| Sessions.SessionTable.RevokeOldestActiveSession | src/auth/sessions.ts:140-156 | revokes an active session that no active one is older than |
| Sessions.SessionTable.CreateSession | src/auth/sessions.ts:172-211 | one call alone: which sessions are active afterwards, and never more than the limit |
| Sessions.LoadKept | src/auth/sessions.ts:130-211 | active sessions, calls about to insert and expired victims together stay within the bound at every action |
| Sessions.ActiveSessionsBound | src/auth/sessions.ts:130-211 | with at most k calls in flight, never more than limit + k - 1 active sessions |
| Sessions.BoundIsMet | src/auth/sessions.ts:172-211 | for every k, k calls that count before any inserts reach limit + k - 1 active sessions from any table one short of the limit |
| PageRange.ValidatePageRangeSyntax | src/pdf-page-range.ts:39-60 | the first syntax error of a spec |
| PageRange.ResolvePageRange | src/pdf-page-range.ts:73-113 | the nested loops compute the Worker's list or its error |
| PageRange.ParsePageRange | converter/pdf_upload.py:428-460 | the loops compute the Container's list or its error |
| PageRange.AppendRange | src/pdf-page-range.ts:94-100 | appending a range adds the pages not seen before |
| PageRange.SameSegment | converter/pdf_upload.py:392-425 | both read the same start and end from a segment, or one is outside the document |
| PageRange.SameLanguage | src/pdf-page-range.ts:73-135 | the Container succeeds exactly when every written number is a page, and then the Worker gives the same list, or refuses it for its length |
| PageRange.WhereTheyDiffer | src/pdf-page-range.ts:116-135 | one clamps and the other rejects exactly when all starts are inside and some end is not |
| PageRange.PagesAreFirstOccurrences | src/pdf-page-range.ts:73-113 | the list holds every page of every range once, in order of first occurrence |
| Chunks.Chunked | converter/pdf_upload.py:683-684 | the batches make up the list, all full but the last |
| Chunks.PageRanges | converter/app.py:875-878 | the ranges tile the pages 1 to n |
| Chunks.RasterCalls | converter/app.py:859-900 | with a known page count no call covers more pages than the threshold, and together they cover each page once |
| Chunks.RunChild | converter/pdf_upload.py:727-760 | a child starts only before the deadline and is over by it |
| Chunks.ConvertInChunks | converter/pdf_upload.py:951-1020 | after children that succeeded: succeeds exactly when all further children do in time, and then holds the selected pages in order; all children keep the deadline |
| Chunks.ConvertUploadedPdf | converter/pdf_upload.py:842-905 | the inspecting child shares the deadline; exactly when the upload is rejected, and exactly when it is converted |
| Chapters.TruncateUtf8Bytes | converter/app.py:274-285 | the longest prefix that fits the bytes, or failure exactly on a surrogate |
| Chapters.Fitting | converter/app.py:281-285 | the longest prefix, in code points, whose UTF-8 length fits |
| Chapters.LongestIsUnique | converter/app.py:274-285 | a prefix fits exactly when it is no longer than the one chosen |
| Chapters.FindFirst | converter/app.py:450-456 | the first page in a clamped range that holds the marker |
| Chapters.DetectChapterPages | converter/app.py:458-481 | the chapters located are exactly the strict running-maximum records of the marker pages |
| Chapters.ExtendRecords | converter/app.py:458-481 | comparing with the last accepted page finds exactly the records |
| Chapters.RecordsRise | converter/app.py:458-481 | their pages rise strictly and lie in the document |
| Chapters.BuildChapterEntries | converter/app.py:484-532 | the table holds exactly the chapters kept, in order, with their ranges and cut names |
| Chapters.TableKeeps | converter/app.py:484-532 | every chapter that passes both checks is in the table, its name within 79 bytes |
| Chapters.RangeDropsSuffix | converter/app.py:510-520 | the range check drops only a suffix |
| Chapters.TableRises | converter/app.py:484-532 | start is at most end, and ranges are disjoint and increasing |
| Chapters.TableTiles | converter/app.py:484-532 | with nothing dropped the ranges tile from the first start to the last page |
| Placement.CropInside | converter/pdf_upload.py:484-497 | a crop box lies inside the image |
| Placement.EmptyCropSides | converter/pdf_upload.py:238-256 | a validated crop can empty a side if and only if it has two or four pixels |
| Placement.CropFailsOnlyOnSmallSides | converter/pdf_upload.py:484-497 | the empty-crop error needs such a side |
| Placement.ContainFits | converter/pdf_upload.py:511-518 | a contained image stays inside the margins, fills one dimension and is centred within a pixel |
| Placement.CoverFills | converter/pdf_upload.py:520-529 | a covering image is cropped inside itself to the inner area, centred, one dimension uncut |
| Placement.PlaceOnCanvas | converter/pdf_upload.py:500-529 | every pixel of the canvas |
| RateLimit.RateLimiter.TakeWithWindow | src/ratelimiter.ts:49-65 | one request against the stored window |
| RateLimit.RateLimiter.Serve | src/ratelimiter.ts:49-65 | a run of requests answers as the pure trace does |
| RateLimit.FixedWindowBound | src/ratelimit.ts:160-186 | a half-open span of m windows allows at most (m + 1) times the limit |
| RateLimit.SpanBound | src/ratelimit.ts:160-186 | the same from any stored window |
| RateLimit.DeniedLeavesState | src/ratelimit.ts:160-186 | denied exactly in a full live window, which stays as it was |
| RateLimit.RetryAfterIsLeast | src/ratelimit.ts:160-186 | the least positive number of seconds after which a request is allowed |
| Ipv6.ParsesExactlyTheTextForms | src/validate.ts:221-280 | a text is parsed to words exactly when it is one of their forms in section 2.2 of RFC 4291: eight groups, `::` for one run of zeros, a dotted-quad tail |
| Ipv6.ParsesExactlyQuads | src/validate.ts:190-197 | a text is read as four octets exactly when it is four decimal numbers up to 255, of one to three digits, joined by dots |
| Ipv6.ParsedBound | src/validate.ts:221-280 | every result is eight words below 65536 |
| Ipv6.KeyIsPrefix | src/ratelimit.ts:67-83 | two IPv6 clients share a counter exactly when their first four words agree |
| Ipv6.KeysOfOtherKinds | src/ratelimit.ts:67-83 | a client without a colon shares a counter only with the same text |
| Ipv6.ToHex | src/validate.ts:238-246 | `toString(16)` is read back by `parseInt(_, 16)` |

## Left out

- Network, R2, Browser Run, Containers, HTTP handlers, logging, hashing and WebAuthn verification: their answers are parameters or free choices of the actions.
- linkedom: a tree of text, element and comment nodes, its serialisation, and a scanner that reads text back. Tag names are taken in lower case; entities other than `&lt;`, `&gt;`, `&amp;`, `&quot;` and `&nbsp;` written by the serialiser are not modelled.
- The content metrics of a chunk other than its text length.
- Lone surrogates in the TypeScript texts; Python's `\d` beyond ASCII, which the Worker's check keeps out.
- NFC: an uninterpreted function; where a result depends on it, the hypothesis is in the lemma.
- Integer widths: page numbers, counts and times are unbounded.
- Floating point: the comparisons and scalings are exact.
- The bookkeeping table of sync runs, the source validators on the state row, and R2 cleanup.
- CatalogRows.ActiveRowsAreWhatWasParsed: holds for traces without a harmful cleanup, because one such cleanup makes the statement false (CatalogLate.HarmfulExactly).
- The account cap, the rate limits on open registration, and the deletion of old challenges, invites and registration events.
- AuthRuns.UndoSparesTheRegistered: does not model that a session can be revoked, so a passkey may also be added from a session of the account that was logged out of.
- Sessions.ActiveSessionsBound: the time bound to a count or a search is taken to be the clock when the statement runs; sessions of other accounts do not matter to it.
- Sessions: tokens, cookies and their time to live.
- Placement.PlaceOnCanvas: does not model margins that leave no inner area, because the margin is validated to at most 64 pixels and the canvases are larger; resizing is a parameter.
- Chunks: what a child process does with its pages is taken to be packing them in order.
- The single-pass branch of `convert_pdf` gives its one child the whole budget from that moment on, so its deadline is its own.
- Chapters: text extraction and its whitespace stripping; the page texts are given.
- `markdown` and Aozora variants of the normaliser, option validators, quotas, routes, frontend and scripts: single-branch facts.
