# Audio transcription queue — a Dafny model

This project models the logic of `src/App.js`, a React component. The user
picks audio files, which join a queue. The component sends the queued files one
at a time to a Whisper-compatible transcription endpoint. It then shows and
downloads the transcripts.

The model covers:

- the accepted-format filter used by drag-and-drop and folder selection;
- the queue operations `addFiles`, `handleDrop`, `handleFileSelect`,
  `handleFolderSelect` and `removeFile`;
- the sequential batch processor `processFiles`;
- the two downloads: the per-file download name and the text of the bulk
  download.

Modules:

- `Seqs` (`seqs.dfy`): `Array.prototype.filter` and `map` over sequences, with
  their algebra.
- `Text` (`text.dfy`): `String.prototype.trim` over the ECMAScript white-space
  set, `toLowerCase` and `endsWith`.
- `Formats` (`formats.dfy`): the eight accepted extensions and the filter built
  from them.
- `Queue` (`queue.dfy`): queue entries and the statuses they move through. It
  holds the value-level specification of one run (`SettleFirst`, `RunQueue`,
  `Harvest`) and the session invariant that ties the result list to the
  completed entries.
- `Session` (`session.dfy`): the class `TranscriptionSession`. Its fields
  `files`, `results` and `isProcessing` are the component's state. Its methods
  are the operations that change that state, and each one keeps the invariant.
  `ProcessFiles` is the source's loop over the pending snapshot. It is proved
  against `RunQueue` and `Harvest`.
- `Export` (`export.dfy`): the regular expression `/\.[^/.]+$/` is modelled as a
  backward scan. The scan is proved equal to the pattern's match condition. The
  module also holds the download name and the bulk-download text.

The transcription endpoint is an oracle. `ProcessFiles` takes a sequence of
replies and uses one per pending entry, in queue order. A reply is either
`Transcribed(body, completedAt)` or `Failed(message)`. The model trims the body,
as `transcribeAudio` does. `completedAt` stands for the clock reading taken when
the result is recorded.

## Model

| member | source | states |
|---|---|---|
| Seqs.Filter | src/App.js:65-67 | the filtered list holds exactly the elements of the input that satisfy the predicate, and is no longer than the input |
| Seqs.Map | src/App.js:75-82 | the mapped list has the input's length and holds the function's value of the element at each position |
| Seqs.FilterConcat | src/App.js:65-67 | filtering keeps relative order: filtering a concatenation filters each part |
| Seqs.FilterMap | src/App.js:102-103 | asking a question after a map equals mapping after asking it of the originals |
| Text.Trim | src/App.js:139 | the reply body with leading and trailing ECMAScript white space and line terminators removed; `TrimStart` then `TrimEnd` |
| Text.TrimStartSpec | src/App.js:139 | the kept part is a suffix, only white space is dropped before it, and it does not start with white space |
| Text.TrimEndSpec | src/App.js:139 | the kept part is a prefix, only white space is dropped after it, and it does not end with white space |
| Text.TrimSpec | src/App.js:139 | trim keeps an infix with only white space on either side, the infix has no white space at either end, and it is empty exactly when the string is blank |
| Text.TrimIdempotent | src/App.js:139 | trimming a trimmed string changes nothing |
| Text.ToLower | src/App.js:66 | a string of the same length in which no dot or slash is created or removed; each `A`–`Z` becomes its lower-case letter |
| Text.EndsWith | src/App.js:66 | a string ends with a suffix when the suffix is no longer than it and equals its last characters |
| Text.ToLowerIdempotent | src/App.js:66 | lower-casing twice is lower-casing once, and no upper-case letter is left |
| Formats.AcceptedFormats | src/App.js:47 | the eight accepted extensions, `.mp3`, `.wav`, `.mp4`, `.m4a`, `.flac`, `.ogg`, `.webm` and `.aac`, in the source's order |
| Formats.IsAccepted | src/App.js:66 | a name is accepted when its lower-cased form ends with one of the eight extensions of the accepted-format list |
| Formats.AudioFiles | src/App.js:65-67 | the files of a selection whose names are accepted, in selection order |
| Formats.AcceptedIffStemAndExtension | src/App.js:65-67 | a name is accepted exactly when its lower-cased form is some stem followed by one of the eight extensions |
| Formats.AcceptedIgnoresCase | src/App.js:66 | a name and its lower-cased form get the same verdict; every accepted name has at least four characters |
| Formats.AcceptedExamples | src/App.js:47 | `Interview.MP3` and `take2.webm` are accepted |
| Formats.RejectedExtensions | src/App.js:47 | `notes.txt` is rejected, and so is `song.mp3.bak`: only the final extension counts |
| Formats.RejectedBareName | src/App.js:47 | `mp3`, an extension name without its dot, is rejected |
| Formats.AudioFilesSpec | src/App.js:94-96 | a drop or folder selection admits exactly the accepted files, in selection order; it admits all files when every one is accepted and none when none is |
| Queue.NewEntries | src/App.js:75-82 | one entry per file, in order: the supplied id, the file, status pending, progress 0, no transcription and no error |
| Queue.WithoutId | src/App.js:102 | the queue entries whose id differs from the removed id, in order |
| Queue.WithoutResult | src/App.js:103 | the result records whose id differs from the removed id, in order |
| Queue.RemoveFileSpec | src/App.js:102 | removal deletes every entry with the id and keeps the others in order; it distributes over concatenation; a second removal, or removing an absent id, changes nothing |
| Queue.RemoveResultSpec | src/App.js:103 | the same for the result list |
| Queue.AddThenRemove | src/App.js:74-104 | removing a file just added under a fresh id gives back the previous queue |
| Queue.Apply | src/App.js:155-183 | the three in-place updates: start sets processing and progress 10; completion sets completed, progress 100 and the text; failure sets error and the message, leaving progress as it was |
| Queue.FinishOf | src/App.js:162-183 | the update a reply calls for: a successful reply completes the entry with the body trimmed as `transcribeAudio` does at line 139; a failure, the error caught at line 178, marks it with the message |
| Queue.Outcome | src/App.js:155-183 | the entry after one iteration: first marked processing with progress 10, then completed or failed as its reply says |
| Queue.UpdateById | src/App.js:155-158 | every entry whose id matches receives the update, every other entry is copied unchanged, in order |
| Queue.PendingOf | src/App.js:150 | the snapshot of a run: the pending entries, in queue order |
| Queue.SettleFirst | src/App.js:152-185 | the queue after the first k iterations of the loop: the first k pending entries, in queue order, each settled by the next reply; every other entry unchanged |
| Queue.RunQueue | src/App.js:150-185 | the queue after every pending entry of the snapshot, in order, has been started and then completed with the trimmed reply body or failed with the reply's message |
| Queue.ResultOf | src/App.js:171-176 | the record one iteration appends: on success the entry's id, its file name, the trimmed text and the timestamp; on failure nothing |
| Queue.Harvest | src/App.js:171-176 | the records a run appends: for each snapshot entry whose reply succeeded, its id, file name, trimmed text and timestamp, in processing order; nothing for a failed reply |
| Queue.UpdateByIdSpec | src/App.js:153-158 | an update by id keeps length and ids, applies the transition to the entries with that id and leaves every other entry as it was |
| Queue.SettleStep | src/App.js:150-185 | marking the k-th pending entry as processing and then applying its reply, both by id, gives the queue with k + 1 pending entries settled |
| Queue.RunStep | src/App.js:150-185 | one loop iteration advances both the queue and the result list by exactly one step of the specification |
| Queue.HarvestStep | src/App.js:171-176 | the records of the first i + 1 snapshot entries are those of the first i plus the record of entry i, if its reply succeeded |
| Queue.HarvestCount | src/App.js:171-176 | a run records exactly one result per successful reply it used |
| Queue.SettleFirstAt | src/App.js:150-185 | position by position, an entry is changed exactly when it is pending and among the first k pending entries; it then gets the reply whose index is the number of pending entries before it |
| Queue.RunQueueAt | src/App.js:150-185 | after a run every entry keeps its id and file; non-pending entries are unchanged; a pending entry ends completed with progress 100 and the trimmed text, or in error with the message, and its other field is untouched |
| Queue.RunLeavesNothingPending | src/App.js:149-186 | after a run no entry is pending |
| Queue.RerunIsNoOp | src/App.js:149 | a second run, whatever its replies, changes nothing and records nothing |
| Queue.Consistent | src/App.js:75-183 | an entry's fields agree with its status: pending has progress 0, processing and error have progress 10, completed has progress 100; a transcription exactly when completed, an error message exactly on error |
| Queue.SettledThenPending | src/App.js:83-185 | no pending entry comes before an entry that is not pending, since new entries are appended and a run settles every pending one |
| Queue.SessionInvariant | src/App.js:5-188 | ids are unique, every entry is consistent, pending entries come last, and the result list, without timestamps, is the completed entries' transcripts in queue order |
| Queue.InitialInvariant | src/App.js:5-8 | the empty queue with no results satisfies the session invariant |
| Queue.InvariantAfterAdd | src/App.js:74-84 | admitting files under fresh ids keeps the session invariant |
| Queue.InvariantAfterRemove | src/App.js:101-104 | removing an id from both lists keeps the session invariant |
| Queue.InvariantAfterRun | src/App.js:142-188 | a run keeps the session invariant |
| Queue.IdsAfterRun | src/App.js:150-185 | a run keeps every entry's id in its place |
| Queue.ConsistentAfterRun | src/App.js:150-185 | after a run every entry's status agrees with its progress, transcription and error fields |
| Queue.ResultsAfterRun | src/App.js:171-176 | after a run the result list, without timestamps, is the completed entries' transcripts in queue order |
| Queue.CompletedIffResult | src/App.js:164-176 | an entry is completed exactly when a result record has its id, and that record carries its file name and transcription |
| Queue.ResultIdsUnique | src/App.js:171-176 | no two result records share an id |
| Session.TranscriptionSession.constructor | src/App.js:5-8 | a new session has an empty queue and no results, is not processing, and satisfies the invariant |
| Session.TranscriptionSession.AddFiles | src/App.js:74-84 | appends one pending entry per file, with progress 0 and no transcription or error, after the existing entries, which are unchanged |
| Session.TranscriptionSession.HandleDrop | src/App.js:59-72 | appends entries for exactly the accepted dropped files, in order |
| Session.TranscriptionSession.HandleFileSelect | src/App.js:86-90 | appends entries for every picked file, unfiltered |
| Session.TranscriptionSession.HandleFolderSelect | src/App.js:92-99 | appends entries for exactly the accepted files of the folder, in order |
| Session.TranscriptionSession.RemoveFile | src/App.js:101-104 | drops the id from the queue and from the results and keeps the invariant |
| Session.TranscriptionSession.ProcessFiles | src/App.js:142-188 | an empty queue or a blank key changes nothing; otherwise the queue becomes RunQueue of the old queue, the results gain Harvest of the pending snapshot, the loop invariant keeps `isProcessing` set while the loop runs, and it is clear afterwards, and the invariant holds |
| Export.ExtensionAt | src/App.js:204 | `/\.[^/.]+$/` matches at j: a dot at j, at least one character after it, and no dot or slash from there to the end |
| Export.ExtensionScan | src/App.js:204 | scanning back from the end, a slash ends the search without a match, and the first dot met is the match unless it is the last character |
| Export.ExtensionStart | src/App.js:204 | where the match of `/\.[^/.]+$/` begins, if the name has one: the backward scan from the end of the name |
| Export.Stem | src/App.js:204 | the file name cut before the match of `/\.[^/.]+$/`, or the whole name when there is no match |
| Export.DownloadName | src/App.js:204 | the stem followed by `_transcription.txt` |
| Export.TranscriptionDownload | src/App.js:199-204 | the single download: the transcription, under the download name of its file |
| Export.ExtensionStartSpec | src/App.js:204 | the backward scan returns `j` exactly when `/\.[^/.]+$/` matches at `j`, and nothing exactly when it matches nowhere |
| Export.ExtensionUnique | src/App.js:204 | the pattern matches in at most one place, so replacing the first match replaces the only one |
| Export.StemSpec | src/App.js:204 | the stem is the name cut before the match, or the whole name when there is none, and is always a prefix of the name |
| Export.StemOfAccepted | src/App.js:199-204 | for an accepted file, in any case, the download name, and so the name of the single download, drops exactly its audio extension |
| Export.StemStripsExamples | src/App.js:204 | `clip.mp4` gives `clip`, `a.tar.gz` gives `a.tar`, `.bashrc` gives the empty stem |
| Export.StemKeepsExamples | src/App.js:204 | `take`, `take.` and `v.1/take` keep their whole name |
| Export.DownloadNameExample | src/App.js:204 | `clip.mp4` is saved as `clip_transcription.txt` |
| Export.Block | src/App.js:213 | the template of one block: `=== `, the file name, ` ===`, a line break, the text, and two line breaks |
| Export.Section | src/App.js:212-213 | a record's block: the block template applied to its file name and transcription |
| Export.Join | src/App.js:214 | `join('')`: the strings concatenated in order, with nothing between them |
| Export.ExportAll | src/App.js:211-214 | every record's block, in list order, concatenated with nothing between them |
| Export.BulkDownload | src/App.js:211-220 | the bulk download: the concatenated blocks, under the name `all_transcriptions.txt` |
| Export.JoinConcat | src/App.js:214 | joining a concatenation joins each part |
| Export.ExportAllConcat | src/App.js:211-214 | the bulk text of two lists is the first's followed by the second's; of no records it is empty; of one record it is that record's block |
| Export.SectionAt | src/App.js:211-214 | record i's block, and within it its transcription, sit in the bulk text at an offset fixed by the blocks of the records before it |
| Export.ExportAllExample | src/App.js:211-214 | two records give `=== a ===\nhi\n\n=== b ===\nyo\n\n` |
| Export.ExportOfSession | src/App.js:211-220 | in a session that keeps the invariant, the bulk text, saved as `all_transcriptions.txt`, is the blocks of the completed files, in queue order |

## Left out

- Network I/O in `transcribeAudio` is left out. This covers the form data, the request, the Bearer header, and parsing the error body into a message. Each call becomes one `Reply` of the oracle. The selected model and the base URL only shape that request, so they are not modelled.
- The `if (!apiKey)` check inside `transcribeAudio` is not modelled. `processFiles` has already refused a blank key, so the check cannot fire.
- Session.TranscriptionSession.ProcessFiles: requires at least one reply per pending entry. The replies stand for the endpoint's answers, and the run uses exactly that many.
- Async interleaving is not modelled. The run is sequential, so nothing else changes the queue during a run. In the source, a removal during an awaited request can still be followed by that request's result record.
- `Math.random` ids are replaced by a caller-supplied sequence of ids. The ids must be distinct and not in use. The source relies on a random id colliding only with negligible probability.
- Timestamps are an opaque string carried by the reply. `toLocaleString` is not modelled.
- Text.ToLower: lowers only `A`–`Z`. Full Unicode case mapping is left out. No other character lowers to one that occurs in an accepted extension, so the filter's verdicts do not depend on it.
- `formatFileSize` is floating-point display code and is not modelled.
- The clipboard, the Blob and object-URL plumbing, and the DOM anchors of the downloads are I/O. Only the name and the text they are given are modelled.
- Resetting the input element's value after a selection is not modelled.
- UI state is not modelled: the drag highlight (`handleDrag`), the disabled state of buttons, the alert dialog text and all rendering.
- The static model catalog is display data and is not modelled.
