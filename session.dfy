/** The component's session state and the operations that change it
    (src/App.js: addFiles, handleDrop, handleFileSelect, handleFolderSelect,
    removeFile, processFiles). The queue and the result list are fields that
    each operation reassigns; every operation keeps the session invariant. */
module Session {
  import opened Text
  import opened Formats
  import opened Queue

  /** How a call to processFiles ended: refused because the queue is empty,
      refused with the "enter your API key" alert, or run to the end. */
  datatype RunOutcome = NothingQueued | ApiKeyMissing | Ran

  class TranscriptionSession {
    var files: seq<FileEntry>
    var results: seq<ResultEntry>
    var isProcessing: bool

    ghost predicate Valid()
      reads this
    {
      SessionInvariant(files, results)
    }

    constructor ()
      ensures Valid()
      ensures files == [] && results == [] && !isProcessing
    {
      files, results, isProcessing := [], [], false;
      InitialInvariant();
    }

    /** addFiles: append one pending entry per file, ids from the supply. */
    method AddFiles(newFiles: seq<AudioFile>, ids: seq<Id>)
      requires Valid()
      requires |ids| == |newFiles| && FreshIds(files, ids)
      modifies this`files
      ensures Valid()
      ensures files == old(files) + NewEntries(newFiles, ids)
      ensures |files| == |old(files)| + |newFiles|
      ensures forall e :: e in files[|old(files)|..] ==>
        e.status == Pending && e.progress == 0 && e.transcription == None && e.error == None
    {
      InvariantAfterAdd(files, results, newFiles, ids);
      files := files + NewEntries(newFiles, ids);
    }

    /** handleDrop: admit the dropped files with an accepted extension, if any. */
    method HandleDrop(dropped: seq<AudioFile>, ids: seq<Id>)
      requires Valid()
      requires |ids| == |AudioFiles(dropped)| && FreshIds(files, ids)
      modifies this`files
      ensures Valid()
      ensures files == old(files) + NewEntries(AudioFiles(dropped), ids)
    {
      var audioFiles := AudioFiles(dropped);
      if |audioFiles| > 0 {
        AddFiles(audioFiles, ids);
      }
    }

    /** handleFileSelect: admit every picked file, unfiltered. */
    method HandleFileSelect(selected: seq<AudioFile>, ids: seq<Id>)
      requires Valid()
      requires |ids| == |selected| && FreshIds(files, ids)
      modifies this`files
      ensures Valid()
      ensures files == old(files) + NewEntries(selected, ids)
    {
      AddFiles(selected, ids);
    }

    /** handleFolderSelect: admit the files of the folder with an accepted extension. */
    method HandleFolderSelect(selected: seq<AudioFile>, ids: seq<Id>)
      requires Valid()
      requires |ids| == |AudioFiles(selected)| && FreshIds(files, ids)
      modifies this`files
      ensures Valid()
      ensures files == old(files) + NewEntries(AudioFiles(selected), ids)
    {
      var audioFiles := AudioFiles(selected);
      AddFiles(audioFiles, ids);
    }

    /** removeFile: drop the id from the queue and from the results. */
    method RemoveFile(id: Id)
      requires Valid()
      modifies this`files, this`results
      ensures Valid()
      ensures files == WithoutId(old(files), id)
      ensures results == WithoutResult(old(results), id)
    {
      InvariantAfterRemove(files, results, id);
      files := WithoutId(files, id);
      results := WithoutResult(results, id);
    }

    /** processFiles: refuse on an empty queue or a blank key; otherwise
        snapshot the pending entries and send them one at a time, in queue
        order, consuming one reply each. Each entry is first marked as
        processing, then completed with the trimmed text (and a result record
        is appended) or marked in error with the message; a failure does not
        stop the loop. */
    method ProcessFiles(apiKey: string, replies: seq<Reply>) returns (outcome: RunOutcome)
      requires Valid()
      requires |PendingOf(files)| <= |replies|
      modifies this
      ensures Valid()
      ensures outcome == (if old(files) == [] then NothingQueued
                          else if IsBlank(apiKey) then ApiKeyMissing
                          else Ran)
      ensures outcome != Ran ==>
        files == old(files) && results == old(results) && isProcessing == old(isProcessing)
      ensures outcome == Ran ==>
        && files == RunQueue(old(files), replies)
        && results == old(results) + Harvest(PendingOf(old(files)), replies)
        && !isProcessing
    {
      if |files| == 0 {
        return NothingQueued;
      }
      TrimSpec(apiKey);
      if Trim(apiKey) == [] {
        return ApiKeyMissing;
      }

      ghost var files0, results0 := files, results;
      isProcessing := true;
      var pendingFiles := PendingOf(files);
      // Working copies of the two lists; every update is published to the
      // fields straight away, as each setFiles and setResults call does.
      var queue, records := files, results;
      var i := 0;
      while i < |pendingFiles|
        invariant 0 <= i <= |pendingFiles|
        invariant isProcessing && files == queue && results == records
        invariant queue == SettleFirst(files0, replies, i)
        invariant records == results0 + Harvest(pendingFiles[..i], replies)
      {
        var fileData := pendingFiles[i];
        RunStep(files0, results0, replies, i);
        queue := UpdateById(queue, fileData.id, Start);
        files := queue;
        match replies[i] {
          case Transcribed(body, completedAt) =>
            var transcription := Trim(body);
            queue := UpdateById(queue, fileData.id, Complete(transcription));
            records := records + [ResultEntry(fileData.id, fileData.file.name, transcription, completedAt)];
          case Failed(message) =>
            queue := UpdateById(queue, fileData.id, Fail(message));
        }
        files, results := queue, records;
        i := i + 1;
      }
      isProcessing := false;
      assert pendingFiles[..i] == pendingFiles;
      InvariantAfterRun(files0, results0, replies);
      return Ran;
    }
  }
}
