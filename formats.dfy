/** The accepted-format filter applied to dropped files and to folder
    selections (src/App.js, acceptedFormats and the filter in handleDrop and
    handleFolderSelect). */
module Formats {
  import opened Text
  import Seqs

  /** A selected file as the browser hands it over: its name and size; the
      audio payload itself is opaque and never inspected. */
  datatype AudioFile = AudioFile(name: string, size: nat)

  /** The eight accepted extensions, in the source's order. */
  const AcceptedFormats: seq<string> :=
    [".mp3", ".wav", ".mp4", ".m4a", ".flac", ".ogg", ".webm", ".aac"]

  /** A name is accepted when, lower-cased, it ends with one of the accepted
      extensions. */
  predicate IsAccepted(name: string)
  {
    exists format :: format in AcceptedFormats && EndsWith(ToLower(name), format)
  }

  predicate IsAudioFile(f: AudioFile)
  {
    IsAccepted(f.name)
  }

  /** The files a drop or a folder selection admits. */
  function AudioFiles(files: seq<AudioFile>): seq<AudioFile>
  {
    Seqs.Filter(files, IsAudioFile)
  }

  /** A name is accepted exactly when its lower-cased form is some stem
      followed by one of the accepted extensions. */
  lemma AcceptedIffStemAndExtension(name: string)
    ensures IsAccepted(name) <==>
      exists stem, ext :: ext in AcceptedFormats && ToLower(name) == stem + ext
  {
    var lower := ToLower(name);
    if IsAccepted(name) {
      var ext :| ext in AcceptedFormats && EndsWith(lower, ext);
      var stem := lower[..|lower| - |ext|];
      assert lower == stem + ext;
    }
    if exists stem, ext :: ext in AcceptedFormats && lower == stem + ext {
      var stem, ext :| ext in AcceptedFormats && lower == stem + ext;
      assert lower[|lower| - |ext|..] == ext;
      assert EndsWith(lower, ext);
    }
  }

  /** The check ignores case: a name and its lower-cased form are judged alike,
      and every accepted name is longer than its shortest extension. */
  lemma AcceptedIgnoresCase(name: string)
    ensures IsAccepted(name) == IsAccepted(ToLower(name))
    ensures IsAccepted(name) ==> |name| >= 4
  {
    ToLowerIdempotent(name);
    if IsAccepted(name) {
      var ext :| ext in AcceptedFormats && EndsWith(ToLower(name), ext);
      assert |ext| >= 4;
    }
  }

  /** Concrete verdicts: an upper-case extension passes. */
  lemma AcceptedExamples()
    ensures IsAccepted("Interview.MP3")
    ensures IsAccepted("take2.webm")
  {
    assert EndsWith(ToLower("Interview.MP3"), ".mp3");
    assert EndsWith(ToLower("take2.webm"), ".webm");
  }

  /** No accepted extension ends in `c`. */
  lemma NoExtensionEndsIn(lower: string, c: char)
    requires lower != [] && lower[|lower| - 1] == c
    requires c !in {'3', 'v', '4', 'a', 'c', 'g', 'm'}
    ensures forall format :: format in AcceptedFormats ==> !EndsWith(lower, format)
  {
  }

  /** Concrete verdicts: another extension fails, and so does an accepted
      extension that is not the last one. */
  lemma RejectedExtensions()
    ensures !IsAccepted("notes.txt")
    ensures !IsAccepted("song.mp3.bak")
  {
    assert !IsAccepted("notes.txt") by {
      assert ToLower("notes.txt") == "notes.txt";
      NoExtensionEndsIn("notes.txt", 't');
    }
    assert ToLower("song.mp3.bak") == "song.mp3.bak";
    NoExtensionEndsIn("song.mp3.bak", 'k');
  }

  /** Concrete verdicts: a bare extension name without its dot fails. */
  lemma RejectedBareName()
    ensures !IsAccepted("mp3")
  {
    assert forall format :: format in AcceptedFormats ==> |format| > |ToLower("mp3")|;
  }

  /** A drop or a folder selection admits exactly the accepted files, in the
      order they were selected; a selection with nothing to reject is admitted
      whole and one with nothing accepted admits nothing. */
  lemma AudioFilesSpec(files: seq<AudioFile>, more: seq<AudioFile>)
    ensures forall f :: f in AudioFiles(files) <==> f in files && IsAccepted(f.name)
    ensures AudioFiles(files + more) == AudioFiles(files) + AudioFiles(more)
    ensures (forall f :: f in files ==> IsAccepted(f.name)) ==> AudioFiles(files) == files
    ensures (forall f :: f in files ==> !IsAccepted(f.name)) ==> AudioFiles(files) == []
  {
    Seqs.FilterConcat(files, more, IsAudioFile);
    if forall f :: f in files ==> IsAccepted(f.name) {
      Seqs.FilterKeepsAll(files, IsAudioFile);
    }
    if forall f :: f in files ==> !IsAccepted(f.name) {
      Seqs.FilterDropsAll(files, IsAudioFile);
    }
  }
}
