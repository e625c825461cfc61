/** The two downloads (src/App.js, downloadTranscription and
    downloadAllTranscriptions): the name under which one transcription is
    saved, and the text of the bulk download. */
module Export {
  import opened Text
  import opened Formats
  import opened Queue
  import Seqs

  // ------------------------------------------------------ file name stem

  /** The regular expression `/\.[^/.]+$/` matches at `j`: a dot, followed by
      at least one character, none of which is a dot or a slash, up to the end
      of the name. */
  ghost predicate ExtensionAt(s: string, j: int)
  {
    0 <= j < |s| - 1 && s[j] == '.' &&
    forall k :: j < k < |s| ==> s[k] != '.' && s[k] != '/'
  }

  /** Looks for the match among the first `n` characters, knowing that the
      characters from `n` on are neither dots nor slashes: walking back, a
      slash ends the search, and the first dot met is the match unless it is
      the last character. */
  function ExtensionScan(s: string, n: nat): (r: Option<nat>)
    requires n <= |s|
    ensures r.Some? ==> r.value < n
  {
    if n == 0 then None
    else if s[n - 1] == '/' then None
    else if s[n - 1] == '.' then (if n < |s| then Some(n - 1) else None)
    else ExtensionScan(s, n - 1)
  }

  /** Where the extension of a file name begins, if it has one. */
  function ExtensionStart(s: string): Option<nat>
  {
    ExtensionScan(s, |s|)
  }

  /** The scan from position `n` finds exactly the match, given that nothing
      after `n` rules it out. */
  lemma {:induction false} ExtensionScanSpec(s: string, n: nat)
    requires n <= |s|
    requires forall k :: n <= k < |s| ==> s[k] != '.' && s[k] != '/'
    ensures forall j :: 0 <= j < n ==> (ExtensionScan(s, n) == Some(j) <==> ExtensionAt(s, j))
    ensures ExtensionScan(s, n) == None ==> forall j :: 0 <= j < n ==> !ExtensionAt(s, j)
  {
    if n == 0 {
    } else if s[n - 1] == '/' {
      forall j | 0 <= j < n ensures !ExtensionAt(s, j) {
        if j < n - 1 {
          assert s[n - 1] == '/';
        } else {
          assert s[j] != '.';
        }
      }
    } else if s[n - 1] == '.' {
      forall j | 0 <= j < n - 1 ensures !ExtensionAt(s, j) {
        assert s[n - 1] == '.';
      }
    } else {
      ExtensionScanSpec(s, n - 1);
    }
  }

  /** The scan agrees with the regular expression: it returns `j` exactly when
      the pattern matches at `j`, and nothing exactly when the pattern does not
      match anywhere. */
  lemma ExtensionStartSpec(s: string)
    ensures forall j :: ExtensionStart(s) == Some(j) <==> ExtensionAt(s, j)
    ensures ExtensionStart(s) == None <==> forall j :: !ExtensionAt(s, j)
  {
    ExtensionScanSpec(s, |s|);
  }

  /** The pattern matches in at most one place, so replacing its first
      match is replacing its only one. */
  lemma ExtensionUnique(s: string, i: int, j: int)
    requires ExtensionAt(s, i) && ExtensionAt(s, j)
    ensures i == j
  {
  }

  /** The file name with the match of `/\.[^/.]+$/` removed, if there is one. */
  function Stem(s: string): string
  {
    match ExtensionStart(s)
    case None => s
    case Some(j) => s[..j]
  }

  /** The name downloadTranscription saves a transcription under. */
  function DownloadName(fileName: string): string
  {
    Stem(fileName) + "_transcription.txt"
  }

  /** The fixed name of the bulk download. */
  const BulkDownloadName: string := "all_transcriptions.txt"

  /** A file the browser is asked to save: its name and its text. */
  datatype Download = Download(name: string, text: string)

  /** downloadTranscription: the transcription, saved under the file's stem. */
  function TranscriptionDownload(fileName: string, transcription: string): Download
  {
    Download(DownloadName(fileName), transcription)
  }

  /** The stem is the name cut before the matched extension, or the whole
      name when the pattern does not match; the download name is the stem
      followed by the suffix. */
  lemma StemSpec(s: string)
    ensures forall j :: ExtensionAt(s, j) ==> Stem(s) == s[..j]
    ensures (forall j :: !ExtensionAt(s, j)) ==> Stem(s) == s
    ensures Stem(s) <= s
    ensures DownloadName(s) == Stem(s) + "_transcription.txt"
  {
    ExtensionStartSpec(s);
  }

  /** Every accepted extension is a dot followed by letters and digits only. */
  lemma FormatShape(format: string)
    requires format in AcceptedFormats
    ensures |format| >= 2 && format[0] == '.'
    ensures forall k :: 0 < k < |format| ==> format[k] != '.' && format[k] != '/'
  {
  }

  /** For a file the filters admit, the download name drops exactly its audio
      extension, whatever its case. */
  lemma {:induction false} StemOfAccepted(name: string, format: string)
    requires format in AcceptedFormats && EndsWith(ToLower(name), format)
    ensures Stem(name) == name[..|name| - |format|]
    ensures DownloadName(name) == name[..|name| - |format|] + "_transcription.txt"
    ensures forall text :: TranscriptionDownload(name, text).name == name[..|name| - |format|] + "_transcription.txt"
  {
    FormatShape(format);
    var lower := ToLower(name);
    var j := |name| - |format|;
    assert lower[j..] == format;
    forall k | j <= k < |name|
      ensures (name[k] == '.') == (format[k - j] == '.')
      ensures (name[k] == '/') == (format[k - j] == '/')
    {
      assert lower[k] == format[k - j];
    }
    assert ExtensionAt(name, j);
    StemSpec(name);
  }

  /** Names with an extension lose it, and only the last one. */
  lemma StemStripsExamples()
    ensures Stem("clip.mp4") == "clip"
    ensures Stem("a.tar.gz") == "a.tar"
    ensures Stem(".bashrc") == ""
  {
    assert ExtensionAt("clip.mp4", 4);
    assert ExtensionAt("a.tar.gz", 5);
    assert ExtensionAt(".bashrc", 0);
    ExtensionStartSpec("clip.mp4");
    ExtensionStartSpec("a.tar.gz");
    ExtensionStartSpec(".bashrc");
  }

  /** Names without a match keep their whole name: no dot at all, a dot as
      the last character, or a dot that belongs to a directory part. */
  lemma StemKeepsExamples()
    ensures Stem("take") == "take"
    ensures Stem("take.") == "take."
    ensures Stem("v.1/take") == "v.1/take"
  {
    ExtensionStartSpec("take");
    assert forall j :: !ExtensionAt("take", j);
    assert ExtensionStart("take.") == None;
    ExtensionStartSpec("v.1/take");
    assert !ExtensionAt("v.1/take", 1) by {
      assert "v.1/take"[3] == '/';
    }
  }

  lemma DownloadNameExample()
    ensures DownloadName("clip.mp4") == "clip_transcription.txt"
  {
    StemStripsExamples();
  }

  // ------------------------------------------------------- bulk download

  /** The block of a transcript: a header line with the file name, the
      text, and a blank line. */
  function Block(t: Transcript): string
  {
    "=== " + t.fileName + " ===\n" + t.text + "\n\n"
  }

  /** One record's block of the bulk download. */
  function Section(r: ResultEntry): string
  {
    Block(Summary(r))
  }

  /** Array.prototype.join('') over strings. */
  function Join(parts: seq<string>): string
  {
    if parts == [] then "" else parts[0] + Join(parts[1..])
  }

  /** The text of the bulk download: every record's block, in list order. */
  function ExportAll(rs: seq<ResultEntry>): string
  {
    Join(Seqs.Map(rs, Section))
  }

  /** downloadAllTranscriptions: every record's block, under the fixed name. */
  function BulkDownload(rs: seq<ResultEntry>): Download
  {
    Download(BulkDownloadName, ExportAll(rs))
  }

  lemma {:induction false} JoinConcat(a: seq<string>, b: seq<string>)
    ensures Join(a + b) == Join(a) + Join(b)
  {
    if a == [] {
      assert a + b == b;
    } else {
      assert (a + b)[1..] == a[1..] + b;
      JoinConcat(a[1..], b);
    }
  }

  /** The block of record i sits in the bulk text right after the blocks of
      the records before it: each transcript can be read back from the
      download at a position fixed by the records before it. */
  lemma SectionAt(rs: seq<ResultEntry>, i: nat)
    requires i < |rs|
    ensures |ExportAll(rs[..i])| + |Section(rs[i])| <= |ExportAll(rs)|
    ensures ExportAll(rs)[|ExportAll(rs[..i])|..|ExportAll(rs[..i])| + |Section(rs[i])|] == Section(rs[i])
    ensures var start := |ExportAll(rs[..i])| + |"=== " + rs[i].fileName + " ===\n"|;
      ExportAll(rs)[start..start + |rs[i].transcription|] == rs[i].transcription
  {
    var before, here, after := ExportAll(rs[..i]), Section(rs[i]), ExportAll(rs[i + 1..]);
    assert rs == rs[..i] + ([rs[i]] + rs[i + 1..]);
    ExportAllConcat(rs[..i], [rs[i]] + rs[i + 1..]);
    ExportAllConcat([rs[i]], rs[i + 1..]);
    assert ExportAll(rs) == before + (here + after);
    assert ExportAll(rs)[|before|..|before| + |here|] == here;
  }

  /** The bulk download of two lists is the download of the first followed
      by that of the second; of nothing it is empty; of one record it is
      that record's block. */
  lemma ExportAllConcat(a: seq<ResultEntry>, b: seq<ResultEntry>)
    ensures ExportAll(a + b) == ExportAll(a) + ExportAll(b)
    ensures ExportAll([]) == ""
    ensures forall r :: ExportAll([r]) == Section(r)
  {
    Seqs.MapConcat(a, b, Section);
    JoinConcat(Seqs.Map(a, Section), Seqs.Map(b, Section));
  }

  lemma ExportAllExample()
    ensures ExportAll([ResultEntry("1", "a", "hi", "t1"), ResultEntry("2", "b", "yo", "t2")])
      == "=== a ===\nhi\n\n=== b ===\nyo\n\n"
  {
    var a, b := ResultEntry("1", "a", "hi", "t1"), ResultEntry("2", "b", "yo", "t2");
    assert ExportAll([a, b]) == Section(a) + Section(b) by {
      assert [a, b] == [a] + [b];
      ExportAllConcat([a], [b]);
    }
  }

  /** In a session that keeps its invariant, the bulk download, saved as
      `all_transcriptions.txt`, holds the block of every completed file, in
      queue order, and nothing else. */
  lemma ExportOfSession(files: seq<FileEntry>, results: seq<ResultEntry>)
    requires SessionInvariant(files, results)
    ensures ExportAll(results) == Join(Seqs.Map(CompletedTranscripts(files), Block))
    ensures BulkDownload(results) == Download("all_transcriptions.txt", Join(Seqs.Map(CompletedTranscripts(files), Block)))
  {
    var sections := Seqs.Map(results, Section);
    var blocks := Seqs.Map(Listing(results), Block);
    assert sections == blocks by {
      forall i | 0 <= i < |results| ensures sections[i] == blocks[i] {
        assert Listing(results)[i] == Summary(results[i]);
      }
    }
  }
}
