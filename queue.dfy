/** The file queue and the result list of a transcription session as values:
    queue entries and their status lifecycle, the specification of one batch
    run (src/App.js, processFiles), and the invariant that ties the result
    list to the completed entries. */
module Queue {
  import opened Text
  import opened Formats
  import Seqs

  type Id = string

  datatype Option<T> = None | Some(value: T)

  datatype Status = Pending | Processing | Completed | Error

  /** One queued file: `{id, file, status, progress, transcription, error}`. */
  datatype FileEntry = FileEntry(
    id: Id,
    file: AudioFile,
    status: Status,
    progress: nat,
    transcription: Option<string>,
    error: Option<string>)

  /** One record of the result list; the timestamp is an opaque clock reading. */
  datatype ResultEntry = ResultEntry(id: Id, fileName: string, transcription: string, timestamp: string)

  /** What one call to the transcription endpoint comes back with: the
      response body and the time the result was recorded, or the message of
      the error it raised. */
  datatype Reply = Transcribed(body: string, completedAt: string) | Failed(message: string)

  /** The three in-place updates processFiles applies to an entry. */
  datatype Transition = Start | Complete(text: string) | Fail(message: string)

  function Apply(e: FileEntry, t: Transition): FileEntry
  {
    match t
    case Start => e.(status := Processing, progress := 10)
    case Complete(text) => e.(status := Completed, progress := 100, transcription := Some(text))
    case Fail(message) => e.(status := Error, error := Some(message))
  }

  /** The update a reply calls for once the request has resolved:
      transcribeAudio hands back the trimmed body, or throws. */
  function FinishOf(reply: Reply): Transition
  {
    match reply
    case Transcribed(body, _) => Complete(Trim(body))
    case Failed(message) => Fail(message)
  }

  /** An entry from before its request was sent to after its reply arrived. */
  function Outcome(e: FileEntry, reply: Reply): FileEntry
  {
    Apply(Apply(e, Start), FinishOf(reply))
  }

  // ---------------------------------------------------------------- ids

  function IdOf(e: FileEntry): Id { e.id }

  function Ids(es: seq<FileEntry>): seq<Id>
  {
    Seqs.Map(es, IdOf)
  }

  predicate Distinct(ids: seq<Id>)
  {
    forall i, j :: 0 <= i < j < |ids| ==> ids[i] != ids[j]
  }

  predicate UniqueIds(es: seq<FileEntry>)
  {
    Distinct(Ids(es))
  }

  lemma IdIn(es: seq<FileEntry>, e: FileEntry)
    requires e in es
    ensures e.id in Ids(es)
  {
    Seqs.MapContains(es, IdOf, e);
  }

  lemma IdsCons(es: seq<FileEntry>)
    requires es != []
    ensures Ids(es) == [es[0].id] + Ids(es[1..])
  {
  }

  /** In a queue with unique ids the first entry's id occurs nowhere else. */
  lemma UniqueHead(es: seq<FileEntry>)
    requires es != [] && UniqueIds(es)
    ensures UniqueIds(es[1..])
    ensures forall e :: e in es[1..] ==> e.id != es[0].id
  {
    IdsCons(es);
    forall e | e in es[1..] ensures e.id != es[0].id {
      var j :| 0 <= j < |es[1..]| && es[1..][j] == e;
      assert Ids(es)[j + 1] == e.id;
    }
  }

  /** Two entries of a queue with unique ids that share an id are the same entry. */
  lemma SameIdSameEntry(es: seq<FileEntry>, a: FileEntry, b: FileEntry)
    requires UniqueIds(es) && a in es && b in es && a.id == b.id
    ensures a == b
  {
    var i :| 0 <= i < |es| && es[i] == a;
    var j :| 0 <= j < |es| && es[j] == b;
    assert Ids(es)[i] == a.id && Ids(es)[j] == b.id;
  }

  /** Dropping entries keeps the remaining ids unique. */
  lemma {:induction false} UniqueFilter(es: seq<FileEntry>, p: FileEntry -> bool)
    requires UniqueIds(es)
    ensures UniqueIds(Seqs.Filter(es, p))
  {
    if es != [] {
      UniqueHead(es);
      UniqueFilter(es[1..], p);
      var rest := Seqs.Filter(es[1..], p);
      if p(es[0]) {
        assert Seqs.Filter(es, p) == [es[0]] + rest;
        IdsCons([es[0]] + rest);
        assert ([es[0]] + rest)[1..] == rest;
        forall j | 0 <= j < |rest| ensures Ids(rest)[j] != es[0].id {
          assert rest[j] in rest;
        }
      }
    }
  }

  // ---------------------------------------------------------------- admission

  /** addFiles: one pending entry per file, with its id from the supply. */
  function NewEntries(files: seq<AudioFile>, ids: seq<Id>): (r: seq<FileEntry>)
    requires |ids| == |files|
  {
    seq(|files|, i requires 0 <= i < |files| => FileEntry(ids[i], files[i], Pending, 0, None, None))
  }

  /** Ids the caller may hand to addFiles: pairwise distinct and not in use. */
  predicate FreshIds(es: seq<FileEntry>, ids: seq<Id>)
  {
    Distinct(ids) && forall id :: id in ids ==> id !in Ids(es)
  }

  // ---------------------------------------------------------------- removal

  function IdIsNot(id: Id): FileEntry -> bool
  {
    (e: FileEntry) => e.id != id
  }

  function ResultIdIsNot(id: Id): ResultEntry -> bool
  {
    (r: ResultEntry) => r.id != id
  }

  /** removeFile on the queue: the entries whose id differs from `id`, in order. */
  function WithoutId(es: seq<FileEntry>, id: Id): seq<FileEntry>
  {
    Seqs.Filter(es, IdIsNot(id))
  }

  /** removeFile on the results: the records whose id differs from `id`, in order. */
  function WithoutResult(rs: seq<ResultEntry>, id: Id): seq<ResultEntry>
  {
    Seqs.Filter(rs, ResultIdIsNot(id))
  }

  /** Removal deletes every entry carrying the id and keeps all others in
      their order; a second removal, or removing an id that is absent,
      changes nothing. */
  lemma RemoveFileSpec(es: seq<FileEntry>, more: seq<FileEntry>, id: Id)
    ensures id !in Ids(WithoutId(es, id))
    ensures forall e :: e in WithoutId(es, id) <==> e in es && e.id != id
    ensures WithoutId(es + more, id) == WithoutId(es, id) + WithoutId(more, id)
    ensures WithoutId(WithoutId(es, id), id) == WithoutId(es, id)
    ensures id !in Ids(es) ==> WithoutId(es, id) == es
  {
    var w := WithoutId(es, id);
    if id in Ids(w) {
      var j :| 0 <= j < |w| && Ids(w)[j] == id;
      assert w[j] in w;
    }
    Seqs.FilterConcat(es, more, IdIsNot(id));
    Seqs.FilterIdempotent(es, IdIsNot(id));
    if id !in Ids(es) {
      forall e | e in es ensures IdIsNot(id)(e) { IdIn(es, e); }
      Seqs.FilterKeepsAll(es, IdIsNot(id));
    }
  }

  /** The same for the result list. */
  lemma RemoveResultSpec(rs: seq<ResultEntry>, more: seq<ResultEntry>, id: Id)
    ensures forall r :: r in WithoutResult(rs, id) <==> r in rs && r.id != id
    ensures WithoutResult(rs + more, id) == WithoutResult(rs, id) + WithoutResult(more, id)
    ensures WithoutResult(WithoutResult(rs, id), id) == WithoutResult(rs, id)
    ensures (forall r :: r in rs ==> r.id != id) ==> WithoutResult(rs, id) == rs
  {
    Seqs.FilterConcat(rs, more, ResultIdIsNot(id));
    Seqs.FilterIdempotent(rs, ResultIdIsNot(id));
    if forall r :: r in rs ==> r.id != id {
      Seqs.FilterKeepsAll(rs, ResultIdIsNot(id));
    }
  }

  /** Removing a file just added under a fresh id gives back the queue as it was. */
  lemma AddThenRemove(es: seq<FileEntry>, f: AudioFile, id: Id)
    requires id !in Ids(es)
    ensures WithoutId(es + NewEntries([f], [id]), id) == es
  {
    RemoveFileSpec(es, NewEntries([f], [id]), id);
    Seqs.FilterDropsAll(NewEntries([f], [id]), IdIsNot(id));
  }

  // ---------------------------------------------------------------- status updates

  function Retag(id: Id, t: Transition): FileEntry -> FileEntry
  {
    (e: FileEntry) => if e.id == id then Apply(e, t) else e
  }

  /** One of processFiles' status updates: every entry with the given id
      receives the transition, every other entry is copied as it is. */
  function UpdateById(es: seq<FileEntry>, id: Id, t: Transition): seq<FileEntry>
  {
    Seqs.Map(es, Retag(id, t))
  }

  /** An update by id keeps the length and the ids, applies the transition
      to the entries with that id and leaves every other entry as it was. */
  lemma UpdateByIdSpec(es: seq<FileEntry>, id: Id, t: Transition)
    ensures |UpdateById(es, id, t)| == |es| && Ids(UpdateById(es, id, t)) == Ids(es)
    ensures forall i :: 0 <= i < |es| && es[i].id != id ==> UpdateById(es, id, t)[i] == es[i]
    ensures forall i :: 0 <= i < |es| && es[i].id == id ==> UpdateById(es, id, t)[i] == Apply(es[i], t)
  {
    var r := UpdateById(es, id, t);
    forall i | 0 <= i < |es| ensures Ids(r)[i] == Ids(es)[i] {
      assert r[i] == Retag(id, t)(es[i]);
    }
  }

  /** An update addressed to an id the queue does not hold changes nothing. */
  lemma UpdateAbsent(es: seq<FileEntry>, id: Id, t: Transition)
    requires id !in Ids(es)
    ensures UpdateById(es, id, t) == es
  {
    UpdateByIdSpec(es, id, t);
    forall i | 0 <= i < |es| ensures es[i].id != id {
      assert Ids(es)[i] == es[i].id;
    }
  }

  // ---------------------------------------------------------------- one batch run

  predicate IsPending(e: FileEntry) { e.status == Pending }

  predicate IsSettled(e: FileEntry) { e.status != Pending }

  /** The snapshot a run works through: the pending entries, in queue order. */
  function PendingOf(es: seq<FileEntry>): seq<FileEntry>
  {
    Seqs.Filter(es, IsPending)
  }

  /** The queue after the first `k` pending entries, in queue order, have each
      been sent and have each received the next reply. */
  function SettleFirst(es: seq<FileEntry>, replies: seq<Reply>, k: nat): seq<FileEntry>
    requires k <= |replies|
    decreases |es|
  {
    if es == [] || k == 0 then es
    else if es[0].status == Pending then [Outcome(es[0], replies[0])] + SettleFirst(es[1..], replies[1..], k - 1)
    else [es[0]] + SettleFirst(es[1..], replies, k)
  }

  /** The queue after a whole run. */
  function RunQueue(es: seq<FileEntry>, replies: seq<Reply>): seq<FileEntry>
    requires |PendingOf(es)| <= |replies|
  {
    SettleFirst(es, replies, |PendingOf(es)|)
  }

  /** The result record a reply adds: one on success, none on failure. */
  function ResultOf(e: FileEntry, reply: Reply): seq<ResultEntry>
  {
    match reply
    case Transcribed(body, at) => [ResultEntry(e.id, e.file.name, Trim(body), at)]
    case Failed(_) => []
  }

  /** The records a run appends to the result list, in processing order. */
  function Harvest(ps: seq<FileEntry>, replies: seq<Reply>): seq<ResultEntry>
    requires |ps| <= |replies|
  {
    if ps == [] then [] else ResultOf(ps[0], replies[0]) + Harvest(ps[1..], replies[1..])
  }

  lemma {:induction false} HarvestSnoc(ps: seq<FileEntry>, p: FileEntry, replies: seq<Reply>)
    requires |ps| < |replies|
    ensures Harvest(ps + [p], replies) == Harvest(ps, replies) + ResultOf(p, replies[|ps|])
  {
    if ps != [] {
      var head, last := ResultOf(ps[0], replies[0]), ResultOf(p, replies[|ps|]);
      assert (ps + [p])[0] == ps[0] && (ps + [p])[1..] == ps[1..] + [p];
      assert replies[1..][|ps[1..]|] == replies[|ps|];
      calc {
        Harvest(ps + [p], replies);
        head + Harvest(ps[1..] + [p], replies[1..]);
        { HarvestSnoc(ps[1..], p, replies[1..]); }
        head + (Harvest(ps[1..], replies[1..]) + last);
        (head + Harvest(ps[1..], replies[1..])) + last;
        Harvest(ps, replies) + last;
      }
    } else {
      assert [] + [p] == [p];
    }
  }

  /** The records of the first i + 1 snapshot entries extend those of the first i. */
  lemma {:induction false} HarvestStep(ps: seq<FileEntry>, i: nat, replies: seq<Reply>)
    requires i < |ps| <= |replies|
    ensures Harvest(ps[..i + 1], replies) == Harvest(ps[..i], replies) + ResultOf(ps[i], replies[i])
  {
    assert ps[..i + 1] == ps[..i] + [ps[i]];
    HarvestSnoc(ps[..i], ps[i], replies);
  }

  /** One iteration of the run: settling the next pending entry of the
      snapshot extends both the queue's and the result list's description by
      one step. */
  lemma {:induction false} RunStep(es: seq<FileEntry>, results: seq<ResultEntry>, replies: seq<Reply>, i: nat)
    requires UniqueIds(es) && i < |PendingOf(es)| <= |replies|
    ensures UpdateById(UpdateById(SettleFirst(es, replies, i), PendingOf(es)[i].id, Start),
                       PendingOf(es)[i].id, FinishOf(replies[i]))
      == SettleFirst(es, replies, i + 1)
    ensures results + Harvest(PendingOf(es)[..i], replies) + ResultOf(PendingOf(es)[i], replies[i])
      == results + Harvest(PendingOf(es)[..i + 1], replies)
  {
    SettleStep(es, replies, i);
    HarvestStep(PendingOf(es), i, replies);
  }

  /** An update by id passes over a head entry with another id. */
  lemma UpdateSkipsHead(h: FileEntry, tail: seq<FileEntry>, id: Id, t: Transition)
    requires h.id != id
    ensures UpdateById([h] + tail, id, t) == [h] + UpdateById(tail, id, t)
  {
    var l := [h] + tail;
    assert l[1..] == tail;
  }

  /** Both updates of one iteration addressed to the head entry, whose id
      the tail does not hold, settle the head and nothing else. */
  lemma SettleHead(h: FileEntry, tail: seq<FileEntry>, reply: Reply)
    requires h.id !in Ids(tail)
    ensures UpdateById(UpdateById([h] + tail, h.id, Start), h.id, FinishOf(reply))
      == [Outcome(h, reply)] + tail
  {
    var l := [h] + tail;
    assert l[1..] == tail;
    UpdateAbsent(tail, h.id, Start);
    UpdateAbsent(tail, h.id, FinishOf(reply));
    var u := UpdateById(l, h.id, Start);
    assert u == [Apply(h, Start)] + tail;
    assert u[1..] == tail;
  }

  /** One iteration of the run: marking the k-th pending entry as processing
      and then applying its reply, each by id, settles exactly that entry. */
  lemma {:induction false} SettleStep(es: seq<FileEntry>, replies: seq<Reply>, k: nat)
    requires UniqueIds(es) && k < |PendingOf(es)| && k < |replies|
    decreases |es|, 1
    ensures UpdateById(UpdateById(SettleFirst(es, replies, k), PendingOf(es)[k].id, Start),
                       PendingOf(es)[k].id, FinishOf(replies[k]))
      == SettleFirst(es, replies, k + 1)
  {
    UniqueHead(es);
    assert es == [es[0]] + es[1..];
    if es[0].status == Pending {
      assert PendingOf(es) == [es[0]] + PendingOf(es[1..]);
      if k == 0 {
        IdsCons(es);
        SettleHead(es[0], es[1..], replies[0]);
      } else {
        SettleStepPendingHead(es, replies, k);
      }
    } else {
      SettleStepSettledHead(es, replies, k);
    }
  }

  /** Both updates of one iteration pass over a head entry with another id. */
  lemma UpdateTwiceSkipsHead(h: FileEntry, tail: seq<FileEntry>, id: Id, t: Transition)
    requires h.id != id
    ensures UpdateById(UpdateById([h] + tail, id, Start), id, t)
      == [h] + UpdateById(UpdateById(tail, id, Start), id, t)
  {
    UpdateSkipsHead(h, tail, id, Start);
    UpdateSkipsHead(h, UpdateById(tail, id, Start), id, t);
  }

  /** The snapshot of a queue is its head, when pending, before the
      snapshot of the rest. */
  lemma PendingCons(es: seq<FileEntry>)
    requires es != []
    ensures PendingOf(es) == (if es[0].status == Pending then [es[0]] else []) + PendingOf(es[1..])
  {
    assert es == [es[0]] + es[1..];
  }

  /** With unique ids no pending entry of the tail shares the head's id. */
  lemma TailPendingId(es: seq<FileEntry>, j: nat)
    requires es != [] && UniqueIds(es) && j < |PendingOf(es[1..])|
    ensures PendingOf(es[1..])[j].id != es[0].id
  {
    UniqueHead(es);
    assert PendingOf(es[1..])[j] in es[1..];
  }

  lemma {:induction false} SettleStepPendingHead(es: seq<FileEntry>, replies: seq<Reply>, k: nat)
    requires UniqueIds(es) && 0 < k < |PendingOf(es)| && k < |replies|
    requires es[0].status == Pending
    decreases |es|, 0
    ensures UpdateById(UpdateById(SettleFirst(es, replies, k), PendingOf(es)[k].id, Start),
                       PendingOf(es)[k].id, FinishOf(replies[k]))
      == SettleFirst(es, replies, k + 1)
  {
    PendingCons(es);
    var id := PendingOf(es[1..])[k - 1].id;
    var t := FinishOf(replies[k]);
    var o := Outcome(es[0], replies[0]);
    var tail := SettleFirst(es[1..], replies[1..], k - 1);
    assert PendingOf(es)[k].id == id;
    assert o.id != id by {
      TailPendingId(es, k - 1);
    }
    assert UpdateById(UpdateById(tail, id, Start), id, t) == SettleFirst(es[1..], replies[1..], k) by {
      UniqueHead(es);
      assert replies[1..][k - 1] == replies[k];
      SettleStep(es[1..], replies[1..], k - 1);
    }
    calc {
      UpdateById(UpdateById(SettleFirst(es, replies, k), id, Start), id, t);
      { SettleFirstPendingHead(es, replies, k - 1); }
      UpdateById(UpdateById([o] + tail, id, Start), id, t);
      { UpdateTwiceSkipsHead(o, tail, id, t); }
      [o] + UpdateById(UpdateById(tail, id, Start), id, t);
      [o] + SettleFirst(es[1..], replies[1..], k);
      { SettleFirstPendingHead(es, replies, k); }
      SettleFirst(es, replies, k + 1);
    }
  }

  /** Settling k + 1 entries of a queue whose head is pending settles the
      head with the first reply and k entries of the rest with the others. */
  lemma SettleFirstPendingHead(es: seq<FileEntry>, replies: seq<Reply>, k: nat)
    requires es != [] && es[0].status == Pending && k < |replies|
    ensures SettleFirst(es, replies, k + 1)
      == [Outcome(es[0], replies[0])] + SettleFirst(es[1..], replies[1..], k)
  {
  }

  lemma {:induction false} SettleStepSettledHead(es: seq<FileEntry>, replies: seq<Reply>, k: nat)
    requires UniqueIds(es) && k < |PendingOf(es)| && k < |replies|
    requires es[0].status != Pending
    decreases |es|, 0
    ensures UpdateById(UpdateById(SettleFirst(es, replies, k), PendingOf(es)[k].id, Start),
                       PendingOf(es)[k].id, FinishOf(replies[k]))
      == SettleFirst(es, replies, k + 1)
  {
    var id := PendingOf(es)[k].id;
    var t := FinishOf(replies[k]);
    UniqueHead(es);
    assert es == [es[0]] + es[1..];
    assert PendingOf(es) == PendingOf(es[1..]);
    assert PendingOf(es[1..])[k] in es[1..];
    var rest := SettleFirst(es[1..], replies, k);
    SettleStep(es[1..], replies, k);
    assert SettleFirst(es, replies, k) == [es[0]] + rest;
    UpdateSkipsHead(es[0], rest, id, Start);
    UpdateSkipsHead(es[0], UpdateById(rest, id, Start), id, t);
  }

  lemma {:induction false} SettleFirstLength(es: seq<FileEntry>, replies: seq<Reply>, k: nat)
    requires k <= |replies|
    ensures |SettleFirst(es, replies, k)| == |es|
  {
    if es != [] && k != 0 {
      if es[0].status == Pending {
        SettleFirstLength(es[1..], replies[1..], k - 1);
      } else {
        SettleFirstLength(es[1..], replies, k);
      }
    }
  }

  /** The pending entries before position i and from position i on. */
  lemma PendingSplit(es: seq<FileEntry>, i: nat)
    requires i < |es|
    ensures PendingOf(es) == PendingOf(es[..i]) + PendingOf([es[i]]) + PendingOf(es[i + 1..])
  {
    assert es == es[..i] + ([es[i]] + es[i + 1..]);
    Seqs.FilterConcat(es[..i], [es[i]] + es[i + 1..], IsPending);
    Seqs.FilterConcat([es[i]], es[i + 1..], IsPending);
  }

  /** Position by position: an entry is settled by the first k replies exactly
      when it is pending and fewer than k pending entries precede it; it then
      receives the reply whose index is the number of pending entries before it. */
  lemma {:induction false} SettleFirstAt(es: seq<FileEntry>, replies: seq<Reply>, k: nat, i: nat)
    requires k <= |replies| && i < |es|
    decreases |es|, 1
    ensures |SettleFirst(es, replies, k)| == |es|
    ensures var rank := |PendingOf(es[..i])|;
      SettleFirst(es, replies, k)[i] ==
        if es[i].status == Pending && rank < k then Outcome(es[i], replies[rank]) else es[i]
  {
    SettleFirstLength(es, replies, k);
    if k != 0 && i != 0 {
      if es[0].status == Pending {
        SettleFirstAtPendingHead(es, replies, k, i);
      } else {
        SettleFirstAtSettledHead(es, replies, k, i);
      }
    }
  }

  lemma {:induction false} SettleFirstAtPendingHead(es: seq<FileEntry>, replies: seq<Reply>, k: nat, i: nat)
    requires 0 < k <= |replies| && 0 < i < |es| && es[0].status == Pending
    decreases |es|, 0
    ensures |SettleFirst(es, replies, k)| == |es|
    ensures var rank := |PendingOf(es[..i])|;
      SettleFirst(es, replies, k)[i] ==
        if es[i].status == Pending && rank < k then Outcome(es[i], replies[rank]) else es[i]
  {
    var rank := |PendingOf(es[..i])|;
    var rest := |PendingOf(es[1..][..i - 1])|;
    RankCons(es, i);
    assert rank == rest + 1;
    var e := es[1..][i - 1];
    assert e == es[i];
    SettleFirstPendingHead(es, replies, k - 1);
    SettleFirstLength(es[1..], replies[1..], k - 1);
    assert SettleFirst(es, replies, k)[i] == SettleFirst(es[1..], replies[1..], k - 1)[i - 1];
    SettleFirstAt(es[1..], replies[1..], k - 1, i - 1);
    if rest < k - 1 {
      assert replies[1..][rest] == replies[rank];
    }
  }

  lemma {:induction false} SettleFirstAtSettledHead(es: seq<FileEntry>, replies: seq<Reply>, k: nat, i: nat)
    requires 0 < k <= |replies| && 0 < i < |es| && es[0].status != Pending
    decreases |es|, 0
    ensures |SettleFirst(es, replies, k)| == |es|
    ensures var rank := |PendingOf(es[..i])|;
      SettleFirst(es, replies, k)[i] ==
        if es[i].status == Pending && rank < k then Outcome(es[i], replies[rank]) else es[i]
  {
    RankCons(es, i);
    assert es[1..][i - 1] == es[i];
    SettleFirstSettledHead(es, replies, k);
    SettleFirstLength(es[1..], replies, k);
    assert SettleFirst(es, replies, k)[i] == SettleFirst(es[1..], replies, k)[i - 1];
    SettleFirstAt(es[1..], replies, k, i - 1);
  }

  /** Past a settled head, the first k pending entries all lie in the rest. */
  lemma SettleFirstSettledHead(es: seq<FileEntry>, replies: seq<Reply>, k: nat)
    requires es != [] && es[0].status != Pending && k <= |replies|
    ensures SettleFirst(es, replies, k) == [es[0]] + SettleFirst(es[1..], replies, k)
  {
  }

  /** The number of pending entries before position i counts the head, when
      pending, and those of the rest before it. */
  lemma RankCons(es: seq<FileEntry>, i: nat)
    requires 0 < i <= |es|
    ensures |PendingOf(es[..i])|
      == (if es[0].status == Pending then 1 else 0) + |PendingOf(es[1..][..i - 1])|
  {
    assert es[..i] == [es[0]] + es[1..][..i - 1];
    Seqs.FilterConcat([es[0]], es[1..][..i - 1], IsPending);
  }

  /** What a run does to the entry at position i: a pending entry is the
      k-th entry of the snapshot, k being the number of pending entries before
      it, and ends completed with progress 100 and the trimmed text of the k-th
      reply, or in error with that reply's message; any other entry is left
      exactly as it was. Ids and files never change. */
  lemma RunQueueAt(es: seq<FileEntry>, replies: seq<Reply>, i: nat)
    requires |PendingOf(es)| <= |replies| && i < |es|
    ensures |RunQueue(es, replies)| == |es|
    ensures RunQueue(es, replies)[i].id == es[i].id && RunQueue(es, replies)[i].file == es[i].file
    ensures es[i].status != Pending ==> RunQueue(es, replies)[i] == es[i]
    ensures es[i].status == Pending ==>
      var k := |PendingOf(es[..i])|;
      var r := RunQueue(es, replies)[i];
      k < |PendingOf(es)| && PendingOf(es)[k] == es[i] &&
      match replies[k]
      case Transcribed(body, _) =>
        r.status == Completed && r.progress == 100 && r.transcription == Some(Trim(body)) && r.error == es[i].error
      case Failed(message) =>
        r.status == Error && r.progress == 10 && r.error == Some(message) && r.transcription == es[i].transcription
  {
    SettleFirstAt(es, replies, |PendingOf(es)|, i);
    PendingSplit(es, i);
  }

  /** No entry is pending after a run. */
  lemma RunLeavesNothingPending(es: seq<FileEntry>, replies: seq<Reply>)
    requires |PendingOf(es)| <= |replies|
    ensures forall e :: e in RunQueue(es, replies) ==> e.status != Pending
    ensures PendingOf(RunQueue(es, replies)) == []
  {
    var r := RunQueue(es, replies);
    SettleFirstLength(es, replies, |PendingOf(es)|);
    forall e | e in r ensures e.status != Pending {
      var i :| 0 <= i < |r| && r[i] == e;
      RunQueueAt(es, replies, i);
    }
    Seqs.FilterDropsAll(r, IsPending);
  }

  /** A second run, whatever its replies, changes nothing and records nothing. */
  lemma RerunIsNoOp(es: seq<FileEntry>, replies: seq<Reply>, later: seq<Reply>)
    requires |PendingOf(es)| <= |replies|
    ensures |PendingOf(RunQueue(es, replies))| == 0
    ensures RunQueue(RunQueue(es, replies), later) == RunQueue(es, replies)
    ensures Harvest(PendingOf(RunQueue(es, replies)), later) == []
  {
    RunLeavesNothingPending(es, replies);
  }

  /** The number of successful replies among `replies`. */
  function Successes(replies: seq<Reply>): nat
  {
    if replies == [] then 0
    else (if replies[0].Transcribed? then 1 else 0) + Successes(replies[1..])
  }

  /** A run records exactly one result per successful reply. */
  lemma {:induction false} HarvestCount(ps: seq<FileEntry>, replies: seq<Reply>)
    requires |ps| <= |replies|
    ensures |Harvest(ps, replies)| == Successes(replies[..|ps|])
  {
    if ps != [] {
      var head := replies[..|ps|];
      assert Successes(head) == (if replies[0].Transcribed? then 1 else 0) + Successes(head[1..]);
      assert head[1..] == replies[1..][..|ps| - 1];
      HarvestCount(ps[1..], replies[1..]);
      assert |ResultOf(ps[0], replies[0])| == if replies[0].Transcribed? then 1 else 0;
    }
  }

  // ---------------------------------------------------------------- session invariant

  /** What the result list records about one transcript, without the time. */
  datatype Transcript = Transcript(id: Id, fileName: string, text: string)

  function Summary(r: ResultEntry): Transcript
  {
    Transcript(r.id, r.fileName, r.transcription)
  }

  function TranscriptOf(e: FileEntry): Transcript
  {
    Transcript(e.id, e.file.name, match e.transcription case Some(t) => t case None => "")
  }

  predicate IsCompleted(e: FileEntry) { e.status == Completed }

  function Listing(rs: seq<ResultEntry>): seq<Transcript>
  {
    Seqs.Map(rs, Summary)
  }

  /** The transcripts of the completed entries, in queue order. */
  function CompletedTranscripts(es: seq<FileEntry>): seq<Transcript>
  {
    Seqs.Map(Seqs.Filter(es, IsCompleted), TranscriptOf)
  }

  /** Status and the other fields agree: progress 0 while pending, 10 once
      sent (and still 10 after an error), 100 when completed; a transcription
      exactly when completed and an error message exactly on error. */
  predicate Consistent(e: FileEntry)
  {
    match e.status
    case Pending => e.progress == 0 && e.transcription == None && e.error == None
    case Processing => e.progress == 10 && e.transcription == None && e.error == None
    case Completed => e.progress == 100 && e.transcription.Some? && e.error == None
    case Error => e.progress == 10 && e.transcription == None && e.error.Some?
  }

  /** Every pending entry comes after every entry that is not pending. */
  predicate SettledThenPending(es: seq<FileEntry>)
  {
    es == Seqs.Filter(es, IsSettled) + PendingOf(es)
  }

  /** The state a session keeps between operations: unique ids, consistent
      entries, pending entries last, and one result per completed entry, in
      queue order, with that entry's file name and transcription. */
  predicate SessionInvariant(files: seq<FileEntry>, results: seq<ResultEntry>)
  {
    && UniqueIds(files)
    && (forall e :: e in files ==> Consistent(e))
    && SettledThenPending(files)
    && Listing(results) == CompletedTranscripts(files)
  }

  lemma CompletedConcat(a: seq<FileEntry>, b: seq<FileEntry>)
    ensures CompletedTranscripts(a + b) == CompletedTranscripts(a) + CompletedTranscripts(b)
  {
    Seqs.FilterConcat(a, b, IsCompleted);
    Seqs.MapConcat(Seqs.Filter(a, IsCompleted), Seqs.Filter(b, IsCompleted), TranscriptOf);
  }

  /** An empty queue with no results is a valid session. */
  lemma InitialInvariant()
    ensures SessionInvariant([], [])
  {
  }

  /** Admitting files under fresh ids keeps the invariant. */
  lemma InvariantAfterAdd(files: seq<FileEntry>, results: seq<ResultEntry>, newFiles: seq<AudioFile>, ids: seq<Id>)
    requires SessionInvariant(files, results)
    requires |ids| == |newFiles| && FreshIds(files, ids)
    ensures SessionInvariant(files + NewEntries(newFiles, ids), results)
  {
    UniqueAfterAdd(files, newFiles, ids);
    var added := NewEntries(newFiles, ids);
    var all := files + added;
    forall e | e in all ensures Consistent(e) {
      if e !in files {
        var i :| 0 <= i < |added| && added[i] == e;
      }
    }
    OrderAfterAdd(files, added);
    CompletedConcat(files, added);
    Seqs.FilterDropsAll(added, IsCompleted);
  }

  lemma UniqueAfterAdd(files: seq<FileEntry>, newFiles: seq<AudioFile>, ids: seq<Id>)
    requires UniqueIds(files)
    requires |ids| == |newFiles| && FreshIds(files, ids)
    ensures UniqueIds(files + NewEntries(newFiles, ids))
  {
    var added := NewEntries(newFiles, ids);
    var all := files + added;
    assert Ids(added) == ids;
    Seqs.MapConcat(files, added, IdOf);
    assert Ids(all) == Ids(files) + ids;
    forall i, j | 0 <= i < j < |Ids(all)| ensures Ids(all)[i] != Ids(all)[j] {
      if i < |files| && j >= |files| {
        assert Ids(files)[i] in Ids(files);
        assert ids[j - |files|] in ids;
      }
    }
  }

  lemma OrderAfterAdd(files: seq<FileEntry>, added: seq<FileEntry>)
    requires SettledThenPending(files)
    requires forall e :: e in added ==> e.status == Pending
    ensures SettledThenPending(files + added)
  {
    var settled := Seqs.Filter(files, IsSettled);
    var pending := PendingOf(files);
    calc {
      Seqs.Filter(files + added, IsSettled) + PendingOf(files + added);
      { Seqs.FilterConcat(files, added, IsSettled); Seqs.FilterConcat(files, added, IsPending); }
      (settled + Seqs.Filter(added, IsSettled)) + (pending + PendingOf(added));
      { Seqs.FilterDropsAll(added, IsSettled); Seqs.FilterKeepsAll(added, IsPending); }
      (settled + []) + (pending + added);
      { assert settled + [] == settled; }
      settled + (pending + added);
      (settled + pending) + added;
      files + added;
    }
  }

  /** Removing an id from both lists keeps the invariant. */
  lemma InvariantAfterRemove(files: seq<FileEntry>, results: seq<ResultEntry>, id: Id)
    requires SessionInvariant(files, results)
    ensures SessionInvariant(WithoutId(files, id), WithoutResult(results, id))
  {
    var keep := IdIsNot(id);
    var kept := WithoutId(files, id);
    UniqueFilter(files, keep);
    var settled := Seqs.Filter(files, IsSettled);
    var pending := PendingOf(files);
    calc {
      kept;
      Seqs.Filter(settled + pending, keep);
      { Seqs.FilterConcat(settled, pending, keep); }
      Seqs.Filter(settled, keep) + Seqs.Filter(pending, keep);
      { Seqs.FilterCommute(files, IsSettled, keep); Seqs.FilterCommute(files, IsPending, keep); }
      Seqs.Filter(kept, IsSettled) + PendingOf(kept);
    }
    var done := Seqs.Filter(files, IsCompleted);
    calc {
      Listing(WithoutResult(results, id));
      { Seqs.FilterMap(results, Summary, (t: Transcript) => t.id != id, ResultIdIsNot(id)); }
      Seqs.Filter(Listing(results), (t: Transcript) => t.id != id);
      Seqs.Filter(Seqs.Map(done, TranscriptOf), (t: Transcript) => t.id != id);
      { Seqs.FilterMap(done, TranscriptOf, (t: Transcript) => t.id != id, keep); }
      Seqs.Map(Seqs.Filter(done, keep), TranscriptOf);
      { Seqs.FilterCommute(files, IsCompleted, keep); }
      CompletedTranscripts(kept);
    }
  }

  /** Entries that are not pending are passed over by a run. */
  lemma {:induction false} SettleSkipsSettled(settled: seq<FileEntry>, rest: seq<FileEntry>, replies: seq<Reply>, k: nat)
    requires k <= |replies|
    requires forall e :: e in settled ==> e.status != Pending
    ensures SettleFirst(settled + rest, replies, k) == settled + SettleFirst(rest, replies, k)
  {
    if settled == [] {
      assert settled + rest == rest;
    } else if k != 0 {
      assert (settled + rest)[1..] == settled[1..] + rest;
      SettleSkipsSettled(settled[1..], rest, replies, k);
    }
  }

  /** On a snapshot of pending entries, the completed entries a run produces
      and the records it appends tell the same story, in the same order. */
  lemma {:induction false} HarvestMatches(ps: seq<FileEntry>, replies: seq<Reply>)
    requires |ps| <= |replies|
    requires forall e :: e in ps ==> e.status == Pending
    ensures CompletedTranscripts(SettleFirst(ps, replies, |ps|)) == Listing(Harvest(ps, replies))
  {
    if ps != [] {
      var o := Outcome(ps[0], replies[0]);
      var tail := SettleFirst(ps[1..], replies[1..], |ps| - 1);
      HarvestMatches(ps[1..], replies[1..]);
      CompletedConcat([o], tail);
      Seqs.MapConcat(ResultOf(ps[0], replies[0]), Harvest(ps[1..], replies[1..]), Summary);
      assert CompletedTranscripts([o]) == Listing(ResultOf(ps[0], replies[0]));
    }
  }

  /** A run keeps the invariant, with the records it harvests appended. */
  lemma InvariantAfterRun(files: seq<FileEntry>, results: seq<ResultEntry>, replies: seq<Reply>)
    requires SessionInvariant(files, results)
    requires |PendingOf(files)| <= |replies|
    ensures SessionInvariant(RunQueue(files, replies), results + Harvest(PendingOf(files), replies))
  {
    var after := RunQueue(files, replies);
    assert UniqueIds(after) by {
      IdsAfterRun(files, replies);
    }
    assert forall e :: e in after ==> Consistent(e) by {
      ConsistentAfterRun(files, replies);
    }
    assert SettledThenPending(after) by {
      RunLeavesNothingPending(files, replies);
      Seqs.FilterKeepsAll(after, IsSettled);
    }
    ResultsAfterRun(files, results, replies);
  }

  /** A run keeps every entry's id in place. */
  lemma IdsAfterRun(files: seq<FileEntry>, replies: seq<Reply>)
    requires |PendingOf(files)| <= |replies|
    ensures Ids(RunQueue(files, replies)) == Ids(files)
  {
    var after := RunQueue(files, replies);
    SettleFirstLength(files, replies, |PendingOf(files)|);
    forall i | 0 <= i < |files| ensures Ids(after)[i] == Ids(files)[i] {
      RunQueueAt(files, replies, i);
    }
  }

  /** A run leaves every entry consistent. */
  lemma ConsistentAfterRun(files: seq<FileEntry>, replies: seq<Reply>)
    requires forall e :: e in files ==> Consistent(e)
    requires |PendingOf(files)| <= |replies|
    ensures forall e :: e in RunQueue(files, replies) ==> Consistent(e)
  {
    var after := RunQueue(files, replies);
    SettleFirstLength(files, replies, |PendingOf(files)|);
    forall e | e in after ensures Consistent(e) {
      var i :| 0 <= i < |after| && after[i] == e;
      RunQueueAt(files, replies, i);
      assert files[i] in files;
    }
  }

  lemma ResultsAfterRun(files: seq<FileEntry>, results: seq<ResultEntry>, replies: seq<Reply>)
    requires SettledThenPending(files) && Listing(results) == CompletedTranscripts(files)
    requires |PendingOf(files)| <= |replies|
    ensures Listing(results + Harvest(PendingOf(files), replies)) == CompletedTranscripts(RunQueue(files, replies))
  {
    var settled := Seqs.Filter(files, IsSettled);
    var pending := PendingOf(files);
    var ran := SettleFirst(pending, replies, |pending|);
    var harvested := Harvest(pending, replies);
    SettleSkipsSettled(settled, pending, replies, |pending|);
    assert CompletedTranscripts(pending) == [] by {
      Seqs.FilterDropsAll(pending, IsCompleted);
    }
    calc {
      Listing(results + harvested);
      { Seqs.MapConcat(results, harvested, Summary); }
      Listing(results) + Listing(harvested);
      CompletedTranscripts(settled + pending) + Listing(harvested);
      { CompletedConcat(settled, pending); }
      CompletedTranscripts(settled) + CompletedTranscripts(pending) + Listing(harvested);
      CompletedTranscripts(settled) + Listing(harvested);
      { HarvestMatches(pending, replies); }
      CompletedTranscripts(settled) + CompletedTranscripts(ran);
      { CompletedConcat(settled, ran); }
      CompletedTranscripts(settled + ran);
    }
  }

  /** An entry is completed exactly when the result list holds a record with
      its id, and that record carries its file name and transcription. */
  lemma CompletedIffResult(files: seq<FileEntry>, results: seq<ResultEntry>, e: FileEntry)
    requires SessionInvariant(files, results) && e in files
    ensures e.status == Completed <==> exists r :: r in results && r.id == e.id
    ensures e.status == Completed ==>
      exists r :: r in results && r.id == e.id && r.fileName == e.file.name && e.transcription == Some(r.transcription)
  {
    var done := Seqs.Filter(files, IsCompleted);
    if e.status == Completed {
      Seqs.MapContains(done, TranscriptOf, e);
      var j :| 0 <= j < |results| && Listing(results)[j] == TranscriptOf(e);
      assert results[j] in results;
    }
    if r :| r in results && r.id == e.id {
      Seqs.MapContains(results, Summary, r);
      var j :| 0 <= j < |done| && CompletedTranscripts(files)[j] == Summary(r);
      assert done[j] in done;
      SameIdSameEntry(files, done[j], e);
    }
  }

  /** No two records of the result list share an id. */
  lemma ResultIdsUnique(files: seq<FileEntry>, results: seq<ResultEntry>)
    requires SessionInvariant(files, results)
    ensures forall i, j :: 0 <= i < j < |results| ==> results[i].id != results[j].id
  {
    var done := Seqs.Filter(files, IsCompleted);
    UniqueFilter(files, IsCompleted);
    forall i, j | 0 <= i < j < |results| ensures results[i].id != results[j].id {
      assert Listing(results)[i] == TranscriptOf(done[i]);
      assert Listing(results)[j] == TranscriptOf(done[j]);
      assert Ids(done)[i] != Ids(done)[j];
    }
  }
}
