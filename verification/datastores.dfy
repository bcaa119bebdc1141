/** `Datastores`: document loading, the committed snapshot and purge, over
    an abstract datastore given by its document list (`getDocMetaFiles`, as
    fingerprints) and its `getDocMeta` lookup (`None` for null). Every
    `await` is taken in order; the unawaited `delete` in `purge` is taken
    to happen at once. `DocMetas.deserialize` and `Percentages.calculate`
    are parameters. */
module Datastores {

  import opened Wrappers
  import opened MetadataTypes
  import opened SnapshotEvents
  import Listeners = DocMetaSnapshotEventListeners

  type Load = string -> Option<string>

  /** The stored data counts as missing when it is null or falsy (empty). */
  predicate Found(data: Option<string>) {
    data.Some? && data.value != ""
  }

  /** The listener calls of `getDocMetas` from the `i`-th ref on. */
  function DeliverFrom<D>(refs: seq<string>, load: Load, deserialize: string -> D): (r: (seq<D>, Option<string>))
    ensures r.1.None? <==> forall i :: 0 <= i < |refs| ==> Found(load(refs[i]))
    ensures r.1.None? ==> |r.0| == |refs| && forall i :: 0 <= i < |refs| ==> r.0[i] == deserialize(load(refs[i]).value)
    ensures r.1.Some? ==> |r.0| < |refs| && !Found(load(refs[|r.0|]))
    ensures r.1.Some? ==> forall i :: 0 <= i < |r.0| ==> Found(load(refs[i])) && r.0[i] == deserialize(load(refs[i]).value)
    decreases |refs|
  {
    if |refs| == 0 then ([], None)
    else
      var data := load(refs[0]);
      if !Found(data) then ([], Some("Could not find docMeta for fingerprint: " + refs[0]))
      else
        var rest := DeliverFrom(refs[1..], load, deserialize);
        ([deserialize(data.value)] + rest.0, rest.1)
  }

  /** `getDocMetas(datastore, listener, docMetaRefs)`: the documents passed
      to the listener, and the error thrown, if any. Without refs, every
      document of the datastore is loaded. */
  function GetDocMetas<D>(files: seq<string>, refs: Option<seq<string>>, load: Load, deserialize: string -> D): (r: (seq<D>, Option<string>))
    ensures refs.None? ==> r == DeliverFrom(files, load, deserialize)
    ensures refs.Some? ==> r == DeliverFrom(refs.value, load, deserialize)
  {
    DeliverFrom(refs.GetOr(files), load, deserialize)
  }

  /** The per-document events of `createCommittedSnapshot` for the documents
      `files`, of which `done` precede them out of `total`. */
  function PerDocument(files: seq<string>, load: Load, done: nat, total: nat, batch: Batch): (r: seq<SnapshotEvent<Option<string>>>)
    ensures |r| == |files|
    ensures forall i :: 0 <= i < |files| ==>
              r[i] == SnapshotEvent(Committed, Progress(done + i + 1, total), [DocMetaMutation(load(files[i]), Created)], Some(batch))
    decreases |files|
  {
    if |files| == 0 then []
    else
      [SnapshotEvent(Committed, Progress(done + 1, total), [DocMetaMutation(load(files[0]), Created)], Some(batch))]
        + PerDocument(files[1..], load, done + 1, total, batch)
  }

  /** `createCommittedSnapshot(datastore, listener, batch)`: the events sent
      to the listener, whose mutations carry the stored data the providers
      deserialize on demand. */
  function CreateCommittedSnapshot(files: seq<string>, load: Load, batch: Option<Batch>): (r: seq<SnapshotEvent<Option<string>>>)
    ensures |r| == |files| + 1
    ensures var b := batch.GetOr(Batch(0, false));
            forall i :: 0 <= i < |files| ==>
              r[i].consistency == Committed && r[i].batch == Some(b) &&
              r[i].mutations == [DocMetaMutation(load(files[i]), Created)]
    ensures var b := batch.GetOr(Batch(0, false));
            r[|files|] == SnapshotEvent(Committed, Progress(|files|, |files|), [], Some(Batch(b.id, true)))
  {
    var b := batch.GetOr(Batch(0, false));
    PerDocument(files, load, 0, |files|, b) + [SnapshotEvent(Committed, Progress(|files|, |files|), [], Some(Batch(b.id, true)))]
  }

  /** The snapshot's events report progress 1 … N of N, and only the last
      event is terminated. */
  lemma SnapshotProgress(files: seq<string>, load: Load, batch: Option<Batch>, i: nat)
    requires i < |files|
    ensures var r := CreateCommittedSnapshot(files, load, batch);
            r[i].progress == Progress(i + 1, |files|) &&
            r[i].batch.value.terminated == batch.GetOr(Batch(0, false)).terminated &&
            r[|files|].batch.value.terminated
  {
  }

  /** Fed to a fresh de-duplicating listener, a snapshot of documents with
      distinct fingerprints is forwarded one document per event, and the
      terminal event, having no mutations, is not forwarded at all. */
  lemma {:induction false} SnapshotThroughDeduplication(files: seq<string>, load: Load, done: nat, total: nat, batch: Batch,
                                                       infoOf: Option<string> -> DocInfo, index: Listeners.Index,
                                                       compare: Listeners.Compare)
    requires forall i :: 0 <= i < |files| ==> infoOf(load(files[i])).fingerprint !in index
    requires forall i, j :: 0 <= i < j < |files| ==> infoOf(load(files[i])).fingerprint != infoOf(load(files[j])).fingerprint
    ensures var events := seq(|files|, i requires 0 <= i < |files| =>
                                MapEvent(PerDocument(files, load, done, total, batch)[i], infoOf));
            var out := Listeners.Session(index, events, compare).1;
            |out| == |files| &&
            forall i :: 0 <= i < |files| ==>
              out[i] == SnapshotEvent(Committed, Progress(done + i + 1, total),
                                      [DocMetaMutation(infoOf(load(files[i])), Created)], None)
    decreases |files|
  {
    FedIsMapped(files, load, done, total, batch, infoOf);
    SessionOfFed(files, load, done, total, batch, infoOf, index, compare);
  }

  /** The per-document events as the listener receives them, each document
      already converted by `infoOf`. */
  function Fed(files: seq<string>, load: Load, done: nat, total: nat, batch: Batch,
               infoOf: Option<string> -> DocInfo): (r: seq<SnapshotEvent<DocInfo>>)
    ensures |r| == |files|
    ensures forall i :: 0 <= i < |files| ==>
              r[i] == SnapshotEvent(Committed, Progress(done + i + 1, total),
                                    [DocMetaMutation(infoOf(load(files[i])), Created)], Some(batch))
    decreases |files|
  {
    if |files| == 0 then []
    else
      [SnapshotEvent(Committed, Progress(done + 1, total), [DocMetaMutation(infoOf(load(files[0])), Created)], Some(batch))]
        + Fed(files[1..], load, done + 1, total, batch, infoOf)
  }

  lemma FedIsMapped(files: seq<string>, load: Load, done: nat, total: nat, batch: Batch, infoOf: Option<string> -> DocInfo)
    ensures Fed(files, load, done, total, batch, infoOf)
              == seq(|files|, i requires 0 <= i < |files| => MapEvent(PerDocument(files, load, done, total, batch)[i], infoOf))
  {
    var raw := PerDocument(files, load, done, total, batch);
    forall i | 0 <= i < |files|
      ensures MapEvent(raw[i], infoOf) == Fed(files, load, done, total, batch, infoOf)[i]
    {
      MapSingleMutation(raw[i], infoOf);
    }
  }

  lemma {:induction false} SessionOfFed(files: seq<string>, load: Load, done: nat, total: nat, batch: Batch,
                                        infoOf: Option<string> -> DocInfo, index: Listeners.Index,
                                        compare: Listeners.Compare)
    requires forall i :: 0 <= i < |files| ==> infoOf(load(files[i])).fingerprint !in index
    requires forall i, j :: 0 <= i < j < |files| ==> infoOf(load(files[i])).fingerprint != infoOf(load(files[j])).fingerprint
    ensures var out := Listeners.Session(index, Fed(files, load, done, total, batch, infoOf), compare).1;
            |out| == |files| &&
            forall i :: 0 <= i < |files| ==>
              out[i] == SnapshotEvent(Committed, Progress(done + i + 1, total),
                                      [DocMetaMutation(infoOf(load(files[i])), Created)], None)
    decreases |files|
  {
    if |files| > 0 {
      var events := Fed(files, load, done, total, batch, infoOf);
      var tail := Fed(files[1..], load, done + 1, total, batch, infoOf);
      assert events[1..] == tail;
      var info := infoOf(load(files[0]));
      var m := DocMetaMutation(info, Created);
      CreationForwarded(index, info, Progress(done + 1, total), Some(batch), compare);
      var next := index[info.fingerprint := info.uuid];
      SessionOfFed(files[1..], load, done + 1, total, batch, infoOf, next, compare);
      var rest := Listeners.Session(next, tail, compare).1;
      assert Listeners.Session(index, events, compare).1
          == [SnapshotEvent(Committed, Progress(done + 1, total), [m], None)] + rest;
    }
  }

  lemma MapSingleMutation<D, E>(e: SnapshotEvent<D>, f: D -> E)
    requires |e.mutations| == 1
    ensures MapEvent(e, f) == SnapshotEvent(e.consistency, e.progress,
                                            [DocMetaMutation(f(e.mutations[0].doc), e.mutations[0].mutationType)], e.batch)
  {
  }

  /** A creation of a document the listener has not seen is forwarded
      whole, without its batch, and recorded in the index. */
  lemma CreationForwarded(index: Listeners.Index, info: DocInfo, progress: Progress, batch: Option<Batch>,
                          compare: Listeners.Compare)
    requires info.fingerprint !in index
    ensures var m := DocMetaMutation(info, Created);
            Listeners.Listen(index, SnapshotEvent(Committed, progress, [m], batch), compare)
              == (index[info.fingerprint := info.uuid], Some(SnapshotEvent(Committed, progress, [m], None)))
  {
    var m := DocMetaMutation(info, Created);
    assert Listeners.Accepts(index, m, compare);
    assert Listeners.Filter(index, [m], compare) == (index[info.fingerprint := info.uuid], [m]) by {
      assert [m][1..] == [];
      assert [m] + [] == [m];
    }
  }

  /** The terminal event is never forwarded by the de-duplicating
      listener. */
  lemma TerminalNotForwarded(files: seq<string>, load: Load, batch: Option<Batch>, infoOf: Option<string> -> DocInfo,
                             index: Listeners.Index, compare: Listeners.Compare)
    ensures var last := MapEvent(CreateCommittedSnapshot(files, load, batch)[|files|], infoOf);
            Listeners.Listen(index, last, compare) == (index, None)
  {
  }

  /** `datastore.delete(...)`'s argument: the document's fingerprint and
      info, and the file named by `docInfo.filename` and `.hashcode`. */
  datatype FileRef = FileRef(name: Option<string>, hashcode: Option<string>)

  datatype DeleteRequest = DeleteRequest(fingerprint: string, docInfo: DocInfo, docFile: FileRef)

  datatype PurgeEvent = PurgeEvent(completed: nat, total: nat, progress: int)

  function DeleteOf(d: DocMeta): DeleteRequest {
    DeleteRequest(d.docInfo.fingerprint, d.docInfo, FileRef(d.docInfo.filename, d.docInfo.hashcode))
  }

  /** The loop of `purge` from the document after `completed` on: the
      deletions, the reports, and the error that stops it when a document's
      data is null (its `docInfo` cannot be read). */
  function PurgeFrom(files: seq<string>, load: Load, deserialize: string -> DocMeta, percent: (nat, nat) -> int,
                     completed: nat, total: nat): (r: (seq<DeleteRequest>, seq<PurgeEvent>, Option<string>))
    ensures |r.0| == |r.1| <= |files|
    ensures r.2.None? <==> forall i :: 0 <= i < |files| ==> load(files[i]).Some?
    ensures r.2.None? ==> |r.0| == |files|
    ensures r.2.Some? ==> |r.0| < |files| && load(files[|r.0|]).None?
    ensures forall i :: 0 <= i < |r.0| ==>
              load(files[i]).Some? && r.0[i] == DeleteOf(deserialize(load(files[i]).value)) &&
              r.1[i] == PurgeEvent(completed + i + 1, total, percent(completed + i + 1, total))
    decreases |files|
  {
    if |files| == 0 then ([], [], None)
    else
      match load(files[0])
      case None => ([], [], Some("Cannot read property 'docInfo' of null"))
      case Some(data) =>
        var rest := PurgeFrom(files[1..], load, deserialize, percent, completed + 1, total);
        ([DeleteOf(deserialize(data))] + rest.0,
         [PurgeEvent(completed + 1, total, percent(completed + 1, total))] + rest.1,
         rest.2)
  }

  /** `purge(datastore, purgeListener)`: one deletion per document, a report
      after each, and a single report of 100 when there is nothing to
      purge. */
  function Purge(files: seq<string>, load: Load, deserialize: string -> DocMeta, percent: (nat, nat) -> int):
    (r: (seq<DeleteRequest>, seq<PurgeEvent>, Option<string>))
    ensures |files| == 0 ==> r == ([], [PurgeEvent(0, 0, 100)], None)
    ensures |files| > 0 ==> r == PurgeFrom(files, load, deserialize, percent, 0, |files|)
  {
    var looped := PurgeFrom(files, load, deserialize, percent, 0, |files|);
    if looped.2.None? && |files| == 0 then
      assert looped.1 + [PurgeEvent(0, 0, 100)] == [PurgeEvent(0, 0, 100)];
      (looped.0, looped.1 + [PurgeEvent(0, 0, 100)], looped.2)
    else looped
  }

  /** A complete purge reports `completed` = 1 … N of N, deletes every
      document once, and emits exactly N reports (one when N is 0). */
  lemma PurgeReports(files: seq<string>, load: Load, deserialize: string -> DocMeta, percent: (nat, nat) -> int)
    requires forall i :: 0 <= i < |files| ==> load(files[i]).Some?
    ensures var (deletes, reports, error) := Purge(files, load, deserialize, percent);
            error.None? && |deletes| == |files| && |reports| == if |files| == 0 then 1 else |files|
    ensures var (deletes, reports, error) := Purge(files, load, deserialize, percent);
            forall i :: 0 <= i < |files| ==> reports[i].completed == i + 1 && reports[i].total == |files|
  {
  }
}
