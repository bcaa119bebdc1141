/** The snapshot events a datastore sends its listeners (`Datastore` is not
    part of this model; these are the fields the core reads and writes). A
    mutation carries what its providers yield: `D` is the document (or
    document info) they produce. */
module SnapshotEvents {

  import opened Wrappers

  datatype MutationType = Created | Updated | Deleted

  datatype Consistency = Committed | Written

  datatype Batch = Batch(id: int, terminated: bool)

  /** What `ProgressTracker` reports: `completed` of `total` steps. */
  datatype Progress = Progress(completed: nat, total: nat)

  datatype DocMetaMutation<D> = DocMetaMutation(doc: D, mutationType: MutationType)

  datatype SnapshotEvent<D> = SnapshotEvent(consistency: Consistency, progress: Progress,
                                            mutations: seq<DocMetaMutation<D>>, batch: Option<Batch>)

  /** The event with every mutation's document passed through `f`. */
  function MapEvent<D, E>(e: SnapshotEvent<D>, f: D -> E): (r: SnapshotEvent<E>)
    ensures r.consistency == e.consistency && r.progress == e.progress && r.batch == e.batch
    ensures |r.mutations| == |e.mutations|
    ensures forall i :: 0 <= i < |e.mutations| ==>
              r.mutations[i] == DocMetaMutation(f(e.mutations[i].doc), e.mutations[i].mutationType)
  {
    SnapshotEvent(e.consistency, e.progress,
                  seq(|e.mutations|, i requires 0 <= i < |e.mutations| =>
                        DocMetaMutation(f(e.mutations[i].doc), e.mutations[i].mutationType)),
                  e.batch)
  }
}
