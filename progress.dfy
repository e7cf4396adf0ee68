/** The per-item progress report shared by the download and the export loops. */
module Progress {
  import opened Wrappers

  /** `{ done, total, url, ok, error? }`. */
  datatype ProgressEvent = ProgressEvent(done: nat, total: nat, url: string, ok: bool, error: Option<string>)

  /**
   * The counter discipline: one event per item, in input order, the k-th
   * (from 1) carrying `done == k`, `total == |urls|` and that item's url,
   * and an error exactly when it is not ok.
   */
  predicate Counted(events: seq<ProgressEvent>, urls: seq<string>) {
    && |events| == |urls|
    && (forall k :: 0 <= k < |events| ==>
          events[k].done == k + 1 && events[k].total == |urls| && events[k].url == urls[k])
    && (forall k :: 0 <= k < |events| ==> (events[k].ok <==> events[k].error.None?))
  }

  /** `done` strictly increases and never exceeds `total`. */
  lemma CountedMonotone(events: seq<ProgressEvent>, urls: seq<string>, j: nat, k: nat)
    requires Counted(events, urls)
    requires j < k < |events|
    ensures events[j].done < events[k].done <= events[k].total
  {
  }

  /** The last event of a non-empty run reports `done == total == |urls|`. */
  lemma CountedLast(events: seq<ProgressEvent>, urls: seq<string>)
    requires Counted(events, urls) && events != []
    ensures events[|events| - 1].done == events[|events| - 1].total == |urls|
  {
  }
}
