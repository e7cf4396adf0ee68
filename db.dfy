/**
 * The IndexedDB layer: database "audio-db", version 1, with one object store
 * "tracks" whose key path is `url`. Only the key-value semantics of its
 * table are modelled; the open/transaction/event plumbing is not.
 */
module TrackDb {
  import opened Wrappers

  // The database name and version of db.ts:1-3, recorded for reference; the
  // model has a single database, so nothing refers to them.
  const DbName := "audio-db"
  const StoreName := "tracks"
  const DbVersion := 1

  newtype byte = x: int | 0 <= x < 256

  /** The opaque bytes of a downloaded file. */
  type Blob = seq<byte>

  /**
   * One stored track. `blob` is optional because a row read back from the
   * store is checked with `row?.blob`; every row this code writes has one.
   */
  datatype TrackRow = TrackRow(url: string, blob: Option<Blob>, savedAt: int)

  /** The object store's contents, by key. */
  type Table = map<string, TrackRow>

  /** The key path is `url`: every row sits under its own `url`. */
  predicate KeyedByUrl(t: Table) {
    forall u :: u in t ==> t[u].url == u
  }

  /** The object stores of the database, by name. */
  type Stores = map<string, Table>

  /**
   * The upgrade handler: creates the "tracks" store when the database has
   * none, and leaves an existing one, with its rows, exactly as it was.
   */
  function Upgrade(stores: Stores): (r: Stores)
    ensures StoreName in r
    ensures StoreName in stores ==> r == stores
    ensures StoreName !in stores ==> r[StoreName] == map[] && r - {StoreName} == stores
  {
    if StoreName in stores then stores else stores[StoreName := map[]]
  }

  /** Opening a second time changes nothing. */
  lemma UpgradeIdempotent(stores: Stores)
    ensures Upgrade(Upgrade(stores)) == Upgrade(stores)
  {
  }

  /** `put({url, blob, savedAt})`: insert or overwrite the row keyed by `url`. */
  function Put(t: Table, url: string, blob: Blob, savedAt: int): (r: Table)
    ensures r.Keys == t.Keys + {url}
    ensures r[url] == TrackRow(url, Some(blob), savedAt)
    ensures forall u :: u in t && u != url ==> r[u] == t[u]
  {
    t[url := TrackRow(url, Some(blob), savedAt)]
  }

  /** `get(url)`, with `?? null` as `None`. */
  function Get(t: Table, url: string): (r: Option<TrackRow>)
    ensures r.Some? <==> url in t
    ensures r.Some? ==> r.value == t[url]
  {
    if url in t then Some(t[url]) else None
  }

  /** Round trip: a get after a put returns the row just written. */
  lemma GetAfterPut(t: Table, url: string, blob: Blob, savedAt: int)
    ensures Get(Put(t, url, blob, savedAt), url) == Some(TrackRow(url, Some(blob), savedAt))
  {
  }

  /** A put touches no other key. */
  lemma GetAfterPutOther(t: Table, url: string, blob: Blob, savedAt: int, other: string)
    requires other != url
    ensures Get(Put(t, url, blob, savedAt), other) == Get(t, other)
  {
  }

  /** Last write wins: a second put to the same key replaces the first. */
  lemma PutTwice(t: Table, url: string, b1: Blob, n1: int, b2: Blob, n2: int)
    ensures Put(Put(t, url, b1, n1), url, b2, n2) == Put(t, url, b2, n2)
  {
  }

  /** A put adds a row only for a new key, so there is never more than one row per key. */
  lemma PutSize(t: Table, url: string, blob: Blob, savedAt: int)
    ensures |Put(t, url, blob, savedAt)| == if url in t then |t| else |t| + 1
  {
    var r := Put(t, url, blob, savedAt);
    if url in t {
      assert r.Keys == t.Keys;
    } else {
      assert r.Keys == t.Keys + {url};
    }
  }

  lemma PutKeyedByUrl(t: Table, url: string, blob: Blob, savedAt: int)
    requires KeyedByUrl(t)
    ensures KeyedByUrl(Put(t, url, blob, savedAt))
  {
  }

  /** An open handle on the "tracks" store. */
  class TrackStore {
    var rows: Table

    ghost predicate Valid()
      reads this
    {
      KeyedByUrl(rows)
    }

    /**
     * `openDb()` against a database holding `stores`: the "tracks" store is
     * created when absent, and an existing one keeps its rows.
     */
    constructor Open(stores: Stores)
      requires StoreName in stores ==> KeyedByUrl(stores[StoreName])
      ensures Valid()
      ensures rows == Upgrade(stores)[StoreName]
      ensures StoreName in stores ==> rows == stores[StoreName]
      ensures StoreName !in stores ==> rows == map[]
    {
      rows := Upgrade(stores)[StoreName];
    }

    /**
     * `saveTrack(url, blob)` with `Date.now()` given as `now`. `fault` is
     * what the readwrite transaction reports: `None` when it completes,
     * `Some(message)` when it errors, in which case nothing is written.
     */
    method SaveTrack(url: string, blob: Blob, now: int, fault: Option<string>) returns (err: Option<string>)
      requires Valid()
      modifies this
      ensures Valid()
      ensures err == fault
      ensures fault.None? ==> rows == Put(old(rows), url, blob, now)
      ensures fault.Some? ==> rows == old(rows)
    {
      if fault.None? {
        PutKeyedByUrl(rows, url, blob, now);
        rows := Put(rows, url, blob, now);
      }
      err := fault;
    }

    /** `getTrack(url)`: a read-only lookup, `None` for a url never saved. */
    method GetTrack(url: string) returns (row: Option<TrackRow>)
      requires Valid()
      ensures row == Get(rows, url)
      ensures row.Some? ==> row.value.url == url
    {
      if url in rows {
        row := Some(rows[url]);
      } else {
        row := None;
      }
    }
  }
}
