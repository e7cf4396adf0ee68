/**
 * `exportZipFromIndexedDb` and `getFileNameFromUrl`: read each url's row
 * back from the track store and add its blob to a ZIP archive under the
 * url's last path segment, reporting one progress event per url.
 */
module ZipExport {
  import opened Wrappers
  import opened Text
  import opened TrackDb
  import opened Progress
  import opened Downloader

  const FallbackName := "track.mp3"
  const NotFoundMessage := "Not found in IndexedDB"

  /** `url.split("/").pop() || "track.mp3"`. */
  function FileNameFromUrl(url: string): (r: string)
    ensures r != [] && '/' !in r
  {
    var segments := Split(url, '/');
    var last := segments[|segments| - 1];
    if last == [] then FallbackName else last
  }

  /** The name is the text after the last `/`. */
  lemma FileNameAfterLastSlash(prefix: string, name: string)
    requires '/' !in name && name != []
    ensures FileNameFromUrl(prefix + "/" + name) == name
  {
    LastPiece(prefix, '/', name);
  }

  /** A url ending in `/` has an empty last segment, so the fallback name is used. */
  lemma FileNameTrailingSlash(prefix: string)
    ensures FileNameFromUrl(prefix + "/") == FallbackName
  {
    assert prefix + "/" == prefix + ['/'] + [];
    LastPiece(prefix, '/', []);
  }

  /** Without any `/` the whole url is the name; the empty url falls back. */
  lemma FileNameNoSlash(url: string)
    requires '/' !in url
    ensures FileNameFromUrl(url) == if url == [] then FallbackName else url
  {
    SplitNoSep(url, '/');
  }

  /** The archive entry of a downloaded track is named by its track number. */
  lemma FileNameOfMp3Url(tNumber: string)
    requires '/' !in Trim(tNumber)
    ensures FileNameFromUrl(MakeMp3Url(tNumber)) == Trim(tNumber) + UrlSuffix
  {
    var name := Trim(tNumber) + UrlSuffix;
    assert '/' !in name by {
      forall i | 0 <= i < |name| ensures name[i] != '/' {
        if i >= |Trim(tNumber)| { assert name[i] == UrlSuffix[i - |Trim(tNumber)|]; }
      }
    }
    assert MakeMp3Url(tNumber) == "http://5fi.sh" + "/" + name;
    FileNameAfterLastSlash("http://5fi.sh", name);
  }

  // ---- the export loop ----

  /** One `zip.file(name, blob)` call. */
  datatype ArchiveEntry = ArchiveEntry(name: string, blob: Blob)

  /** `row?.blob`: the blob of the stored row, if there is a row and it has one. */
  function FoundBlob(rows: Table, url: string): (r: Option<Blob>)
    ensures r.Some? <==> url in rows && rows[url].blob.Some?
    ensures url in rows ==> r == rows[url].blob
  {
    match Get(rows, url)
    case None => None
    case Some(row) => row.blob
  }

  function ExportItemEvent(done: nat, total: nat, url: string, rows: Table): ProgressEvent {
    if FoundBlob(rows, url).Some? then ProgressEvent(done, total, url, true, None)
    else ProgressEvent(done, total, url, false, Some(NotFoundMessage))
  }

  /** The events the export hands to `onProgress`, in order. */
  function ExportEvents(urls: seq<string>, rows: Table): seq<ProgressEvent> {
    seq(|urls|, k requires 0 <= k < |urls| => ExportItemEvent(k + 1, |urls|, urls[k], rows))
  }

  /** The `zip.file` calls of the export, in order: one per url that was found. */
  function ExportEntries(urls: seq<string>, rows: Table): seq<ArchiveEntry> {
    if urls == [] then []
    else
      var n := |urls| - 1;
      var url := urls[n];
      ExportEntries(urls[..n], rows)
        + match FoundBlob(rows, url)
          case None => []
          case Some(b) => [ArchiveEntry(FileNameFromUrl(url), b)]
  }

  /** The archive's files after the calls: a later call with the same name replaces the earlier. */
  function ZipFiles(entries: seq<ArchiveEntry>): map<string, Blob> {
    if entries == [] then map[]
    else
      var n := |entries| - 1;
      ZipFiles(entries[..n])[entries[n].name := entries[n].blob]
  }

  /**
   * The loop of `exportZipFromIndexedDb(urls, zipName, onProgress)`, with the
   * events returned instead of passed to a callback and the archive given as
   * its sequence of `zip.file` calls. It only reads the store.
   */
  method ExportZip(store: TrackStore, urls: seq<string>) returns (events: seq<ProgressEvent>, entries: seq<ArchiveEntry>)
    requires store.Valid()
    ensures events == ExportEvents(urls, store.rows)
    ensures entries == ExportEntries(urls, store.rows)
  {
    var done := 0;
    var total := |urls|;
    events, entries := [], [];
    var i := 0;
    while i < |urls|
      invariant 0 <= i <= |urls|
      invariant done == i
      invariant |events| == i
      invariant events == ExportEvents(urls, store.rows)[..i]
      invariant entries == ExportEntries(urls[..i], store.rows)
    {
      var url := urls[i];
      var row := store.GetTrack(url);
      assert urls[..i + 1][..i] == urls[..i];
      var ev;
      if row.None? || row.value.blob.None? {
        done := done + 1;
        ev := ProgressEvent(done, total, url, false, Some(NotFoundMessage));
      } else {
        var fileName := FileNameFromUrl(url);
        entries := entries + [ArchiveEntry(fileName, row.value.blob.value)];
        done := done + 1;
        ev := ProgressEvent(done, total, url, true, None);
      }
      assert ev == ExportEvents(urls, store.rows)[i];
      events := events + [ev];
      assert ExportEvents(urls, store.rows)[..i + 1] == ExportEvents(urls, store.rows)[..i] + [ev];
      i := i + 1;
    }
    assert urls[..i] == urls;
    assert ExportEvents(urls, store.rows)[..i] == ExportEvents(urls, store.rows);
  }

  // ---- properties of an export ----

  /** Exactly one event per url, in input order, counted 1..N. */
  lemma ExportEventsCounted(urls: seq<string>, rows: Table)
    ensures Counted(ExportEvents(urls, rows), urls)
  {
  }

  /** An item is ok exactly when its row and blob were found; otherwise it reports "Not found". */
  lemma ExportEventOutcome(urls: seq<string>, rows: Table, k: nat)
    requires k < |urls|
    ensures var e := ExportEvents(urls, rows)[k];
      && (e.ok <==> urls[k] in rows && rows[urls[k]].blob.Some?)
      && (!e.ok ==> e.error == Some(NotFoundMessage))
  {
  }

  /** The archive calls distribute over the url list, so they follow its order. */
  lemma {:induction false} ExportEntriesAppend(a: seq<string>, b: seq<string>, rows: Table)
    ensures ExportEntries(a + b, rows) == ExportEntries(a, rows) + ExportEntries(b, rows)
  {
    if b == [] {
      assert a + b == a;
    } else {
      var n := |b| - 1;
      assert (a + b)[..|a + b| - 1] == a + b[..n];
      assert (a + b)[|a + b| - 1] == b[n];
      ExportEntriesAppend(a, b[..n], rows);
    }
  }

  /** The positions of the urls that were found. */
  function FoundIndices(urls: seq<string>, rows: Table): set<int> {
    set k | 0 <= k < |urls| && FoundBlob(rows, urls[k]).Some?
  }

  /** Appending a url adds its position when it is found. */
  lemma FoundIndicesSnoc(init: seq<string>, u: string, rows: Table)
    ensures FoundIndices(init + [u], rows)
      == FoundIndices(init, rows) + (if FoundBlob(rows, u).Some? then {|init|} else {})
  {
    var us := init + [u];
    forall k | 0 <= k < |init| ensures us[k] == init[k] { }
    assert us[|init|] == u;
  }

  /** The archive gets exactly as many files added as there are ok events. */
  lemma {:induction false} ExportEntriesCount(urls: seq<string>, rows: Table)
    ensures |ExportEntries(urls, rows)| == |FoundIndices(urls, rows)|
  {
    if urls == [] {
      assert FoundIndices(urls, rows) == {};
    } else {
      var n := |urls| - 1;
      assert urls == urls[..n] + [urls[n]];
      ExportEntriesCount(urls[..n], rows);
      FoundIndicesSnoc(urls[..n], urls[n], rows);
      assert n !in FoundIndices(urls[..n], rows);
    }
  }

  /** A found url's blob is added under its file name. */
  lemma ExportEntryOfFound(urls: seq<string>, rows: Table, k: nat)
    requires k < |urls| && FoundBlob(rows, urls[k]).Some?
    ensures ArchiveEntry(FileNameFromUrl(urls[k]), FoundBlob(rows, urls[k]).value) in ExportEntries(urls, rows)
  {
    var pre, post := urls[..k + 1], urls[k + 1..];
    assert urls == pre + post;
    ExportEntriesAppend(pre, post, rows);
    assert pre[..k] == urls[..k];
  }

  /** Every archive call comes from a found url, whose blob it adds under its file name. */
  lemma {:induction false} ExportEntrySource(urls: seq<string>, rows: Table, j: nat) returns (k: nat)
    requires j < |ExportEntries(urls, rows)|
    ensures k < |urls| && FoundBlob(rows, urls[k]).Some?
    ensures ExportEntries(urls, rows)[j] == ArchiveEntry(FileNameFromUrl(urls[k]), FoundBlob(rows, urls[k]).value)
  {
    var n := |urls| - 1;
    var init := ExportEntries(urls[..n], rows);
    if j < |init| {
      k := ExportEntrySource(urls[..n], rows, j);
      assert urls[..n][k] == urls[k];
    } else {
      k := n;
    }
  }

  /** The archive's file names are the names of the found urls. */
  lemma {:induction false} ZipFilesNames(entries: seq<ArchiveEntry>)
    ensures ZipFiles(entries).Keys == set j | 0 <= j < |entries| :: entries[j].name
  {
    if entries != [] {
      var n := |entries| - 1;
      ZipFilesNames(entries[..n]);
      var a := set j | 0 <= j < |entries| :: entries[j].name;
      var b := set j | 0 <= j < n :: entries[..n][j].name;
      forall x | x in a ensures x in b + {entries[n].name} {
        var j :| 0 <= j < |entries| && entries[j].name == x;
        if j < n { assert entries[..n][j] == entries[j]; }
      }
      forall x | x in b ensures x in a {
        var j :| 0 <= j < n && entries[..n][j].name == x;
        assert entries[..n][j] == entries[j];
      }
    }
  }

  /** When two urls share a file name, the archive keeps the blob of the later call. */
  lemma {:induction false} ZipFilesLastWins(entries: seq<ArchiveEntry>, j: nat)
    requires j < |entries|
    requires forall i :: j < i < |entries| ==> entries[i].name != entries[j].name
    ensures entries[j].name in ZipFiles(entries) && ZipFiles(entries)[entries[j].name] == entries[j].blob
  {
    var n := |entries| - 1;
    if j < n {
      forall i | j < i < n ensures entries[..n][i].name != entries[..n][j].name {
        assert entries[..n][i] == entries[i];
      }
      ZipFilesLastWins(entries[..n], j);
      assert entries[..n][j] == entries[j];
    }
  }

  /**
   * Three urls of which the middle one has no stored blob: three events, the
   * middle one failing with "Not found", and two `zip.file` calls.
   */
  lemma {:induction false} ExportOneMissing(rows: Table, u1: string, u2: string, u3: string)
    requires FoundBlob(rows, u1).Some? && FoundBlob(rows, u2).None? && FoundBlob(rows, u3).Some?
    ensures var events := ExportEvents([u1, u2, u3], rows);
      && |events| == 3 && events[0].ok && !events[1].ok && events[2].ok
      && events[1].error == Some(NotFoundMessage)
    ensures ExportEntries([u1, u2, u3], rows)
      == [ArchiveEntry(FileNameFromUrl(u1), FoundBlob(rows, u1).value),
          ArchiveEntry(FileNameFromUrl(u3), FoundBlob(rows, u3).value)]
  {
    var us := [u1, u2, u3];
    assert us[..2] == [u1, u2] && us[..2][..1] == [u1] && [u1][..0] == [];
    var e1 := ArchiveEntry(FileNameFromUrl(u1), FoundBlob(rows, u1).value);
    var e3 := ArchiveEntry(FileNameFromUrl(u3), FoundBlob(rows, u3).value);
    assert ExportEntries([], rows) == [];
    assert ExportEntries([u1], rows) == [e1];
    assert ExportEntries([u1, u2], rows) == [e1];
    assert ExportEntries(us, rows) == [e1, e3];
  }

  /**
   * The archive of that export: the files are named after the two found
   * urls, the third url's blob is under its name, and the first url's blob
   * survives unless both names coincide (then it is replaced).
   */
  lemma ExportOneMissingFiles(rows: Table, u1: string, u2: string, u3: string)
    requires FoundBlob(rows, u1).Some? && FoundBlob(rows, u2).None? && FoundBlob(rows, u3).Some?
    ensures var files := ZipFiles(ExportEntries([u1, u2, u3], rows));
      var n1, n3 := FileNameFromUrl(u1), FileNameFromUrl(u3);
      && files.Keys == {n1, n3}
      && files[n3] == rows[u3].blob.value
      && (n1 != n3 ==> files[n1] == rows[u1].blob.value)
  {
    ExportOneMissing(rows, u1, u2, u3);
    var entries := ExportEntries([u1, u2, u3], rows);
    ZipFilesNames(entries);
    assert (set j | 0 <= j < |entries| :: entries[j].name) == {entries[0].name, entries[1].name} by {
      assert entries[0].name in set j | 0 <= j < |entries| :: entries[j].name;
      assert entries[1].name in set j | 0 <= j < |entries| :: entries[j].name;
    }
    ZipFilesLastWins(entries, 1);
    if FileNameFromUrl(u1) != FileNameFromUrl(u3) {
      ZipFilesLastWins(entries, 0);
    }
  }

  /** Every url was found, so each gets an ok event and its archive call. */
  lemma {:induction false} ExportEntriesAllFound(urls: seq<string>, rows: Table)
    requires forall k :: 0 <= k < |urls| ==> FoundBlob(rows, urls[k]).Some?
    ensures forall k :: 0 <= k < |urls| ==> ExportEvents(urls, rows)[k].ok
    ensures |ExportEntries(urls, rows)| == |urls|
  {
    if urls != [] {
      var n := |urls| - 1;
      forall k | 0 <= k < n ensures FoundBlob(rows, urls[..n][k]).Some? {
        assert urls[..n][k] == urls[k];
      }
      ExportEntriesAllFound(urls[..n], rows);
    }
  }

  /** The url of a saved item has a stored blob after the batch. */
  lemma FoundAfterSave(rows: Table, tNumbers: seq<string>, envs: seq<ItemEnv>, k: nat)
    requires |envs| == |tNumbers| && k < |tNumbers| && Saved(envs[k])
    ensures FoundBlob(StoreAfter(rows, tNumbers, envs), MakeMp3Url(tNumbers[k])).Some?
  {
    assert MakeMp3Url(tNumbers[k]) in SavedUrls(tNumbers, envs);
    StoreAfterSavedHasBlob(rows, tNumbers, envs, MakeMp3Url(tNumbers[k]));
  }

  /**
   * Download then export: after a batch in which every item was saved,
   * exporting its urls finds every one of them and adds a file for each.
   */
  lemma ExportAfterDownload(rows: Table, tNumbers: seq<string>, envs: seq<ItemEnv>)
    requires |envs| == |tNumbers|
    requires forall k :: 0 <= k < |tNumbers| ==> Saved(envs[k])
    ensures var after := StoreAfter(rows, tNumbers, envs);
      && (forall k :: 0 <= k < |tNumbers| ==> ExportEvents(Urls(tNumbers), after)[k].ok)
      && |ExportEntries(Urls(tNumbers), after)| == |tNumbers|
  {
    var after := StoreAfter(rows, tNumbers, envs);
    var urls := Urls(tNumbers);
    forall k | 0 <= k < |urls| ensures FoundBlob(after, urls[k]).Some? {
      FoundAfterSave(rows, tNumbers, envs, k);
    }
    ExportEntriesAllFound(urls, after);
  }
}
