/**
 * `downloadAll` and `makeMp3Url`: fetch each track number's file in turn,
 * save successes to the track store, and report one progress event per item.
 */
module Downloader {
  import opened Wrappers
  import opened Text
  import opened TrackDb
  import opened Progress

  const UrlPrefix := "http://5fi.sh/"
  const UrlSuffix := "-001.mp3"

  /** The file url of a track number: the trimmed number in a fixed template. */
  function MakeMp3Url(tNumber: string): (r: string)
    ensures |r| == |UrlPrefix| + |Trim(tNumber)| + |UrlSuffix|
    ensures r[..|UrlPrefix|] == UrlPrefix && r[|r| - |UrlSuffix|..] == UrlSuffix
  {
    UrlPrefix + Trim(tNumber) + UrlSuffix
  }

  /** The track number a template url was built from. */
  function TNumberOf(url: string): string
    requires |url| >= |UrlPrefix| + |UrlSuffix|
  {
    url[|UrlPrefix|..|url| - |UrlSuffix|]
  }

  /** The url determines the trimmed track number it came from. */
  lemma MakeMp3UrlInverse(tNumber: string)
    ensures TNumberOf(MakeMp3Url(tNumber)) == Trim(tNumber)
  {
    var r := MakeMp3Url(tNumber);
    assert r == UrlPrefix + Trim(tNumber) + UrlSuffix;
  }

  /** Two track numbers give the same url exactly when they trim to the same text. */
  lemma MakeMp3UrlInjective(a: string, b: string)
    ensures MakeMp3Url(a) == MakeMp3Url(b) <==> Trim(a) == Trim(b)
  {
    if MakeMp3Url(a) == MakeMp3Url(b) {
      MakeMp3UrlInverse(a);
      MakeMp3UrlInverse(b);
    }
  }

  /** Surrounding whitespace in a track number does not change its url. */
  lemma MakeMp3UrlTrim(tNumber: string)
    ensures MakeMp3Url(Trim(tNumber)) == MakeMp3Url(tNumber)
  {
    TrimIdempotent(tNumber);
  }

  // ---- the environment of one item ----

  /** What `fetch(url)` and `res.blob()` produce: a response, or a thrown error. */
  datatype FetchResult = Response(status: nat, body: Blob) | TransportError(message: string)

  /**
   * Everything outside the loop that decides one item: the fetch, the outcome
   * of the store transaction (`Some(message)` when it errors), and the clock.
   */
  datatype ItemEnv = ItemEnv(fetch: FetchResult, saveFault: Option<string>, now: int)

  /** `res.ok`: a 2xx status. */
  predicate IsOkStatus(status: nat) {
    200 <= status <= 299
  }

  /** The message of the error thrown for a non-2xx response. */
  function HttpError(status: nat): string {
    "HTTP " + NatToDecimal(status)
  }

  /** The item's body reached the store. */
  predicate Saved(env: ItemEnv) {
    env.fetch.Response? && IsOkStatus(env.fetch.status) && env.saveFault.None?
  }

  /** The message reported for the item, if it failed; the first failing step wins. */
  function ItemError(env: ItemEnv): (r: Option<string>)
    ensures r.None? <==> Saved(env)
  {
    match env.fetch
    case TransportError(m) => Some(m)
    case Response(status, _) =>
      if !IsOkStatus(status) then Some(HttpError(status)) else env.saveFault
  }

  function ItemEvent(done: nat, total: nat, tNumber: string, env: ItemEnv): ProgressEvent {
    var err := ItemError(env);
    ProgressEvent(done, total, MakeMp3Url(tNumber), err.None?, err)
  }

  /** The store after one item: a put of the body when it was saved, else no change. */
  function StepStore(rows: Table, tNumber: string, env: ItemEnv): Table {
    if Saved(env) then Put(rows, MakeMp3Url(tNumber), env.fetch.body, env.now) else rows
  }

  // ---- the whole batch ----

  function Urls(tNumbers: seq<string>): (r: seq<string>)
    ensures |r| == |tNumbers|
    ensures forall k :: 0 <= k < |r| ==> r[k] == MakeMp3Url(tNumbers[k])
  {
    seq(|tNumbers|, k requires 0 <= k < |tNumbers| => MakeMp3Url(tNumbers[k]))
  }

  /** The events `downloadAll` hands to `onProgress`, in order. */
  function DownloadEvents(tNumbers: seq<string>, envs: seq<ItemEnv>): seq<ProgressEvent>
    requires |envs| == |tNumbers|
  {
    seq(|tNumbers|, k requires 0 <= k < |tNumbers| => ItemEvent(k + 1, |tNumbers|, tNumbers[k], envs[k]))
  }

  /** The store after `downloadAll`: the items' puts applied in input order. */
  function StoreAfter(rows: Table, tNumbers: seq<string>, envs: seq<ItemEnv>): Table
    requires |envs| == |tNumbers|
  {
    if tNumbers == [] then rows
    else
      var n := |tNumbers| - 1;
      StepStore(StoreAfter(rows, tNumbers[..n], envs[..n]), tNumbers[n], envs[n])
  }

  /** The urls of the items whose body was saved. */
  function SavedUrls(tNumbers: seq<string>, envs: seq<ItemEnv>): set<string>
    requires |envs| == |tNumbers|
  {
    set k | 0 <= k < |tNumbers| && Saved(envs[k]) :: MakeMp3Url(tNumbers[k])
  }

  /**
   * The body of the `try` for one track number: fetch, check `res.ok`, read
   * the body and save it. Returns the message of whatever was thrown.
   */
  method DownloadOne(store: TrackStore, tNumber: string, env: ItemEnv) returns (err: Option<string>)
    requires store.Valid()
    modifies store
    ensures store.Valid()
    ensures err == ItemError(env)
    ensures store.rows == StepStore(old(store.rows), tNumber, env)
  {
    var url := MakeMp3Url(tNumber);
    match env.fetch {
      case TransportError(m) =>
        err := Some(m);
      case Response(status, body) =>
        if !IsOkStatus(status) {
          err := Some(HttpError(status));
        } else {
          err := store.SaveTrack(url, body, env.now, env.saveFault);
        }
    }
  }

  /** Unfolding `StoreAfter` by one item. */
  lemma StoreAfterSnoc(rows: Table, tNumbers: seq<string>, envs: seq<ItemEnv>, i: nat)
    requires |envs| == |tNumbers| && i < |tNumbers|
    ensures StoreAfter(rows, tNumbers[..i + 1], envs[..i + 1])
      == StepStore(StoreAfter(rows, tNumbers[..i], envs[..i]), tNumbers[i], envs[i])
  {
    assert tNumbers[..i + 1][..i] == tNumbers[..i];
    assert envs[..i + 1][..i] == envs[..i];
  }

  /**
   * `downloadAll(tNumbers, onProgress)`, with `envs[k]` deciding the k-th
   * item and the events returned instead of passed to a callback.
   */
  method DownloadAll(store: TrackStore, tNumbers: seq<string>, envs: seq<ItemEnv>)
    returns (events: seq<ProgressEvent>)
    requires |envs| == |tNumbers|
    requires store.Valid()
    modifies store
    ensures store.Valid()
    ensures events == DownloadEvents(tNumbers, envs)
    ensures store.rows == StoreAfter(old(store.rows), tNumbers, envs)
  {
    var done := 0;
    var total := |tNumbers|;
    events := [];
    var i := 0;
    while i < |tNumbers|
      invariant 0 <= i <= |tNumbers|
      invariant done == i
      invariant store.Valid()
      invariant |events| == i
      invariant events == DownloadEvents(tNumbers, envs)[..i]
      invariant store.rows == StoreAfter(old(store.rows), tNumbers[..i], envs[..i])
    {
      var url := MakeMp3Url(tNumbers[i]);
      var err := DownloadOne(store, tNumbers[i], envs[i]);
      done := done + 1;
      var ev := ProgressEvent(done, total, url, err.None?, err);
      assert ev == DownloadEvents(tNumbers, envs)[i];
      events := events + [ev];
      assert DownloadEvents(tNumbers, envs)[..i + 1] == DownloadEvents(tNumbers, envs)[..i] + [ev];
      StoreAfterSnoc(old(store.rows), tNumbers, envs, i);
      i := i + 1;
    }
    assert tNumbers[..i] == tNumbers;
    assert envs[..i] == envs;
    assert DownloadEvents(tNumbers, envs)[..i] == DownloadEvents(tNumbers, envs);
  }

  // ---- properties of a batch ----

  /** Exactly one event per track number, in input order, counted 1..N. */
  lemma DownloadEventsCounted(tNumbers: seq<string>, envs: seq<ItemEnv>)
    requires |envs| == |tNumbers|
    ensures Counted(DownloadEvents(tNumbers, envs), Urls(tNumbers))
  {
  }

  /**
   * What the k-th event reports: ok exactly when the body was saved, else the
   * transport error, `HTTP <status>` for a non-2xx status, or the store's error.
   */
  lemma DownloadEventOutcome(tNumbers: seq<string>, envs: seq<ItemEnv>, k: nat)
    requires |envs| == |tNumbers| && k < |tNumbers|
    ensures var e := DownloadEvents(tNumbers, envs)[k];
      && (e.ok <==> Saved(envs[k]))
      && (envs[k].fetch.TransportError? ==> e.error == Some(envs[k].fetch.message))
      && (envs[k].fetch.Response? && !IsOkStatus(envs[k].fetch.status) ==>
            e.error == Some(HttpError(envs[k].fetch.status)))
      && (envs[k].fetch.Response? && IsOkStatus(envs[k].fetch.status) ==> e.error == envs[k].saveFault)
  {
  }

  /** The HTTP error message names the status code: its digits read back as the code. */
  lemma HttpErrorNamesStatus(status: nat)
    ensures var m := HttpError(status);
      |m| > 5 && m[..5] == "HTTP " && (forall i :: 5 <= i < |m| ==> IsDigit(m[i]))
      && DecimalValue(m[5..]) == status
  {
    var m := HttpError(status);
    assert m[5..] == NatToDecimal(status);
    DecimalRoundTrip(status);
  }

  lemma HttpError404()
    ensures HttpError(404) == "HTTP 404"
  {
    assert NatToDecimal(404) == NatToDecimal(40) + "4";
    assert NatToDecimal(40) == NatToDecimal(4) + "0";
  }

  /** No input, no events, and the store is untouched. */
  lemma DownloadEmpty(rows: Table)
    ensures DownloadEvents([], []) == []
    ensures StoreAfter(rows, [], []) == rows
  {
  }

  lemma SavedUrlsSnoc(tNumbers: seq<string>, envs: seq<ItemEnv>)
    requires |envs| == |tNumbers| && tNumbers != []
    ensures var n := |tNumbers| - 1;
      SavedUrls(tNumbers, envs) == SavedUrls(tNumbers[..n], envs[..n])
        + (if Saved(envs[n]) then {MakeMp3Url(tNumbers[n])} else {})
  {
    var n := |tNumbers| - 1;
    var a := SavedUrls(tNumbers, envs);
    var b := SavedUrls(tNumbers[..n], envs[..n]);
    forall u | u in b ensures u in a {
      var k :| 0 <= k < n && Saved(envs[..n][k]) && u == MakeMp3Url(tNumbers[..n][k]);
      assert envs[..n][k] == envs[k] && tNumbers[..n][k] == tNumbers[k];
    }
    forall u | u in a ensures u in b || (Saved(envs[n]) && u == MakeMp3Url(tNumbers[n])) {
      var k :| 0 <= k < |tNumbers| && Saved(envs[k]) && u == MakeMp3Url(tNumbers[k]);
      if k < n {
        assert envs[..n][k] == envs[k] && tNumbers[..n][k] == tNumbers[k];
      }
    }
  }

  /** The batch adds keys exactly at the urls of saved items. */
  lemma {:induction false} StoreAfterKeys(rows: Table, tNumbers: seq<string>, envs: seq<ItemEnv>)
    requires |envs| == |tNumbers|
    ensures StoreAfter(rows, tNumbers, envs).Keys == rows.Keys + SavedUrls(tNumbers, envs)
  {
    if tNumbers != [] {
      var n := |tNumbers| - 1;
      StoreAfterKeys(rows, tNumbers[..n], envs[..n]);
      SavedUrlsSnoc(tNumbers, envs);
    } else {
      assert SavedUrls(tNumbers, envs) == {};
    }
  }

  /**
   * The store changes only at the urls of saved items: a failing item writes
   * nothing, and every other key keeps its row.
   */
  lemma {:induction false} StoreAfterFrame(rows: Table, tNumbers: seq<string>, envs: seq<ItemEnv>, u: string)
    requires |envs| == |tNumbers|
    requires u !in SavedUrls(tNumbers, envs)
    ensures Get(StoreAfter(rows, tNumbers, envs), u) == Get(rows, u)
  {
    if tNumbers != [] {
      var n := |tNumbers| - 1;
      SavedUrlsSnoc(tNumbers, envs);
      StoreAfterFrame(rows, tNumbers[..n], envs[..n], u);
    }
  }

  /**
   * A saved item's row survives to the end unless a later item saves to the
   * same url: the store then maps the url to the fetched body.
   */
  lemma {:induction false} StoreAfterLastWrite(rows: Table, tNumbers: seq<string>, envs: seq<ItemEnv>, k: nat)
    requires |envs| == |tNumbers| && k < |tNumbers|
    requires Saved(envs[k])
    requires forall j :: k < j < |tNumbers| && Saved(envs[j]) ==> MakeMp3Url(tNumbers[j]) != MakeMp3Url(tNumbers[k])
    ensures var url := MakeMp3Url(tNumbers[k]);
      Get(StoreAfter(rows, tNumbers, envs), url) == Some(TrackRow(url, Some(envs[k].fetch.body), envs[k].now))
  {
    var n := |tNumbers| - 1;
    if k < n {
      assert tNumbers[..n][k] == tNumbers[k] && envs[..n][k] == envs[k];
      forall j | k < j < n && Saved(envs[..n][j])
        ensures MakeMp3Url(tNumbers[..n][j]) != MakeMp3Url(tNumbers[..n][k])
      {
        assert tNumbers[..n][j] == tNumbers[j] && envs[..n][j] == envs[j];
      }
      StoreAfterLastWrite(rows, tNumbers[..n], envs[..n], k);
    }
  }

  /** Every row stays under its own url. */
  lemma {:induction false} StoreAfterKeyedByUrl(rows: Table, tNumbers: seq<string>, envs: seq<ItemEnv>)
    requires |envs| == |tNumbers|
    requires KeyedByUrl(rows)
    ensures KeyedByUrl(StoreAfter(rows, tNumbers, envs))
  {
    if tNumbers != [] {
      var n := |tNumbers| - 1;
      StoreAfterKeyedByUrl(rows, tNumbers[..n], envs[..n]);
    }
  }

  /** At a saved url, the final row does not depend on the store the batch started from. */
  lemma {:induction false} StoreAfterSavedIgnoresBase(r1: Table, r2: Table, tNumbers: seq<string>, envs: seq<ItemEnv>, u: string)
    requires |envs| == |tNumbers|
    requires u in SavedUrls(tNumbers, envs)
    ensures u in StoreAfter(r1, tNumbers, envs) && u in StoreAfter(r2, tNumbers, envs)
    ensures StoreAfter(r1, tNumbers, envs)[u] == StoreAfter(r2, tNumbers, envs)[u]
  {
    var n := |tNumbers| - 1;
    SavedUrlsSnoc(tNumbers, envs);
    if !(Saved(envs[n]) && u == MakeMp3Url(tNumbers[n])) {
      StoreAfterSavedIgnoresBase(r1, r2, tNumbers[..n], envs[..n], u);
    }
  }

  /**
   * Re-running a batch whose items all succeed overwrites rather than
   * duplicates: the store ends as if only the second run had happened.
   */
  lemma DownloadRerun(rows: Table, tNumbers: seq<string>, first: seq<ItemEnv>, second: seq<ItemEnv>)
    requires |first| == |tNumbers| && |second| == |tNumbers|
    requires forall k :: 0 <= k < |tNumbers| ==> Saved(second[k])
    ensures StoreAfter(StoreAfter(rows, tNumbers, first), tNumbers, second) == StoreAfter(rows, tNumbers, second)
  {
    var mid := StoreAfter(rows, tNumbers, first);
    var a := StoreAfter(mid, tNumbers, second);
    var b := StoreAfter(rows, tNumbers, second);
    SavedUrlsAllSaved(tNumbers, first, second);
    StoreAfterKeys(rows, tNumbers, first);
    StoreAfterKeys(mid, tNumbers, second);
    StoreAfterKeys(rows, tNumbers, second);
    assert a.Keys == b.Keys;
    forall u | u in a ensures a[u] == b[u] {
      RerunAt(rows, tNumbers, first, second, u);
    }
  }

  /** When every item of the second run is saved, it saves every url the first run saved. */
  lemma SavedUrlsAllSaved(tNumbers: seq<string>, first: seq<ItemEnv>, second: seq<ItemEnv>)
    requires |first| == |tNumbers| && |second| == |tNumbers|
    requires forall k :: 0 <= k < |tNumbers| ==> Saved(second[k])
    ensures SavedUrls(tNumbers, first) <= SavedUrls(tNumbers, second)
  {
    forall u | u in SavedUrls(tNumbers, first) ensures u in SavedUrls(tNumbers, second) {
      var k :| 0 <= k < |tNumbers| && Saved(first[k]) && u == MakeMp3Url(tNumbers[k]);
      assert Saved(second[k]);
    }
  }

  /** One key of `DownloadRerun`. */
  lemma RerunAt(rows: Table, tNumbers: seq<string>, first: seq<ItemEnv>, second: seq<ItemEnv>, u: string)
    requires |first| == |tNumbers| && |second| == |tNumbers|
    requires SavedUrls(tNumbers, first) <= SavedUrls(tNumbers, second)
    requires u in StoreAfter(StoreAfter(rows, tNumbers, first), tNumbers, second)
    ensures u in StoreAfter(rows, tNumbers, second)
    ensures StoreAfter(StoreAfter(rows, tNumbers, first), tNumbers, second)[u] == StoreAfter(rows, tNumbers, second)[u]
  {
    var mid := StoreAfter(rows, tNumbers, first);
    if u in SavedUrls(tNumbers, second) {
      StoreAfterSavedIgnoresBase(mid, rows, tNumbers, second, u);
    } else {
      StoreAfterFrame(mid, tNumbers, second, u);
      StoreAfterFrame(rows, tNumbers, second, u);
      StoreAfterFrame(rows, tNumbers, first, u);
    }
  }

  /** The same track number downloaded twice in one batch leaves one row, holding the second body. */
  lemma {:induction false} DownloadSameTwice(rows: Table, tNumber: string, e1: ItemEnv, e2: ItemEnv)
    requires Saved(e1) && Saved(e2)
    ensures var after := StoreAfter(rows, [tNumber, tNumber], [e1, e2]);
      var url := MakeMp3Url(tNumber);
      && after == Put(rows, url, e2.fetch.body, e2.now)
      && |after| == (if url in rows then |rows| else |rows| + 1)
  {
    var url := MakeMp3Url(tNumber);
    var ts, es := [tNumber, tNumber], [e1, e2];
    assert ts[..1] == [tNumber] && es[..1] == [e1];
    assert [tNumber][..0] == [] && [e1][..0] == [];
    var s0 := StoreAfter(rows, [], []);
    assert s0 == rows;
    var s1 := StoreAfter(rows, [tNumber], [e1]);
    assert s1 == StepStore(s0, tNumber, e1);
    assert StoreAfter(rows, ts, es) == StepStore(s1, tNumber, e2);
    PutTwice(rows, url, e1.fetch.body, e1.now, e2.fetch.body, e2.now);
    PutSize(rows, url, e2.fetch.body, e2.now);
  }

  /** A saved url ends with a row that holds a blob. */
  lemma {:induction false} StoreAfterSavedHasBlob(rows: Table, tNumbers: seq<string>, envs: seq<ItemEnv>, u: string)
    requires |envs| == |tNumbers|
    requires u in SavedUrls(tNumbers, envs)
    ensures u in StoreAfter(rows, tNumbers, envs) && StoreAfter(rows, tNumbers, envs)[u].blob.Some?
  {
    var n := |tNumbers| - 1;
    SavedUrlsSnoc(tNumbers, envs);
    if !(Saved(envs[n]) && u == MakeMp3Url(tNumbers[n])) {
      StoreAfterSavedHasBlob(rows, tNumbers[..n], envs[..n], u);
    }
  }
}
