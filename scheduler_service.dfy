/**
 * The daily and weekly crawl schedules: each crawled programme is stored unless a stored
 * programme already has its url.  A save that throws is caught and the run goes on with the next
 * record.  The crawled batch and which saves fail are parameters.
 */
module SchedulerService {
  import opened Wrappers
  import opened Query
  import opened Db

  /** Some row of the table has this url. */
  predicate UrlStored<T>(rows: seq<T>, url: T -> string, u: string) {
    exists k :: 0 <= k < |rows| && url(rows[k]) == u
  }

  /** No two rows share a url. */
  ghost predicate DistinctUrls<T>(rows: seq<T>, url: T -> string) {
    forall i, j :: 0 <= i < j < |rows| ==> url(rows[i]) != url(rows[j])
  }

  /**
   * The table after the loop has handled `batch` in order.  Record k is appended when no row
   * (stored before or added earlier in the run) has its url, unless its save fails (`fails(k)`).
   */
  function Merge<T>(stored: seq<T>, batch: seq<T>, url: T -> string, fails: nat -> bool): (r: seq<T>)
    ensures stored <= r
    ensures forall k :: |stored| <= k < |r| ==> r[k] in batch && !UrlStored(stored, url, url(r[k]))
    ensures DistinctUrls(stored, url) ==> DistinctUrls(r, url)
    decreases |batch|
  {
    if |batch| == 0 then stored
    else
      var prev := Merge(stored, batch[..|batch| - 1], url, fails);
      var d := batch[|batch| - 1];
      if UrlStored(prev, url, url(d)) || fails(|batch| - 1) then prev
      else
        assert !UrlStored(stored, url, url(d)) by {
          forall k | 0 <= k < |stored| ensures url(stored[k]) != url(d) {
            assert prev[k] == stored[k];
          }
        }
        prev + [d]
  }

  /** A record with a new url whose save succeeds is stored by the end of the run. */
  lemma {:induction false} NewRecordStored<T>(stored: seq<T>, batch: seq<T>, url: T -> string,
                                             fails: nat -> bool, k: nat)
    requires k < |batch| && !fails(k)
    ensures UrlStored(Merge(stored, batch, url, fails), url, url(batch[k]))
    decreases |batch|
  {
    var prev := Merge(stored, batch[..|batch| - 1], url, fails);
    if k < |batch| - 1 {
      assert batch[..|batch| - 1][k] == batch[k];
      NewRecordStored(stored, batch[..|batch| - 1], url, fails, k);
      var j :| 0 <= j < |prev| && url(prev[j]) == url(batch[k]);
      assert prev <= Merge(stored, batch, url, fails);
      assert Merge(stored, batch, url, fails)[j] == prev[j];
    } else if !UrlStored(prev, url, url(batch[k])) {
      assert Merge(stored, batch, url, fails)[|prev|] == batch[k];
    }
  }

  /** `findFirst({ where: { url } })`: the first row with url `u`, if any. */
  function FindByUrl<T>(rows: seq<T>, url: T -> string, u: string): (r: Option<nat>)
    ensures r.None? <==> !UrlStored(rows, url, u)
    ensures r.Some? ==> r.value < |rows| && url(rows[r.value]) == u
  {
    FindFirst(rows, (x: T) => url(x) == u)
  }

  function GovUrl(g: GovProgram): string { g.url }
  function KoUrl(k: KoProgram): string { k.url }

  /** scheduleCrawlGov: the government programmes of one crawl, stored by the dedupe rule. */
  method ScheduleCrawlGov(db: Database, governmentData: seq<GovProgram>, fails: nat -> bool)
    requires db.Valid()
    modifies db`govPro
    ensures db.Valid()
    ensures db.govPro == Merge(old(db.govPro), governmentData, GovUrl, fails)
  {
    ghost var stored := db.govPro;
    var i := 0;
    while i < |governmentData|
      invariant 0 <= i <= |governmentData|
      invariant db.govPro == Merge(stored, governmentData[..i], GovUrl, fails)
    {
      var data := governmentData[i];
      assert governmentData[..i + 1][..i] == governmentData[..i];
      var existing := FindByUrl(db.govPro, GovUrl, data.url);
      if existing.None? && !fails(i) {
        db.govPro := db.govPro + [data];
      }
      i := i + 1;
    }
    assert governmentData[..i] == governmentData;
  }

  /** scheduleCrawlKo: the same rule for the Korean-class programmes. */
  method ScheduleCrawlKo(db: Database, koreanData: seq<KoProgram>, fails: nat -> bool)
    requires db.Valid()
    modifies db`koPro
    ensures db.Valid()
    ensures db.koPro == Merge(old(db.koPro), koreanData, KoUrl, fails)
  {
    ghost var stored := db.koPro;
    var i := 0;
    while i < |koreanData|
      invariant 0 <= i <= |koreanData|
      invariant db.koPro == Merge(stored, koreanData[..i], KoUrl, fails)
    {
      var data := koreanData[i];
      assert koreanData[..i + 1][..i] == koreanData[..i];
      var existing := FindByUrl(db.koPro, KoUrl, data.url);
      if existing.None? && !fails(i) {
        db.koPro := db.koPro + [data];
      }
      i := i + 1;
    }
    assert koreanData[..i] == koreanData;
  }
}
