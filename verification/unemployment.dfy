/**
 The economic-data cache: `_get_df` downloads a series only when its local
 file is missing or older than the expiry age, overwrites that one file,
 and always answers with the file's content; `get_unemployment` reads four
 series this way and scales the employment level from thousands of persons
 to persons.

 The file system is a map from file name to content and modification time.
 The clock reading and the network are parameters: `net(url)` is what a
 download of `url` would return at that moment.
 */
module Unemployment {
  import opened Wrappers

  /** A cached payload and the time its file was last written, in seconds. */
  datatype CachedFile<C> = CachedFile(content: C, mtime: real)

  type Cache<C> = map<string, CachedFile<C>>

  /** A download that raised: nothing is written and the error propagates. */
  datatype NetError = DownloadFailed(url: string)

  /** `None` when downloading the URL raises. */
  type Network<C> = string -> Option<C>

  /** `expiry_age = 60*60*24`: one day, in seconds. */
  const DefaultExpiryAge: real := (60 * 60 * 24) as real

  /**
   One call of `_get_df`: the cache afterwards, the answer, and whether the
   network was used.
   */
  datatype Fetch<C> = Fetch(cache: Cache<C>, result: Result<C, NetError>, downloaded: bool)

  /** `_get_df(url, local_fn, expiry_age)` at time `now`. */
  function GetDf<C>(cache: Cache<C>, url: string, fileName: string, now: real, expiryAge: real, net: Network<C>): (o: Fetch<C>)
    ensures o.downloaded <==> fileName !in cache || now - cache[fileName].mtime > expiryAge
    ensures !o.downloaded ==> o.cache == cache && o.result == Success(cache[fileName].content)
    ensures o.downloaded && net(url).Some? ==>
              o.cache == cache[fileName := CachedFile(net(url).value, now)] && o.result == Success(net(url).value)
    ensures o.downloaded && net(url).None? ==> o.cache == cache && o.result == Failure(DownloadFailed(url))
    ensures o.result.Success? ==> fileName in o.cache && o.result.value == o.cache[fileName].content
    ensures forall f :: f != fileName ==> (f in o.cache <==> f in cache) && (f in cache ==> o.cache[f] == cache[f])
  {
    var doUpdate := fileName !in cache || now - cache[fileName].mtime > expiryAge;
    if !doUpdate then
      Fetch(cache, Success(cache[fileName].content), false)
    else
      match net(url)
      case None => Fetch(cache, Failure(DownloadFailed(url)), true)
      case Some(data) =>
        var written := cache[fileName := CachedFile(data, now)];
        Fetch(written, Success(written[fileName].content), true)
  }

  /** `_get_df(url, local_fn)` with the default expiry age of one day. */
  function GetDfDaily<C>(cache: Cache<C>, url: string, fileName: string, now: real, net: Network<C>): (o: Fetch<C>)
    ensures o.downloaded <==> fileName !in cache || now - cache[fileName].mtime > 86400.0
  {
    GetDf(cache, url, fileName, now, DefaultExpiryAge, net)
  }

  /**
   A file exactly `expiryAge` old, or with a modification time in the
   future, is still fresh: no download, and the cache is untouched.
   */
  lemma BoundaryIsFresh<C>(cache: Cache<C>, url: string, fileName: string, now: real, expiryAge: real, net: Network<C>)
    requires fileName in cache && expiryAge >= 0.0
    requires now - cache[fileName].mtime == expiryAge || now < cache[fileName].mtime
    ensures !GetDf(cache, url, fileName, now, expiryAge, net).downloaded
    ensures GetDf(cache, url, fileName, now, expiryAge, net).cache == cache
  {
  }

  /**
   After a successful download, asking again within the expiry age uses no
   network, changes nothing and gives the same answer, whatever the network
   would now return.
   */
  lemma RefetchWithinExpiryIsCached<C>(cache: Cache<C>, url: string, fileName: string, now: real, later: real,
                                      expiryAge: real, net: Network<C>, net2: Network<C>)
    requires fileName !in cache || now - cache[fileName].mtime > expiryAge
    requires net(url).Some?
    requires now <= later <= now + expiryAge
    ensures var first := GetDf(cache, url, fileName, now, expiryAge, net);
            var second := GetDf(first.cache, url, fileName, later, expiryAge, net2);
            !second.downloaded && second.cache == first.cache && second.result == first.result
  {
  }

  /** One observation of a FRED series: its date and value. */
  datatype Observation = Observation(date: string, value: real)

  /** The data frame `pd.read_csv` makes of a cached series file. */
  type Frame = seq<Observation>

  /** Multiplies every value of a series by `factor`, keeping dates and order. */
  function ScaleValues(f: Frame, factor: real): (r: Frame)
    ensures |r| == |f|
    ensures forall i :: 0 <= i < |r| ==> r[i].date == f[i].date && r[i].value == f[i].value * factor
  {
    if |f| == 0 then [] else [Observation(f[0].date, f[0].value * factor)] + ScaleValues(f[1..], factor)
  }

  /** Scaling by a non-zero factor is undone by scaling with its inverse. */
  lemma ScaleInverse(f: Frame, factor: real)
    requires factor != 0.0
    ensures ScaleValues(ScaleValues(f, factor), 1.0 / factor) == f
  {
    var inv := 1.0 / factor;
    assert factor * inv == 1.0;
    var g := ScaleValues(ScaleValues(f, factor), inv);
    forall i | 0 <= i < |f|
      ensures g[i] == f[i]
    {
      calc {
        g[i].value;
        (f[i].value * factor) * inv;
        f[i].value * (factor * inv);
        f[i].value;
      }
    }
  }

  const NewClaimsUrl := "https://fred.stlouisfed.org/graph/fredgraph.csv?id=ICSA"
  const ContinuingClaimsUrl := "https://fred.stlouisfed.org/graph/fredgraph.csv?id=CCSA"
  const EmploymentLevelUrl := "https://fred.stlouisfed.org/graph/fredgraph.csv?id=LNU02000000"
  const UnemploymentUrl := "https://fred.stlouisfed.org/graph/fredgraph.csv?id=UNRATE"

  const NewClaimsFile := "new_claims.csv"
  const ContinuingClaimsFile := "continuing_claims.csv"
  const EmploymentLevelFile := "employment_level.csv"
  const UnemploymentFile := "unemployment.csv"

  /** The employment level is published in thousands of persons. */
  const EmploymentScale: real := 1000.0

  /** The four series, in the order `get_unemployment` returns them. */
  datatype Series = Series(newClaims: Frame, continuingClaims: Frame, employmentLevel: Frame, unemploymentRate: Frame)

  predicate IsSeriesFile(f: string) {
    f == NewClaimsFile || f == ContinuingClaimsFile || f == EmploymentLevelFile || f == UnemploymentFile
  }

  /** The four series `get_unemployment` reads. */
  datatype SeriesId = NewClaims | ContinuingClaims | EmploymentLevel | UnemploymentRate

  function UrlOf(s: SeriesId): string {
    match s
    case NewClaims => NewClaimsUrl
    case ContinuingClaims => ContinuingClaimsUrl
    case EmploymentLevel => EmploymentLevelUrl
    case UnemploymentRate => UnemploymentUrl
  }

  function FileOf(s: SeriesId): string {
    match s
    case NewClaims => NewClaimsFile
    case ContinuingClaims => ContinuingClaimsFile
    case EmploymentLevel => EmploymentLevelFile
    case UnemploymentRate => UnemploymentFile
  }

  /** The order of `get_unemployment`'s four `_get_df` calls. */
  const CallOrder: seq<SeriesId> := [NewClaims, ContinuingClaims, EmploymentLevel, UnemploymentRate]

  predicate FreshFile<C>(cache: Cache<C>, f: string, now: real) {
    f in cache && now - cache[f].mtime <= DefaultExpiryAge
  }

  /** The series' file needs a download, and the download would raise. */
  predicate DownloadFails<C>(cache: Cache<C>, s: SeriesId, now: real, net: Network<C>) {
    !FreshFile(cache, FileOf(s), now) && net(UrlOf(s)).None?
  }

  /** What the file system holds under a name: `None` when the file does not exist. */
  function FileState<C>(cache: Cache<C>, f: string): Option<CachedFile<C>> {
    if f in cache then Some(cache[f]) else None
  }

  /**
   The daily freshness rule for one series, stated on its own: a fresh file
   stays; a stale or absent one is replaced by the download stamped `now`,
   or stays as it was when the download raises.
   */
  function Expected<C>(cache: Cache<C>, s: SeriesId, now: real, net: Network<C>): Option<CachedFile<C>> {
    var f := FileOf(s);
    if FreshFile(cache, f, now) then FileState(cache, f)
    else match net(UrlOf(s))
      case None => FileState(cache, f)
      case Some(data) => Some(CachedFile(data, now))
  }

  /** The file `f` exists and holds `v`. */
  ghost predicate ContentIs<C>(cache: Cache<C>, f: string, v: C) {
    f in cache && cache[f].content == v
  }

  /** `ids` names the file `f`. */
  predicate NamesFile(ids: seq<SeriesId>, f: string) {
    exists i :: 0 <= i < |ids| && FileOf(ids[i]) == f
  }

  /** No two series of `ids` share a file. */
  predicate DistinctFiles(ids: seq<SeriesId>) {
    forall i, j :: 0 <= i < j < |ids| ==> FileOf(ids[i]) != FileOf(ids[j])
  }

  /**
   Series `ids[i]` is the first whose download fails: those before it were
   fetched by the daily rule, and its file and those after it are as in
   `before`.
   */
  ghost predicate FailsFirstAt<C>(after: Cache<C>, before: Cache<C>, start: Cache<C>, ids: seq<SeriesId>, i: int,
                                  now: real, net: Network<C>) {
    && 0 <= i < |ids|
    && DownloadFails(start, ids[i], now, net)
    && (forall j :: 0 <= j < i ==>
          !DownloadFails(start, ids[j], now, net) && FileState(after, FileOf(ids[j])) == Expected(start, ids[j], now, net))
    && (forall j :: i <= j < |ids| ==> FileState(after, FileOf(ids[j])) == FileState(before, FileOf(ids[j])))
  }

  /** The cache afterwards and the frames read, in call order, or the first error. */
  datatype Chain = Chain(cache: Cache<Frame>, result: Result<seq<Frame>, NetError>)

  /**
   `_get_df` for each series of `ids` in turn, stopping at the first that
   raises. `cur` is the cache so far; `start` the cache before the first
   call, on which each remaining series' file is still unchanged.
   */
  function ReadAll(start: Cache<Frame>, cur: Cache<Frame>, ids: seq<SeriesId>, now: real, net: Network<Frame>): (o: Chain)
    requires DistinctFiles(ids)
    requires forall i :: 0 <= i < |ids| ==> FileState(cur, FileOf(ids[i])) == FileState(start, FileOf(ids[i]))
    ensures o.result.Failure? <==> exists i :: 0 <= i < |ids| && DownloadFails(start, ids[i], now, net)
    ensures o.result.Failure? ==>
              exists i :: FailsFirstAt(o.cache, cur, start, ids, i, now, net) && o.result.error == DownloadFailed(UrlOf(ids[i]))
    ensures o.result.Success? ==>
              |o.result.value| == |ids| &&
              forall i :: 0 <= i < |ids| ==>
                FileState(o.cache, FileOf(ids[i])) == Expected(start, ids[i], now, net) && ContentIs(o.cache, FileOf(ids[i]), o.result.value[i])
    ensures forall f :: !NamesFile(ids, f) ==> FileState(o.cache, f) == FileState(cur, f)
    decreases |ids|
  {
    if |ids| == 0 then Chain(cur, Success([]))
    else
      var x := GetDfDaily(cur, UrlOf(ids[0]), FileOf(ids[0]), now, net);
      StepFacts(start, cur, ids[0], now, net);
      if x.result.Failure? then
        assert FailsFirstAt(x.cache, cur, start, ids, 0, now, net);
        Chain(x.cache, Failure(x.result.error))
      else
        var tail := ids[1..];
        assert forall i :: 0 <= i < |tail| ==> tail[i] == ids[i + 1];
        var rest := ReadAll(start, x.cache, tail, now, net);
        OtherFilesStep(cur, x.cache, rest.cache, ids);
        if rest.result.Failure? then
          FailureStep(start, cur, x.cache, rest, ids, now, net);
          rest
        else
          SuccessStep(start, x, rest, ids, now, net);
          Chain(rest.cache, Success([x.result.value] + rest.result.value))
  }

  /** Files named by none of `ids` keep their state across the first call and the rest. */
  lemma OtherFilesStep(cur: Cache<Frame>, mid: Cache<Frame>, after: Cache<Frame>, ids: seq<SeriesId>)
    requires |ids| > 0 && DistinctFiles(ids)
    requires forall f :: f != FileOf(ids[0]) ==> FileState(mid, f) == FileState(cur, f)
    requires forall f :: !NamesFile(ids[1..], f) ==> FileState(after, f) == FileState(mid, f)
    ensures forall f :: !NamesFile(ids, f) ==> FileState(after, f) == FileState(cur, f)
  {
    var tail := ids[1..];
    forall f | !NamesFile(ids, f)
      ensures FileState(after, f) == FileState(cur, f)
    {
      forall i | 0 <= i < |tail|
        ensures FileOf(tail[i]) != f
      {
        assert tail[i] == ids[i + 1];
        assert FileOf(ids[i + 1]) != f;
      }
      assert FileOf(ids[0]) != f;
    }
  }

  /** A failure among the later series is the first failure of the whole chain. */
  lemma FailureStep(start: Cache<Frame>, cur: Cache<Frame>, mid: Cache<Frame>, rest: Chain, ids: seq<SeriesId>,
                    now: real, net: Network<Frame>)
    requires |ids| > 0 && DistinctFiles(ids)
    requires !DownloadFails(start, ids[0], now, net)
    requires FileState(mid, FileOf(ids[0])) == Expected(start, ids[0], now, net)
    requires forall f :: f != FileOf(ids[0]) ==> FileState(mid, f) == FileState(cur, f)
    requires rest.result.Failure?
    requires exists i :: FailsFirstAt(rest.cache, mid, start, ids[1..], i, now, net) && rest.result.error == DownloadFailed(UrlOf(ids[1..][i]))
    requires forall f :: !NamesFile(ids[1..], f) ==> FileState(rest.cache, f) == FileState(mid, f)
    ensures exists i :: 0 <= i < |ids| && DownloadFails(start, ids[i], now, net)
    ensures exists i :: FailsFirstAt(rest.cache, cur, start, ids, i, now, net) && rest.result.error == DownloadFailed(UrlOf(ids[i]))
  {
    var tail := ids[1..];
    var i :| FailsFirstAt(rest.cache, mid, start, tail, i, now, net) && rest.result.error == DownloadFailed(UrlOf(tail[i]));
    assert tail[i] == ids[i + 1];
    var f0 := FileOf(ids[0]);
    forall k | 0 <= k < |tail|
      ensures FileOf(tail[k]) != f0
    {
      assert tail[k] == ids[k + 1];
    }
    assert !NamesFile(tail, f0);
    forall j | 0 <= j < i + 1
      ensures !DownloadFails(start, ids[j], now, net) && FileState(rest.cache, FileOf(ids[j])) == Expected(start, ids[j], now, net)
    {
      if j > 0 {
        assert ids[j] == tail[j - 1];
      }
    }
    forall j | i + 1 <= j < |ids|
      ensures FileState(rest.cache, FileOf(ids[j])) == FileState(cur, FileOf(ids[j]))
    {
      assert ids[j] == tail[j - 1];
      assert FileOf(ids[j]) != f0;
    }
    assert FailsFirstAt(rest.cache, cur, start, ids, i + 1, now, net);
  }

  /** The first call's frame in front of the rest's frames, each matching its file. */
  lemma SuccessStep(start: Cache<Frame>, x: Fetch<Frame>, rest: Chain, ids: seq<SeriesId>, now: real, net: Network<Frame>)
    requires |ids| > 0 && DistinctFiles(ids)
    requires x.result.Success?
    requires FileState(x.cache, FileOf(ids[0])) == Expected(start, ids[0], now, net) && ContentIs(x.cache, FileOf(ids[0]), x.result.value)
    requires rest.result.Success?
    requires var tail := ids[1..];
             |rest.result.value| == |tail| &&
             forall i :: 0 <= i < |tail| ==>
               FileState(rest.cache, FileOf(tail[i])) == Expected(start, tail[i], now, net) && ContentIs(rest.cache, FileOf(tail[i]), rest.result.value[i])
    requires forall f :: !NamesFile(ids[1..], f) ==> FileState(rest.cache, f) == FileState(x.cache, f)
    ensures var v := [x.result.value] + rest.result.value;
            |v| == |ids| &&
            forall i :: 0 <= i < |ids| ==>
              FileState(rest.cache, FileOf(ids[i])) == Expected(start, ids[i], now, net) && ContentIs(rest.cache, FileOf(ids[i]), v[i])
  {
    var tail := ids[1..];
    var f0 := FileOf(ids[0]);
    forall k | 0 <= k < |tail|
      ensures FileOf(tail[k]) != f0
    {
      assert tail[k] == ids[k + 1];
    }
    assert !NamesFile(tail, f0);
    var v := [x.result.value] + rest.result.value;
    forall i | 0 <= i < |ids|
      ensures FileState(rest.cache, FileOf(ids[i])) == Expected(start, ids[i], now, net) && ContentIs(rest.cache, FileOf(ids[i]), v[i])
    {
      if i > 0 {
        assert ids[i] == tail[i - 1] && v[i] == rest.result.value[i - 1];
      }
    }
  }

  /**
   One `_get_df` call made on a cache whose file for `s` is still as it was
   at the start: it fails exactly when `s`'s download fails judged on the
   starting cache, leaves `s`'s file as the daily rule says, answers with
   that file's content, and touches no other file.
   */
  lemma StepFacts<C>(start: Cache<C>, cur: Cache<C>, s: SeriesId, now: real, net: Network<C>)
    requires FileState(cur, FileOf(s)) == FileState(start, FileOf(s))
    ensures var x := GetDfDaily(cur, UrlOf(s), FileOf(s), now, net);
            && (x.result.Failure? <==> DownloadFails(start, s, now, net))
            && (x.result.Failure? ==> x.result.error == DownloadFailed(UrlOf(s)))
            && FileState(x.cache, FileOf(s)) == Expected(start, s, now, net)
            && (x.result.Success? ==> ContentIs(x.cache, FileOf(s), x.result.value))
            && forall f :: f != FileOf(s) ==> FileState(x.cache, f) == FileState(cur, f)
  {
  }

  /** The daily rule is exactly what `_get_df` does to the series' file. */
  lemma ExpectedIsGetDf<C>(cache: Cache<C>, s: SeriesId, now: real, net: Network<C>)
    ensures Expected(cache, s, now, net) == FileState(GetDfDaily(cache, UrlOf(s), FileOf(s), now, net).cache, FileOf(s))
  {
    StepFacts(cache, cache, s, now, net);
  }

  /** `get_unemployment`'s cache afterwards and its answer. */
  datatype Report = Report(cache: Cache<Frame>, result: Result<Series, NetError>)

  /**
   `get_unemployment` at time `now`: the four `_get_df` calls in order, the
   first raise propagating. Only the employment level is scaled, and only in
   the answer, not in its file; as scaling is pure, the model applies it
   after the fourth call rather than between the third and the fourth.
   Files refreshed before a failed download stay refreshed. The call fails
   exactly when some series' file is stale or absent and its download
   raises; the error names the first such series in call order.
   */
  function GetUnemployment(cache: Cache<Frame>, now: real, net: Network<Frame>): (o: Report)
    ensures o.result.Failure? <==> exists i :: 0 <= i < 4 && DownloadFails(cache, CallOrder[i], now, net)
    ensures o.result.Failure? ==>
              exists i :: FailsFirstAt(o.cache, cache, cache, CallOrder, i, now, net) && o.result.error == DownloadFailed(UrlOf(CallOrder[i]))
    ensures o.result.Success? ==>
              forall j :: 0 <= j < 4 ==> FileState(o.cache, FileOf(CallOrder[j])) == Expected(cache, CallOrder[j], now, net)
    ensures o.result.Success? ==>
              && NewClaimsFile in o.cache && ContinuingClaimsFile in o.cache
              && EmploymentLevelFile in o.cache && UnemploymentFile in o.cache
              && o.result.value.newClaims == o.cache[NewClaimsFile].content
              && o.result.value.continuingClaims == o.cache[ContinuingClaimsFile].content
              && o.result.value.employmentLevel == ScaleValues(o.cache[EmploymentLevelFile].content, EmploymentScale)
              && o.result.value.unemploymentRate == o.cache[UnemploymentFile].content
    ensures forall f :: !IsSeriesFile(f) ==> FileState(o.cache, f) == FileState(cache, f)
  {
    CallOrderFacts();
    var ch := ReadAll(cache, cache, CallOrder, now, net);
    match ch.result
    case Failure(e) => Report(ch.cache, Failure(e))
    case Success(v) =>
      Report(ch.cache, Success(Series(v[0], v[1], ScaleValues(v[2], EmploymentScale), v[3])))
  }

  lemma CallOrderFacts()
    ensures |CallOrder| == 4 && DistinctFiles(CallOrder)
    ensures FileOf(CallOrder[0]) == NewClaimsFile && FileOf(CallOrder[1]) == ContinuingClaimsFile
    ensures FileOf(CallOrder[2]) == EmploymentLevelFile && FileOf(CallOrder[3]) == UnemploymentFile
    ensures forall f :: NamesFile(CallOrder, f) <==> IsSeriesFile(f)
  {
    forall f | IsSeriesFile(f)
      ensures NamesFile(CallOrder, f)
    {
      if f == NewClaimsFile { assert FileOf(CallOrder[0]) == f; }
      else if f == ContinuingClaimsFile { assert FileOf(CallOrder[1]) == f; }
      else if f == EmploymentLevelFile { assert FileOf(CallOrder[2]) == f; }
      else { assert FileOf(CallOrder[3]) == f; }
    }
  }

  /**
   When all four files are fresh, nothing is downloaded or written and the
   answer is the cached content, with only the employment level scaled.
   */
  lemma AllFreshReadsCache(cache: Cache<Frame>, now: real, net: Network<Frame>)
    requires FreshFile(cache, NewClaimsFile, now) && FreshFile(cache, ContinuingClaimsFile, now)
    requires FreshFile(cache, EmploymentLevelFile, now) && FreshFile(cache, UnemploymentFile, now)
    ensures GetUnemployment(cache, now, net) ==
              Report(cache, Success(Series(cache[NewClaimsFile].content, cache[ContinuingClaimsFile].content,
                                           ScaleValues(cache[EmploymentLevelFile].content, EmploymentScale),
                                           cache[UnemploymentFile].content)))
  {
    CallOrderFacts();
    var o := GetUnemployment(cache, now, net);
    forall i | 0 <= i < 4
      ensures !DownloadFails(cache, CallOrder[i], now, net)
      ensures Expected(cache, CallOrder[i], now, net) == FileState(cache, FileOf(CallOrder[i]))
    {
    }
    forall f
      ensures FileState(o.cache, f) == FileState(cache, f)
    {
      if IsSeriesFile(f) {
        var i :| 0 <= i < 4 && FileOf(CallOrder[i]) == f;
      }
    }
    SameFilesSameCache(o.cache, cache);
  }

  lemma SameFilesSameCache<C>(a: Cache<C>, b: Cache<C>)
    requires forall f :: FileState(a, f) == FileState(b, f)
    ensures a == b
  {
    assert forall f :: f in a <==> FileState(a, f).Some?;
    assert a.Keys == b.Keys;
  }
}
