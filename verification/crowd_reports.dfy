/** Crowd reports (`_CrowdReportModel` and `CrowdReport`, model.py:870-1184):
    report IDs under the reporting repository's URL, report creation, and
    the filter that hides reports on maps the current user may not view. */
module CrowdReports {
  import opened Base
  import opened JsonValue
  import Maps

  /** A geolocation, in degrees. */
  datatype GeoPt = GeoPt(lat: real, lon: real)

  /** The location stored for a report created without one. */
  const NOWHERE: GeoPt := GeoPt(90.0, 90.0)

  /** A stored report. `mapId` is "" for a report that belongs to no map;
      the vote fields hold what `UpdateScore` last wrote. */
  datatype Report = Report(
    id: string,
    source: string,
    author: string,
    effective: Time,
    submitted: Time,
    updated: Time,
    text: string,
    topicIds: seq<string>,
    answers: Json,
    location: GeoPt,
    mapId: string,
    placeId: Option<string>,
    upvoteCount: int,
    downvoteCount: int,
    score: int,
    hidden: bool,
    reviewed: bool)

  /** The decimal digit `d` as a character. */
  function DigitChar(d: nat): (c: char)
    requires d < 10
    ensures '0' <= c <= '9'
  {
    (48 + d) as char
  }

  predicate IsDigits(s: string)
  {
    forall i :: 0 <= i < |s| ==> '0' <= s[i] <= '9'
  }

  /** `str(n)` for a non-negative integer. */
  function Decimal(n: nat): (s: string)
    ensures |s| > 0 && IsDigits(s)
    decreases n
  {
    if n < 10 then [DigitChar(n)] else Decimal(n / 10) + [DigitChar(n % 10)]
  }

  /** The number a digit string denotes. */
  function DecimalValue(s: string): nat
    requires IsDigits(s)
    decreases |s|
  {
    if |s| == 0 then 0
    else DecimalValue(s[..|s| - 1]) * 10 + (s[|s| - 1] as int - 48)
  }

  /** Reading `str(n)` back gives n. */
  lemma {:induction false} DecimalRoundTrip(n: nat)
    ensures DecimalValue(Decimal(n)) == n
    decreases n
  {
    if n >= 10 {
      DecimalRoundTrip(n / 10);
      var s := Decimal(n);
      assert s[..|s| - 1] == Decimal(n / 10);
    }
  }

  /** `s.rstrip(c)`: `s` without the run of `c` at its end. */
  function RStrip(s: string, c: char): (r: string)
    ensures |r| <= |s| && r == s[..|r|]
    ensures |r| > 0 ==> r[|r| - 1] != c
    ensures forall i :: |r| <= i < |s| ==> s[i] == c
    decreases |s|
  {
    if |s| > 0 && s[|s| - 1] == c then RStrip(s[..|s| - 1], c) else s
  }

  predicate EndsWithDoubleSlash(s: string)
  {
    |s| >= 2 && s[|s| - 2] == '/' && s[|s| - 1] == '/'
  }

  const REPORTS_PATH: string := "/.reports/"

  /** `CrowdReport.GenerateId` as written: every trailing `/` of the source
      is stripped before `/.reports/<n>` is appended, where n is the
      datastore's freshly allocated ID. */
  function GenerateIdAsWritten(source: string, n: nat): string
  {
    RStrip(source, '/') + REPORTS_PATH + Decimal(n)
  }

  /** A source ending in two or more slashes loses all of them, so the ID
      generated for it does not start with the source, and `Create` as
      written rejects the ID it generated itself. */
  lemma AsWrittenIdMissesDoubleSlashSource(source: string, n: nat)
    requires EndsWithDoubleSlash(source)
    ensures !StartsWith(GenerateIdAsWritten(source, n), source)
  {
    var r := RStrip(source, '/');
    var id := GenerateIdAsWritten(source, n);
    var s1 := source[..|source| - 1];
    assert RStrip(source, '/') == RStrip(s1, '/');
    assert s1[|s1| - 1] == '/';
    assert RStrip(s1, '/') == RStrip(s1[..|s1| - 1], '/');
    assert |r| + 1 < |source|;
    assert id[|r| + 1] == '.';
    assert source[|r| + 1] == '/';
    if |source| <= |id| {
      assert id[..|source|][|r| + 1] == '.';
    }
  }

  /** The concrete instance: for source "http://example.com//" the generated
      ID is "http://example.com/.reports/1". */
  lemma AsWrittenIdExample()
    ensures GenerateIdAsWritten("http://example.com//", 1) == "http://example.com/.reports/1"
    ensures !StartsWith(GenerateIdAsWritten("http://example.com//", 1), "http://example.com//")
  {
    AsWrittenIdMissesDoubleSlashSource("http://example.com//", 1);
    assert RStrip("http://example.com//", '/') == "http://example.com";
  }

  /** `source` without one trailing `/`, if it has one. */
  function WithoutTrailingSlash(source: string): (r: string)
    ensures r == source || (|source| > 0 && source[|source| - 1] == '/' && r == source[..|source| - 1])
  {
    if |source| > 0 && source[|source| - 1] == '/' then source[..|source| - 1] else source
  }

  /** The report ID for allocated number n: the source URL without its
      final `/`, then `/.reports/<n>`. It always lies under the source. */
  function GenerateId(source: string, n: nat): (id: string)
    ensures StartsWith(id, source)
  {
    var base := WithoutTrailingSlash(source);
    var id := base + REPORTS_PATH + Decimal(n);
    assert id[..|base|] == base;
    assert id[|base|] == '/';
    id
  }

  /** Where the source does not end in `//`, the corrected ID is exactly the
      one the code as written generates. */
  lemma GenerateIdAgreesWithAsWritten(source: string, n: nat)
    requires !EndsWithDoubleSlash(source)
    ensures GenerateId(source, n) == GenerateIdAsWritten(source, n)
  {
    if |source| > 0 && source[|source| - 1] == '/' {
      var s1 := source[..|source| - 1];
      assert RStrip(source, '/') == RStrip(s1, '/');
      assert |s1| == 0 || s1[|s1| - 1] != '/';
      assert RStrip(s1, '/') == s1;
    }
  }

  /** Distinct allocated numbers give distinct report IDs. */
  lemma GenerateIdInjective(source: string, n1: nat, n2: nat)
    requires GenerateId(source, n1) == GenerateId(source, n2)
    ensures n1 == n2
  {
    var base := WithoutTrailingSlash(source) + REPORTS_PATH;
    var id1 := GenerateId(source, n1);
    var id2 := GenerateId(source, n2);
    assert id1[|base|..] == Decimal(n1);
    assert id2[|base|..] == Decimal(n2);
    DecimalRoundTrip(n1);
    DecimalRoundTrip(n2);
  }

  /** The body of `CrowdReport.Create` once the report ID is chosen: an ID
      not under `source` is a ValueError. Omitted values take their
      defaults: `submitted` the current time, `topicIds` none, `answers` an
      empty object, `location` NOWHERE. */
  function CreateWithId(reportId: string, source: string, author: string, effective: Time, text: string,
                        topicIds: seq<string>, answers: Json, location: Option<GeoPt>,
                        submitted: Option<Time>, mapId: string, placeId: Option<string>,
                        now: Instant): (r: Result<Report>)
    ensures r.Err? <==> !StartsWith(reportId, source)
    ensures r.Err? ==> r.error == ValueError
    ensures r.Ok? ==> r.value.id == reportId && StartsWith(r.value.id, source)
    ensures r.Ok? ==> r.value.source == source && r.value.author == author
                      && r.value.effective == effective && r.value.text == text
                      && r.value.topicIds == topicIds && r.value.mapId == mapId
                      && r.value.placeId == placeId && r.value.updated == now
    ensures r.Ok? ==> r.value.submitted == (if submitted.Some? then submitted.value else now)
                      && r.value.location == (if location.Some? then location.value else NOWHERE)
                      && r.value.answers == (if Truthy(answers) then answers else JObject(map[]))
    ensures r.Ok? ==> r.value.upvoteCount == 0 && r.value.downvoteCount == 0 && r.value.score == 0
                      && !r.value.hidden && !r.value.reviewed
  {
    if !StartsWith(reportId, source) then Err(ValueError)
    else
      Ok(Report(
        reportId, source, author, effective,
        if submitted.Some? then submitted.value else now, now, text, topicIds,
        if Truthy(answers) then answers else JObject(map[]),
        if location.Some? then location.value else NOWHERE,
        mapId, placeId, 0, 0, 0, false, false))
  }

  /** `CrowdReport.Create` as written: the report is stored under `id`, or
      under `GenerateIdAsWritten` when `id` is empty. `n` is the ID the
      datastore would allocate. */
  function CreateAsWritten(source: string, author: string, effective: Time, text: string,
                           topicIds: seq<string>, answers: Json, location: Option<GeoPt>,
                           submitted: Option<Time>, mapId: string, placeId: Option<string>,
                           id: string, n: nat, now: Instant): (r: Result<Report>)
    ensures r.Err? <==> !StartsWith(if id != "" then id else GenerateIdAsWritten(source, n), source)
    ensures r.Err? ==> r.error == ValueError
    ensures r.Ok? ==> r.value.id == (if id != "" then id else GenerateIdAsWritten(source, n))
  {
    var reportId := if id != "" then id else GenerateIdAsWritten(source, n);
    CreateWithId(reportId, source, author, effective, text, topicIds, answers, location,
                 submitted, mapId, placeId, now)
  }

  /** As written, a report from a source ending in `//` and given no ID is
      refused: `Create` raises ValueError on the ID it generated itself. */
  lemma CreateAsWrittenRejectsOwnId(source: string, author: string, effective: Time, text: string,
                                    topicIds: seq<string>, answers: Json, location: Option<GeoPt>,
                                    submitted: Option<Time>, mapId: string, placeId: Option<string>,
                                    n: nat, now: Instant)
    requires EndsWithDoubleSlash(source)
    ensures CreateAsWritten(source, author, effective, text, topicIds, answers, location,
                            submitted, mapId, placeId, "", n, now) == Err(ValueError)
  {
    AsWrittenIdMissesDoubleSlashSource(source, n);
  }

  /** `CrowdReport.Create` with the corrected ID generator: the report is
      stored under `id`, or under `GenerateId` when `id` is empty; only a
      given ID that is not under `source` is a ValueError, so a generated ID
      is always accepted. `n` is the ID the datastore would allocate. */
  function Create(source: string, author: string, effective: Time, text: string,
                  topicIds: seq<string>, answers: Json, location: Option<GeoPt>,
                  submitted: Option<Time>, mapId: string, placeId: Option<string>,
                  id: string, n: nat, now: Instant): (r: Result<Report>)
    ensures r.Err? <==> id != "" && !StartsWith(id, source)
    ensures r.Err? ==> r.error == ValueError
    ensures r.Ok? ==> StartsWith(r.value.id, source)
                      && r.value.id == (if id != "" then id else GenerateId(source, n))
    ensures r.Ok? ==> r.value.source == source && r.value.author == author
                      && r.value.effective == effective && r.value.text == text
                      && r.value.topicIds == topicIds && r.value.mapId == mapId
                      && r.value.placeId == placeId && r.value.updated == now
    ensures r.Ok? ==> r.value.submitted == (if submitted.Some? then submitted.value else now)
                      && r.value.location == (if location.Some? then location.value else NOWHERE)
                      && r.value.answers == (if Truthy(answers) then answers else JObject(map[]))
    ensures r.Ok? ==> r.value.upvoteCount == 0 && r.value.downvoteCount == 0 && r.value.score == 0
                      && !r.value.hidden && !r.value.reviewed
  {
    var reportId := if id != "" then id else GenerateId(source, n);
    CreateWithId(reportId, source, author, effective, text, topicIds, answers, location,
                 submitted, mapId, placeId, now)
  }

  /** The corrected `Create` differs from the one as written only for a
      source ending in `//` with no ID given. */
  lemma CreateAgreesWithAsWritten(source: string, author: string, effective: Time, text: string,
                                  topicIds: seq<string>, answers: Json, location: Option<GeoPt>,
                                  submitted: Option<Time>, mapId: string, placeId: Option<string>,
                                  id: string, n: nat, now: Instant)
    requires id != "" || !EndsWithDoubleSlash(source)
    ensures Create(source, author, effective, text, topicIds, answers, location, submitted, mapId, placeId, id, n, now)
            == CreateAsWritten(source, author, effective, text, topicIds, answers, location, submitted, mapId, placeId, id, n, now)
  {
    if id == "" {
      GenerateIdAgreesWithAsWritten(source, n);
    }
  }

  /** `bool(Map.Get(map_id))` with AuthorizationError read as False: the map
      exists, is not deleted, and the user may view it (or it is the empty
      map). */
  function MapViewable(store: Maps.MapStore, mapId: string, canView: Maps.MapRecord -> bool): (b: bool)
    ensures b <==> mapId == Maps.EMPTY_MAP_ID
                   || (mapId in store && !Maps.IsDeleted(store[mapId]) && canView(store[mapId]))
  {
    match Maps.Get(store, mapId, canView)
    case Ok(Some(_)) => true
    case Ok(None) => false
    case Err(_) => false
  }

  /** Whether `_FilterReports` yields an entity: it exists, and it belongs
      to no map or to a viewable one. */
  predicate Keep(e: Option<Report>, store: Maps.MapStore, canView: Maps.MapRecord -> bool)
  {
    e.Some? && (e.value.mapId == "" || MapViewable(store, e.value.mapId, canView))
  }

  /** `_FilterReports`, without its cache: the kept entities, in order. */
  function FilterReports(entities: seq<Option<Report>>, store: Maps.MapStore,
                         canView: Maps.MapRecord -> bool): (r: seq<Report>)
    ensures |r| <= |entities|
    decreases |entities|
  {
    if |entities| == 0 then []
    else
      var init := FilterReports(entities[..|entities| - 1], store, canView);
      var last := entities[|entities| - 1];
      if Keep(last, store, canView) then init + [last.value] else init
  }

  /** Filtering distributes over concatenation, so the output keeps the
      input's order. */
  lemma {:induction false} FilterReportsAppend(a: seq<Option<Report>>, b: seq<Option<Report>>,
                                                store: Maps.MapStore, canView: Maps.MapRecord -> bool)
    ensures FilterReports(a + b, store, canView) == FilterReports(a, store, canView) + FilterReports(b, store, canView)
    decreases |b|
  {
    if |b| == 0 {
      assert a + b == a;
    } else {
      var bi := b[..|b| - 1];
      FilterReportsAppend(a, bi, store, canView);
      assert (a + b)[..|a + b| - 1] == a + bi;
    }
  }

  /** A report is yielded exactly when some entity is that report and is
      kept. */
  lemma {:induction false} FilterReportsMembership(entities: seq<Option<Report>>, store: Maps.MapStore,
                                                    canView: Maps.MapRecord -> bool, x: Report)
    ensures x in FilterReports(entities, store, canView) <==>
              exists i :: 0 <= i < |entities| && entities[i] == Some(x) && Keep(entities[i], store, canView)
    decreases |entities|
  {
    if |entities| > 0 {
      var init := entities[..|entities| - 1];
      FilterReportsMembership(init, store, canView, x);
      if x in FilterReports(init, store, canView) {
        var i :| 0 <= i < |init| && init[i] == Some(x) && Keep(init[i], store, canView);
        assert entities[i] == init[i];
      }
      if exists i :: 0 <= i < |entities| && entities[i] == Some(x) && Keep(entities[i], store, canView) {
        var i :| 0 <= i < |entities| && entities[i] == Some(x) && Keep(entities[i], store, canView);
        if i < |init| {
          assert init[i] == entities[i];
        }
      }
    }
  }

  /** `_FilterReports` as the code runs it: one pass, remembering each map's
      viewability the first time a report on that map asks. The memo does
      not change the result. */
  method FilterReportsCached(entities: seq<Option<Report>>, store: Maps.MapStore,
                             canView: Maps.MapRecord -> bool) returns (out: seq<Report>)
    ensures out == FilterReports(entities, store, canView)
  {
    var viewable: map<string, bool> := map[];
    out := [];
    var i := 0;
    while i < |entities|
      invariant 0 <= i <= |entities|
      invariant out == FilterReports(entities[..i], store, canView)
      invariant forall id :: id in viewable ==> viewable[id] == MapViewable(store, id, canView)
    {
      var e := entities[i];
      if e.Some? {
        var keep := e.value.mapId == "";
        if !keep {
          if e.value.mapId !in viewable {
            viewable := viewable[e.value.mapId := MapViewable(store, e.value.mapId, canView)];
          }
          keep := viewable[e.value.mapId];
        }
        if keep {
          out := out + [e.value];
        }
      }
      assert entities[..i + 1][..i] == entities[..i];
      i := i + 1;
    }
    assert entities[..|entities|] == entities;
  }
}
