/** CustomReportStorageWebExtension: the report storage the Report Designer and Viewer consult.
    Reports live in two tiers: the persisted `Reports` table of the database context, and the
    read-only predefined catalog (ReportsFactory.Reports), whose entries stand here for the
    layout that invoking the factory and calling SaveLayoutToXml produces. */
module ReportStorage {
  import opened Outcomes
  import opened FileNames
  import opened Enumerables
  import opened ReportTable

  /** The predefined catalog: report name to its serialised layout. */
  type Catalog = map<string, Bytes>

  /** A URL is valid when it is its own file name, that is, when it holds no directory
      separator; this rejects every relative or nested path. */
  function IsValidUrl(url: string): (valid: bool)
    ensures valid <==> forall i :: 0 <= i < |url| ==> url[i] !in Separators
  {
    GetFileNameFixed(url);
    GetFileName(url) == url
  }

  /** Any name with a directory separator in it is rejected, wherever the separator stands. */
  lemma SeparatorRejected(prefix: string, sep: char, suffix: string)
    requires sep in Separators
    ensures !IsValidUrl(prefix + [sep] + suffix)
  {
    var url := prefix + [sep] + suffix;
    assert url[|prefix|] == sep;
  }

  /** The traversal attempt `../x` is refused. */
  lemma ParentTraversalRejected()
    ensures !IsValidUrl("../x")
  {
    assert "../x" == ".." + ['/'] + "x";
    SeparatorRejected("..", '/', "x");
  }

  /** A nested name `a\\b` is refused. */
  lemma NestedNameRejected()
    ensures !IsValidUrl("a\\b")
  {
    assert "a\\b" == "a" + ['\\'] + "b";
    SeparatorRejected("a", '\\', "b");
  }

  /** A name made of dots alone holds no separator, so the file-name test lets it through;
      so does the empty name. */
  lemma DotNamesAccepted()
    ensures IsValidUrl("..") && IsValidUrl(".") && IsValidUrl("")
  {
  }

  /** Every valid URL may be written: no report is read-only. */
  function CanSetData(url: string): (allowed: bool)
    ensures allowed
  {
    true
  }

  /** The fault GetData raises when neither tier holds `url`. */
  function NotFound(url: string): Fault {
    FaultException("Could not find report '" + url + "'.")
  }

  /** The layout stored under `url`: the first persisted row named `url` wins, then the
      predefined catalog, else a not-found fault naming `url`. */
  function GetData(reports: Table, predefined: Catalog, url: string): (r: Result<Bytes, Fault>)
    ensures r.Success? <==> url in NameSet(reports) || url in predefined
    ensures forall i | IsFirstNamed(reports, url, i) :: r == Success(reports[i].layoutData)
    ensures url !in NameSet(reports) && url in predefined ==> r == Success(predefined[url])
    ensures url !in NameSet(reports) && url !in predefined ==> r == Failure(NotFound(url))
  {
    match FirstOrDefault(reports, url)
    case Some(i) =>
      Success(reports[i].layoutData)
    case None =>
      if url in predefined then Success(predefined[url]) else Failure(NotFound(url))
  }

  /** A persisted row shadows a predefined report of the same name. */
  lemma PersistedShadowsPredefined(reports: Table, predefined: Catalog, url: string, i: nat)
    requires UniqueNames(reports) && i < |reports| && reports[i].name == url
    ensures GetData(reports, predefined, url) == Success(reports[i].layoutData)
  {
  }

  /** The names the designer lists: the persisted names united with the predefined names,
      each mapped to itself. ToDictionary would fail on a repeated key; the union has none. */
  ghost function GetUrls(reports: Table, predefined: Catalog): (r: Result<map<string, string>, Fault>)
    ensures r.Success?
    ensures r.value.Keys == NameSet(reports) + predefined.Keys
    ensures forall url | url in r.value :: r.value[url] == url
  {
    var names := Union(Names(reports), Enumerate(predefined.Keys));
    var r := ToDictionary(names);
    assert r.Success? && r.value.Keys == NameSet(reports) + predefined.Keys by {
      forall n | n in NameSet(reports) ensures n in Names(reports) {
        var i :| 0 <= i < |reports| && reports[i].name == n;
        assert Names(reports)[i] == n;
      }
    }
    r
  }

  /** After SetData(report, url), GetData(url) yields exactly the layout just stored. */
  lemma SetDataRoundTrip(reports: Table, predefined: Catalog, url: string, layout: Bytes)
    ensures GetData(Upsert(reports, url, layout), predefined, url) == Success(layout)
  {
  }

  /** SetData(report, url) leaves what GetData returns for every other name unchanged. */
  lemma SetDataKeepsOthers(reports: Table, predefined: Catalog, url: string, layout: Bytes, other: string)
    requires other != url
    ensures GetData(Upsert(reports, url, layout), predefined, other) == GetData(reports, predefined, other)
  {
  }

  /** SetData(report, url) adds `url` to the listing and nothing else. */
  lemma SetDataListsUrl(reports: Table, predefined: Catalog, url: string, layout: Bytes)
    ensures GetUrls(Upsert(reports, url, layout), predefined).value.Keys
         == GetUrls(reports, predefined).value.Keys + {url}
  {
    UpsertNames(reports, url, layout);
  }

  /** Saving the same name twice from a table without it leaves one row for it, holding the
      second layout. */
  lemma SetDataTwiceOneRow(reports: Table, predefined: Catalog, url: string, first: Bytes, second: Bytes)
    requires url !in NameSet(reports)
    ensures CountNamed(Upsert(Upsert(reports, url, first), url, second), url) == 1
    ensures GetData(Upsert(Upsert(reports, url, first), url, second), predefined, url) == Success(second)
  {
    UpsertTwice(reports, url, first, second);
    UpsertCount(reports, url, second);
    SetDataRoundTrip(reports, predefined, url, second);
  }

  /** The storage registered for the reporting controls, over report objects of type R. */
  class CustomReportStorageWebExtension<R> {
    /** DbContext.Reports as of the last SaveChanges. */
    var reports: Table
    /** ReportsFactory.Reports, each factory already serialised. */
    const predefined: Catalog
    /** XtraReport.SaveLayoutToXml. */
    const saveLayout: R -> Bytes

    constructor (dbReports: Table, predefined: Catalog, saveLayout: R -> Bytes)
      ensures reports == dbReports && this.predefined == predefined && this.saveLayout == saveLayout
    {
      reports := dbReports;
      this.predefined := predefined;
      this.saveLayout := saveLayout;
    }

    /** Serialises `report` and stores it under `url`: a new row named and displayed as `url`
        when the table has none, otherwise only the layout of the existing row is replaced. */
    method SetData(report: R, url: string)
      modifies this
      ensures reports == Upsert(old(reports), url, saveLayout(report))
      ensures GetData(reports, predefined, url) == Success(saveLayout(report))
      ensures CountNamed(reports, url) == if url in NameSet(old(reports)) then CountNamed(old(reports), url) else 1
      ensures UniqueNames(old(reports)) ==> UniqueNames(reports)
    {
      var layout := saveLayout(report);
      var reportData := FirstOrDefault(reports, url);
      ghost var before := reports;
      if reportData.None? {
        reports := reports + [ReportItem(url, url, layout)];
      } else {
        var i := reportData.value;
        reports := reports[i := reports[i].(layoutData := layout)];
      }
      SetDataRoundTrip(before, predefined, url, layout);
      UpsertCount(before, url, layout);
      if UniqueNames(before) {
        UpsertUnique(before, url, layout);
      }
    }

    /** Stores `report` under `defaultUrl` exactly as SetData does and returns that name. */
    method SetNewData(report: R, defaultUrl: string) returns (url: string)
      modifies this
      ensures url == defaultUrl
      ensures reports == Upsert(old(reports), defaultUrl, saveLayout(report))
      ensures GetData(reports, predefined, url) == Success(saveLayout(report))
    {
      SetData(report, defaultUrl);
      url := defaultUrl;
    }
  }
}
