/**
  Loading the policy spreadsheet: the sheet URL is rewritten into its CSV-export form
  and fetched; an empty URL loads nothing and a failed fetch loads the empty text.
 */
module Sheet {
  import opened PyStr
  import opened Wrappers

  /** The fragment of an interactive edit-view URL. */
  const EditFragment: string := "/edit#gid="
  /** What the edit-view fragment is rewritten to. */
  const ExportQuery: string := "/export?format=csv&gid="
  /** The marker whose presence means the URL is already an export URL. */
  const CsvMarker: string := "export?format=csv"
  /** Appended to a URL that has no export marker. */
  const CsvSuffix: string := "/export?format=csv"
  /** Prefix of the banner shown when fetching the sheet fails. */
  const LoadErrorPrefix: string := "구글 시트를 읽는 데 실패했습니다: "

  /**
    The URL rewrite of `load_gsheet_data`, for a non-empty URL. Whichever branch is
    taken, the result carries the export marker, and no edit-view fragment survives the
    rewrite or is created by it.
   */
  function CsvUrl(url: string): (r: string)
    ensures Contains(r, CsvMarker)
    ensures !Contains(r, EditFragment)
  {
    var csv := if Contains(url, "edit") then Replace(url, EditFragment, ExportQuery) else url;
    RewrittenHasNoFragment(url);
    if Contains(csv, CsvMarker) then csv
    else
      SuffixedIsExport(csv);
      RStrip(csv, '/') + CsvSuffix
  }

  /** The shape of the edit-view fragment: `/` only at its start, "edit" right after it. */
  lemma FragmentShape()
    ensures |EditFragment| == 10 && EditFragment[0] == '/'
    ensures forall j :: 1 <= j < |EditFragment| ==> EditFragment[j] != '/'
    ensures OccursAt(EditFragment, "edit", 1)
  {
    assert EditFragment == "/" + "edit#gid=";
    assert '/' !in "edit#gid=";
    assert EditFragment[1..5] == "edit";
  }

  /** The export query has `/` only at its start. */
  lemma QuerySlashes()
    ensures |ExportQuery| == 23 && ExportQuery[0] == '/'
    ensures forall j :: 1 <= j < |ExportQuery| ==> ExportQuery[j] != '/'
  {
    assert ExportQuery == "/" + CsvMarker + "&gid=";
    assert '/' !in CsvMarker + "&gid=";
  }

  /** The export query holds the marker right after its first character, and is not
      itself an edit-view fragment. */
  lemma QueryMarker()
    ensures OccursAt(ExportQuery, CsvMarker, 1)
    ensures !StartsWith(ExportQuery, EditFragment)
  {
    assert ExportQuery == "/" + CsvMarker + "&gid=";
    assert ExportQuery[2] != EditFragment[2];
  }

  /** The appended suffix has `/` only at its start. */
  lemma SuffixSlashes()
    ensures |CsvSuffix| == 18 && CsvSuffix[0] == '/'
    ensures forall j :: 1 <= j < |CsvSuffix| ==> CsvSuffix[j] != '/'
  {
    assert CsvSuffix == "/" + CsvMarker;
    assert '/' !in CsvMarker;
  }

  /** The appended suffix is the marker after a slash, and not an edit-view fragment. */
  lemma SuffixMarker()
    ensures OccursAt(CsvSuffix, CsvMarker, 1)
    ensures !StartsWith(CsvSuffix, EditFragment)
  {
    assert CsvSuffix == "/" + CsvMarker;
    assert CsvSuffix[2] != EditFragment[2];
  }

  /** The URL tested for the marker has no edit-view fragment, on either side of the
      conditional: the replacement removes every one, and a URL without "edit" has none. */
  lemma RewrittenHasNoFragment(url: string)
    ensures !Contains(if Contains(url, "edit") then Replace(url, EditFragment, ExportQuery) else url,
                      EditFragment)
  {
    FragmentShape();
    if Contains(url, "edit") {
      QuerySlashes();
      QueryMarker();
      ReplaceRemoves(url, EditFragment, ExportQuery);
    } else {
      AbsentWithoutPart(url, EditFragment, "edit", 1);
    }
  }

  /** Stripping the trailing slashes of a URL without an edit-view fragment and appending
      the export suffix gives a URL with the marker and still without the fragment. */
  lemma SuffixedIsExport(csv: string)
    requires !Contains(csv, EditFragment)
    ensures Contains(RStrip(csv, '/') + CsvSuffix, CsvMarker)
    ensures !Contains(RStrip(csv, '/') + CsvSuffix, EditFragment)
  {
    var x := RStrip(csv, '/');
    FragmentShape();
    SuffixSlashes();
    SuffixMarker();
    OccursExtend(CsvSuffix, x, CsvMarker, 1);
    ContainsPrefix(csv, EditFragment, |x|);
    AbsentByFirstChar(CsvSuffix, EditFragment);
    AbsentConcatRight(x, CsvSuffix, EditFragment);
  }

  /** The rewrite leaves a URL unchanged exactly when it already carries the marker and
      has no edit-view fragment. */
  lemma CsvUrlFixedPoint(url: string)
    ensures CsvUrl(url) == url <==> Contains(url, CsvMarker) && !Contains(url, EditFragment)
  {
    if Contains(url, CsvMarker) && !Contains(url, EditFragment) && Contains(url, "edit") {
      ReplaceAbsent(url, EditFragment, ExportQuery);
    }
  }

  /** Rewriting an already rewritten URL returns it unchanged. */
  lemma CsvUrlIdempotent(url: string)
    ensures CsvUrl(CsvUrl(url)) == CsvUrl(url)
  {
    CsvUrlFixedPoint(CsvUrl(url));
  }

  /** A URL with neither the marker nor the edit-view fragment gets its trailing slashes
      stripped and exactly the export suffix appended. */
  lemma CsvUrlAppendsSuffix(url: string)
    requires !Contains(url, CsvMarker) && !Contains(url, EditFragment)
    ensures CsvUrl(url) == RStrip(url, '/') + CsvSuffix
  {
    if Contains(url, "edit") {
      ReplaceAbsent(url, EditFragment, ExportQuery);
    }
  }

  /** An edit-view URL `base/edit#gid=id` becomes `base/export?format=csv&gid=id`. */
  lemma CsvUrlEditView(base: string, id: string)
    requires !Contains(base, EditFragment) && !Contains(id, EditFragment)
    ensures CsvUrl(base + EditFragment + id) == base + ExportQuery + id
  {
    FragmentShape();
    QueryMarker();
    OccursExtend(EditFragment, base, "edit", 1);
    OccursExtend(base + EditFragment, id, "edit", |base| + 1);
    ReplaceOnlyOccurrence(base, EditFragment, ExportQuery, id);
    OccursExtend(ExportQuery, base, CsvMarker, 1);
    OccursExtend(base + ExportQuery, id, CsvMarker, |base| + 1);
  }

  /** The address of a sheet, before its view part. */
  const ExampleSheet: string := "https://docs.google.com/spreadsheets/d/KEY"

  lemma ExampleSheetHasNoFragment()
    ensures !Contains(ExampleSheet, EditFragment)
  {
    assert EditFragment[5] == '#';
    AbsentByMissingChar(ExampleSheet, EditFragment, 5);
  }

  /** A sheet's edit-view link, as copied from the browser, becomes its CSV download link. */
  lemma CsvUrlExample()
    ensures CsvUrl(ExampleSheet + "/edit#gid=0") == ExampleSheet + "/export?format=csv&gid=0"
  {
    ExampleSheetHasNoFragment();
    AbsentByMissingChar("0", EditFragment, 0);
    CsvUrlEditView(ExampleSheet, "0");
    assert EditFragment + "0" == "/edit#gid=0";
    assert ExportQuery + "0" == "/export?format=csv&gid=0";
    assert ExampleSheet + EditFragment + "0" == ExampleSheet + (EditFragment + "0");
    assert ExampleSheet + ExportQuery + "0" == ExampleSheet + (ExportQuery + "0");
  }

  /** What one call of `load_gsheet_data` produced: the loaded text, the URL fetched
      (none when nothing was fetched) and the error banner shown (none on success). */
  datatype SheetLoad = SheetLoad(text: string, fetchedUrl: Option<string>, banner: Option<string>)

  /**
    `load_gsheet_data`: the fetch (a CSV download rendered as text) is a parameter that
    either succeeds with the sheet's text or fails with an error text.
   */
  function LoadSheetData(url: string, fetch: string -> Result<string, string>): (r: SheetLoad)
    ensures r.fetchedUrl.None? <==> url == ""
    ensures url == "" ==> r.text == "" && r.banner.None?
    ensures r.fetchedUrl.Some? ==> r.fetchedUrl.value == CsvUrl(url)
    ensures r.fetchedUrl.Some? ==>
              Contains(r.fetchedUrl.value, CsvMarker) && !Contains(r.fetchedUrl.value, EditFragment)
    ensures r.banner.Some? <==> r.fetchedUrl.Some? && fetch(r.fetchedUrl.value).Failure?
    ensures r.banner.Some? ==> r.text == "" && r.banner.value == LoadErrorPrefix + fetch(r.fetchedUrl.value).error
    ensures r.fetchedUrl.Some? && fetch(r.fetchedUrl.value).Success? ==> r.text == fetch(r.fetchedUrl.value).value
  {
    if url == "" then SheetLoad("", None, None)
    else
      var csvUrl := CsvUrl(url);
      match fetch(csvUrl)
      case Success(text) => SheetLoad(text, Some(csvUrl), None)
      case Failure(e) => SheetLoad("", Some(csvUrl), Some(LoadErrorPrefix + e))
  }

}
