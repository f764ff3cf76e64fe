/**
 * The arXiv feed reader (arxiv.py): turning each feed entry into a flat
 * paper record, collecting the records in feed order, and choosing the
 * output file for `save_data`. The feed download and parse are outside the
 * model: an entry arrives as an `Entry` of already-parsed strings.
 */
module ArxivFeed {
  import opened Wrappers
  import opened Text
  import opened JsonValues

  /**
   * One parsed feed entry: `entry.id`, `entry.published`, the `name` of each
   * of `entry.authors`, `entry.title`, `entry.summary`, the optional
   * `arxiv_*` extensions and the `term` of each of `entry.tags`.
   */
  datatype Entry = Entry(
    id: string,
    published: string,
    authorNames: seq<string>,
    title: string,
    summary: string,
    comment: Option<string>,
    journalRef: Option<string>,
    doi: Option<string>,
    reportNo: Option<string>,
    license: Option<string>,
    tagTerms: seq<string>)

  // ---------------------------------------------------------------------------
  // The identifier
  // ---------------------------------------------------------------------------

  const AbsMarker: string := "/abs/"

  /** A sequence joined with a separator ends with its last element. */
  lemma {:induction false} JoinEndsWithLast(xs: seq<string>, sep: string)
    requires |xs| >= 1
    ensures var j, l := Join(xs, sep), xs[|xs| - 1];
      |l| <= |j| && j[|j| - |l|..] == l
  {
    if |xs| > 1 {
      JoinEndsWithLast(xs[1..], sep);
      var j' := Join(xs[1..], sep);
      var l := xs[|xs| - 1];
      assert xs[1..][|xs| - 2] == l;
      var j := xs[0] + sep + j';
      assert j[|j| - |l|..] == j'[|j'| - |l|..];
    }
  }

  /** A sequence of two or more joined with a separator ends with the separator and the last element. */
  lemma {:induction false} JoinEndsWithSepLast(xs: seq<string>, sep: string)
    requires |xs| >= 2
    ensures var j, l := Join(xs, sep), xs[|xs| - 1];
      |sep| + |l| <= |j| && j[|j| - |l| - |sep|..] == sep + l
  {
    var j' := Join(xs[1..], sep);
    var l := xs[|xs| - 1];
    var j := xs[0] + sep + j';
    if |xs| == 2 {
      assert j' == l;
      assert j[|j| - |l| - |sep|..] == sep + l;
    } else {
      JoinEndsWithSepLast(xs[1..], sep);
      assert xs[1..][|xs| - 2] == l;
      assert j[|j| - |l| - |sep|..] == j'[|j'| - |l| - |sep|..];
    }
  }

  /** `entry.id.split('/abs/')[-1]`. */
  function ArxivId(entryId: string): string
  {
    var pieces := Split(entryId, AbsMarker);
    pieces[|pieces| - 1]
  }

  /** When `entry.id` splits into two or more pieces, an `/abs/` immediately precedes the last one. */
  lemma MarkerBeforeId(entryId: string)
    requires |Split(entryId, AbsMarker)| >= 2
    ensures var r, n := ArxivId(entryId), |entryId|;
      |r| + |AbsMarker| <= n && entryId[n - |r| - |AbsMarker|..n - |r|] == AbsMarker
  {
    var pieces := Split(entryId, AbsMarker);
    SplitJoin(entryId, AbsMarker);
    JoinEndsWithSepLast(pieces, AbsMarker);
    var r, n := ArxivId(entryId), |entryId|;
    assert entryId[n - |r| - |AbsMarker|..n - |r|] == entryId[n - |r| - |AbsMarker|..][..|AbsMarker|];
  }

  /**
   * The id is a suffix of `entry.id` and holds no `/abs/`; when `entry.id`
   * holds an `/abs/`, one immediately precedes the id: the last match of
   * `split`'s leftmost, non-overlapping scan, which need not be the last
   * occurrence (see `ArxivIdOverlappingMarkers`).
   */
  lemma ArxivIdShape(entryId: string)
    ensures var r := ArxivId(entryId);
      SepFree(r, AbsMarker) && |r| <= |entryId| && entryId[|entryId| - |r|..] == r
    ensures var r, n := ArxivId(entryId), |entryId|;
      !SepFree(entryId, AbsMarker) ==>
        |r| + |AbsMarker| <= n && entryId[n - |r| - |AbsMarker|..n - |r|] == AbsMarker
  {
    SplitJoin(entryId, AbsMarker);
    JoinEndsWithLast(Split(entryId, AbsMarker), AbsMarker);
    if |Split(entryId, AbsMarker)| == 1 {
      SplitOnePiece(entryId, AbsMarker);
    } else {
      MarkerBeforeId(entryId);
    }
  }

  /** Overlapping markers: the scan takes the first `/abs/` of `x/abs/abs/y`, so the id is `abs/y`, not `y`. */
  lemma ArxivIdOverlappingMarkers()
    ensures ArxivId("x/abs/abs/y") == "abs/y"
  {
    var t, q := "x/abs/abs/y", "abs/y";
    assert t == "x" + AbsMarker + q;
    assert t[0..5][0] != AbsMarker[0];
    assert q[0..5][0] != AbsMarker[0];
    ArxivIdOfAbsUrl("x", q);
  }

  /** An id without `/abs/` is kept whole. */
  lemma ArxivIdWithoutMarker(entryId: string)
    requires SepFree(entryId, AbsMarker)
    ensures ArxivId(entryId) == entryId
  {
    SplitSepFree(entryId, AbsMarker);
  }

  /** For `p + "/abs/" + q` whose first `/abs/` is the one after `p`, the id is `q`. */
  lemma ArxivIdOfAbsUrl(p: string, q: string)
    requires NoMatchBefore(p + AbsMarker + q, AbsMarker, |p|)
    requires SepFree(q, AbsMarker)
    ensures ArxivId(p + AbsMarker + q) == q
  {
    SplitAtFirstMatch(p, AbsMarker, q);
  }

  // ---------------------------------------------------------------------------
  // The publication date
  // ---------------------------------------------------------------------------

  predicate IsDigit(c: char) {
    '0' <= c <= '9'
  }

  predicate AllDigits(s: string) {
    forall i :: 0 <= i < |s| ==> IsDigit(s[i])
  }

  /** The decimal value of a string of digits. */
  function Num(s: string): nat
    requires AllDigits(s)
  {
    if s == [] then 0 else Num(s[..|s| - 1]) * 10 + (s[|s| - 1] as int - '0' as int)
  }

  /** `n` written with exactly `width` digits, zero-padded on the left (as `%m`, `%d` and `%Y` print for `n` below `10^width`). */
  function Digits(n: nat, width: nat): (r: string)
    ensures |r| == width && AllDigits(r)
  {
    if width == 0 then [] else Digits(n / 10, width - 1) + [(('0' as int) + n % 10) as char]
  }

  /** Printing the value of a digit string at its own width gives the string back. */
  lemma {:induction false} DigitsOfNum(s: string)
    requires AllDigits(s)
    ensures Digits(Num(s), |s|) == s
  {
    if s != [] {
      var init, d := s[..|s| - 1], s[|s| - 1] as int - '0' as int;
      DigitsOfNum(init);
      assert Num(s) / 10 == Num(init) && Num(s) % 10 == d;
      assert s == init + [s[|s| - 1]];
    }
  }

  datatype DateTime = DateTime(year: nat, month: nat, day: nat, hour: nat, minute: nat, second: nat)

  /** The fixed layout `YYYY-MM-DDTHH:MM:SSZ` with zero-padded fields. */
  predicate TimestampLayout(ts: string) {
    && |ts| == 20
    && ts[4] == '-' && ts[7] == '-' && ts[10] == 'T' && ts[13] == ':' && ts[16] == ':' && ts[19] == 'Z'
    && AllDigits(ts[0..4]) && AllDigits(ts[5..7]) && AllDigits(ts[8..10])
    && AllDigits(ts[11..13]) && AllDigits(ts[14..16]) && AllDigits(ts[17..19])
  }

  /** The fields of a timestamp, as `strptime(…, '%Y-%m-%dT%H:%M:%SZ')` reads them. */
  function ParseTimestamp(ts: string): DateTime
    requires TimestampLayout(ts)
  {
    DateTime(Num(ts[0..4]), Num(ts[5..7]), Num(ts[8..10]), Num(ts[11..13]), Num(ts[14..16]), Num(ts[17..19]))
  }

  predicate IsLeapYear(y: nat) {
    y % 4 == 0 && (y % 100 != 0 || y % 400 == 0)
  }

  function DaysInMonth(y: nat, m: nat): nat
    requires 1 <= m <= 12
  {
    if m == 2 then (if IsLeapYear(y) then 29 else 28)
    else if m == 4 || m == 6 || m == 9 || m == 11 then 30
    else 31
  }

  /** The ranges `datetime` accepts: a year from 1, a real calendar day, a time of day. */
  predicate ValidDateTime(dt: DateTime) {
    && 1 <= dt.year
    && 1 <= dt.month <= 12
    && 1 <= dt.day <= DaysInMonth(dt.year, dt.month)
    && dt.hour <= 23 && dt.minute <= 59 && dt.second <= 59
  }

  /** A timestamp `strptime` accepts in its zero-padded form. */
  predicate WellFormedTimestamp(ts: string) {
    TimestampLayout(ts) && ValidDateTime(ParseTimestamp(ts))
  }

  /** `strftime('%Y-%m-%d')`. */
  function FormatDate(dt: DateTime): string {
    Digits(dt.year, 4) + "-" + Digits(dt.month, 2) + "-" + Digits(dt.day, 2)
  }

  /** The `published` field: parsing the timestamp and printing its date gives its first ten characters. */
  function PublishedDate(ts: string): (r: string)
    requires WellFormedTimestamp(ts)
    ensures r == ts[..10]
  {
    DigitsOfNum(ts[0..4]);
    DigitsOfNum(ts[5..7]);
    DigitsOfNum(ts[8..10]);
    assert ts[..10] == ts[0..4] + [ts[4]] + ts[5..7] + [ts[7]] + ts[8..10];
    FormatDate(ParseTimestamp(ts))
  }

  // ---------------------------------------------------------------------------
  // Title and abstract
  // ---------------------------------------------------------------------------

  /** `s.strip().replace('\n', ' ')`. */
  function CleanText(s: string): (r: string)
    ensures '\n' !in r
    ensures r == [] || (!IsSpace(r[0]) && !IsSpace(r[|r| - 1]))
    ensures |r| == |Strip(s)|
    ensures r == [] <==> AllSpace(s)
  {
    var t := Strip(s);
    var r := ReplaceChar(t, '\n', ' ');
    assert forall i :: 0 <= i < |r| ==> r[i] != '\n';
    r
  }

  /** Cleaning a cleaned title or abstract changes nothing. */
  lemma CleanTextIdempotent(s: string)
    ensures CleanText(CleanText(s)) == CleanText(s)
  {
    var r := CleanText(s);
    assert Strip(r) == r;
    var r2 := ReplaceChar(r, '\n', ' ');
    assert forall i :: 0 <= i < |r| ==> r2[i] == r[i];
    assert r2 == r;
  }

  // ---------------------------------------------------------------------------
  // The paper record and the list of records
  // ---------------------------------------------------------------------------

  /** `None` for a missing optional field. */
  function OptJson(o: Option<string>): Json {
    match o
    case Some(s) => JStr(s)
    case None => JNull
  }

  /** The keys of a paper record, in the order of the dict literal (the CSV column order). */
  const RecordKeys: seq<string> := [
    "id", "submitter", "published", "authors", "title", "comments",
    "journal-ref", "doi", "report-no", "categories", "license", "abstract"]

  /** The dict literal of `fetch_arxiv_data`, from its twelve computed values. */
  function PaperDict(
    id: Json, published: Json, authors: Json, title: Json, comments: Json, journalRef: Json,
    doi: Json, reportNo: Json, categories: Json, license: Json, summary: Json): (r: Record)
    ensures forall k :: k in r <==> k in RecordKeys
  {
    map[
      "id" := id, "submitter" := JNull, "published" := published, "authors" := authors,
      "title" := title, "comments" := comments, "journal-ref" := journalRef, "doi" := doi,
      "report-no" := reportNo, "categories" := categories, "license" := license, "abstract" := summary]
  }

  /** The dict built for one feed entry. */
  function PaperRecord(e: Entry): Record
    requires WellFormedTimestamp(e.published)
  {
    PaperDict(
      JStr(ArxivId(e.id)),
      JStr(PublishedDate(e.published)),
      JStr(Join(e.authorNames, ", ")),
      JStr(CleanText(e.title)),
      OptJson(e.comment),
      OptJson(e.journalRef),
      OptJson(e.doi),
      OptJson(e.reportNo),
      if e.tagTerms != [] then JStr(e.tagTerms[0]) else JNull,
      OptJson(e.license),
      JStr(CleanText(e.summary)))
  }

  /** A paper record has no submitter and, as `published`, the date part of the timestamp. */
  lemma PaperRecordDate(e: Entry)
    requires WellFormedTimestamp(e.published)
    ensures var r := PaperRecord(e);
      && r["submitter"] == JNull
      && r["published"] == JStr(e.published[..10])
  {
    var r := PaperRecord(e);
    assert r["published"] == JStr(PublishedDate(e.published));
  }

  /** A paper record's `id` is the bare arXiv id: no `/abs/` in it, and an id without one kept whole. */
  lemma PaperRecordId(e: Entry)
    requires WellFormedTimestamp(e.published)
    ensures var r := PaperRecord(e);
      && r["id"].JStr? && SepFree(r["id"].str, AbsMarker)
      && (SepFree(e.id, AbsMarker) ==> r["id"] == JStr(e.id))
      && r["id"] == JStr(ArxivId(e.id))
  {
    var id := ArxivId(e.id);
    assert PaperRecord(e)["id"] == JStr(id);
    IdFacts(e.id);
  }

  /** The id facts, stated on `ArxivId` alone. */
  lemma IdFacts(entryId: string)
    ensures SepFree(ArxivId(entryId), AbsMarker)
    ensures SepFree(entryId, AbsMarker) ==> ArxivId(entryId) == entryId
  {
    ArxivIdShape(entryId);
    if SepFree(entryId, AbsMarker) {
      ArxivIdWithoutMarker(entryId);
    }
  }

  /** The text fields of a paper record: the joined author names, and a title and abstract without newlines or outer whitespace. */
  lemma PaperRecordText(e: Entry)
    requires WellFormedTimestamp(e.published)
    ensures var r := PaperRecord(e);
      && r["authors"] == JStr(Join(e.authorNames, ", "))
      && r["title"] == JStr(CleanText(e.title))
      && r["abstract"] == JStr(CleanText(e.summary))
  {
    var r := PaperRecord(e);
    var authors := Join(e.authorNames, ", ");
    assert r["authors"] == JStr(authors);
    assert r["title"] == JStr(CleanText(e.title));
  }

  /** `categories` is the first tag's term, and `None` exactly when the entry has no tags. */
  lemma PaperRecordCategories(e: Entry)
    requires WellFormedTimestamp(e.published)
    ensures var r := PaperRecord(e);
      && (r["categories"] == JNull <==> e.tagTerms == [])
      && (e.tagTerms != [] ==> r["categories"] == JStr(e.tagTerms[0]))
  {
  }

  /** `fetch_arxiv_data` after the feed is parsed: one record per entry, in feed order. */
  method FetchArxivData(entries: seq<Entry>) returns (papers: seq<Record>)
    requires forall i :: 0 <= i < |entries| ==> WellFormedTimestamp(entries[i].published)
    ensures |papers| == |entries|
    ensures forall i :: 0 <= i < |entries| ==> papers[i] == PaperRecord(entries[i])
  {
    papers := [];
    var i := 0;
    while i < |entries|
      invariant 0 <= i <= |entries|
      invariant |papers| == i
      invariant forall k :: 0 <= k < i ==> papers[k] == PaperRecord(entries[k])
    {
      papers := papers + [PaperRecord(entries[i])];
      i := i + 1;
    }
  }

  // ---------------------------------------------------------------------------
  // save_data
  // ---------------------------------------------------------------------------

  /** The file `save_data` writes and what goes into it. */
  datatype SaveAction =
    | DumpJson(filename: string, papers: seq<Record>)
    | WriteCsv(filename: string, columns: set<string>, rows: seq<Record>)
    | CreateEmpty(filename: string)

  const UnsupportedFormat: string := "Unsupported output format. Use 'json' or 'csv'."

  /** The start of the `ValueError` that `csv.DictWriter` raises for a row with a key outside its columns. */
  const ExtraFields: string := "dict contains fields not in fieldnames: "

  /** Every paper's keys are among the first paper's, so `DictWriter(f, papers[0].keys())` accepts every row. */
  predicate FitsFirstColumns(papers: seq<Record>)
    requires papers != []
  {
    forall i :: 0 <= i < |papers| ==> papers[i].Keys <= papers[0].Keys
  }

  /**
   * `save_data`'s choice of file: `<output_file>.json`, `<output_file>.csv`,
   * or `ValueError`, either for an unknown format or from `writerows` for a
   * paper with a key the first paper lacks.
   */
  function SaveData(papers: seq<Record>, outputFormat: string, outputFile: string): (r: Result<SaveAction>)
    ensures r.Ok? <==>
      outputFormat == "json" || (outputFormat == "csv" && (papers == [] || FitsFirstColumns(papers)))
    ensures r.Ok? ==> r.value.filename == outputFile + "." + outputFormat
    ensures r.Ok? ==> (r.value.DumpJson? <==> outputFormat == "json")
    ensures r.Ok? && r.value.DumpJson? ==> r.value.papers == papers
    ensures r.Ok? && outputFormat == "csv" ==> (r.value.CreateEmpty? <==> papers == [])
    ensures r.Ok? && r.value.WriteCsv? ==>
      && r.value.rows == papers && r.value.columns == papers[0].Keys
      && forall i :: 0 <= i < |papers| ==> papers[i].Keys <= r.value.columns
    ensures r.Err? ==> (r.message == UnsupportedFormat <==> outputFormat != "json" && outputFormat != "csv")
    ensures r.Err? ==> (r.message == ExtraFields <==> outputFormat == "csv")
  {
    if outputFormat == "json" then Ok(DumpJson(outputFile + ".json", papers))
    else if outputFormat == "csv" then
      if papers == [] then Ok(CreateEmpty(outputFile + ".csv"))
      else if FitsFirstColumns(papers) then Ok(WriteCsv(outputFile + ".csv", papers[0].Keys, papers))
      else Err(ExtraFields)
    else Err(UnsupportedFormat)
  }

  /** Saving the feed reader's records as CSV writes one column per paper-record key. */
  lemma CsvColumnsOfFeed(entries: seq<Entry>, papers: seq<Record>, outputFile: string)
    requires |entries| > 0 && |papers| == |entries|
    requires forall i :: 0 <= i < |entries| ==> WellFormedTimestamp(entries[i].published)
    requires forall i :: 0 <= i < |entries| ==> papers[i] == PaperRecord(entries[i])
    ensures SaveData(papers, "csv", outputFile).Ok?
    ensures SaveData(papers, "csv", outputFile).value.WriteCsv?
    ensures forall k :: k in SaveData(papers, "csv", outputFile).value.columns <==> k in RecordKeys
  {
  }
}
