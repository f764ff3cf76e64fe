/**
 * The three Google Scholar scrapers of googlescholar.py, with the network
 * fetch and the HTML selectors taken as given: a fetch that raised is
 * `None`, a selector that matched nothing is `None`, and a result block
 * whose parsing raised is an `Unparseable…` block.
 */
module ScholarScrape {
  import opened Wrappers
  import opened Text
  import opened JsonValues

  const ScholarBase: string := "https://scholar.google.com"

  /** `"https://scholar.google.com" + href`: an absolute link that gives `href` back after the base. */
  function AbsoluteLink(href: string): (r: string)
    ensures |r| == |ScholarBase| + |href|
    ensures r[..|ScholarBase|] == ScholarBase && r[|ScholarBase|..] == href
    ensures r != ""
  {
    ScholarBase + href
  }

  /** `{k: v for k, v in d.items() if v}` on a dict of strings. */
  function DropEmpty(m: Fields): (r: Fields)
    ensures r.Keys <= m.Keys
    ensures forall k :: k in r ==> r[k] == m[k] && r[k] != ""
    ensures forall k :: k in m && m[k] != "" ==> k in r
  {
    map k | k in m && m[k] != "" :: m[k]
  }

  /** No value of the dict is the empty string. */
  predicate NoEmptyValue(m: Fields) {
    forall k :: k in m ==> m[k] != ""
  }

  /** `d[key] = v` when the selector matched, `d` unchanged otherwise. */
  function PutIf(m: Fields, key: string, hit: Option<string>): Fields {
    match hit
    case Some(v) => m[key := v]
    case None => m
  }

  // ---------------------------------------------------------------------------
  // get_scholar_data: organic search results
  // ---------------------------------------------------------------------------

  /** An `<a>` element: its text, its `href` and `id` attributes when present. */
  datatype Anchor = Anchor(text: string, href: Option<string>, id: Option<string>)

  /** The `.gs_rt` title element and the first `<a>` inside it. */
  datatype TitleHit = TitleHit(text: string, anchor: Option<Anchor>)

  /**
   * One `.gs_r` block of a search page: the hits of `.gs_rt`, `.gs_a`,
   * `.gs_rs` and `.gs_nph+ a`, and the `<a>` sibling after the first match
   * of `a ~ a` (`None` when there is no match or no such sibling).
   * `UnparseableBlock` is a block on which extraction raises.
   */
  datatype SearchBlock =
    | SearchBlock(
        title: Option<TitleHit>,
        displayedLink: Option<string>,
        snippet: Option<string>,
        citedBy: Option<Anchor>,
        versions: Option<Anchor>)
    | UnparseableBlock

  /** The keys a search result can carry. */
  const SearchKeys: set<string> := {
    "title", "title_link", "id", "displayed_link", "snippet",
    "cited_by_count", "cited_link", "versions_count", "versions_link"}

  /** The title, title link and id of a result, before empty values are dropped. */
  function TitleFields(title: Option<TitleHit>): Fields {
    match title
    case None => map[]
    case Some(t) =>
      match t.anchor
      case Some(a) =>
        if a.href.Some? then map["title" := t.text, "title_link" := a.href.value, "id" := a.id.GetOr("")]
        else map["title" := t.text]
      case None => map["title" := t.text]
  }

  /** A count and its absolute link, read from one `<a>`. */
  function LinkFields(m: Fields, countKey: string, linkKey: string, hit: Option<Anchor>): Fields {
    match hit
    case Some(a) => m[countKey := a.text][linkKey := AbsoluteLink(a.href.GetOr(""))]
    case None => m
  }

  /** The dict built for one parsed search block, before empty values are dropped. */
  function RawResult(b: SearchBlock): Fields
    requires b.SearchBlock?
  {
    var m := TitleFields(b.title);
    var m := PutIf(m, "displayed_link", b.displayedLink);
    var m := PutIf(m, "snippet", b.snippet);
    var m := LinkFields(m, "cited_by_count", "cited_link", b.citedBy);
    LinkFields(m, "versions_count", "versions_link", b.versions)
  }

  /** The dict built for one parsed search block, empty values dropped. */
  function ResultFields(b: SearchBlock): (r: Fields)
    requires b.SearchBlock?
    ensures r.Keys <= SearchKeys
    ensures NoEmptyValue(r)
  {
    assert RawResult(b).Keys <= SearchKeys by {
      assert TitleFields(b.title).Keys <= {"title", "title_link", "id"};
    }
    DropEmpty(RawResult(b))
  }

  /** The raw dict keeps the title keys of `TitleFields`. */
  lemma RawResultTitle(b: SearchBlock)
    requires b.SearchBlock?
    ensures var t, raw := TitleFields(b.title), RawResult(b);
      forall k :: k in {"title", "title_link", "id"} ==> (k in raw <==> k in t) && (k in t ==> raw[k] == t[k])
  {
  }

  /** The raw dict holds each selector hit under its key, and each count `<a>` under its count and link keys. */
  lemma RawResultLinks(b: SearchBlock)
    requires b.SearchBlock?
    ensures var raw := RawResult(b);
      && ("displayed_link" in raw <==> b.displayedLink.Some?)
      && (b.displayedLink.Some? ==> raw["displayed_link"] == b.displayedLink.value)
      && ("snippet" in raw <==> b.snippet.Some?)
      && (b.snippet.Some? ==> raw["snippet"] == b.snippet.value)
      && ("cited_by_count" in raw <==> b.citedBy.Some?) && ("cited_link" in raw <==> b.citedBy.Some?)
      && (b.citedBy.Some? ==> raw["cited_by_count"] == b.citedBy.value.text)
      && (b.citedBy.Some? ==> raw["cited_link"] == AbsoluteLink(b.citedBy.value.href.GetOr("")))
      && ("versions_count" in raw <==> b.versions.Some?) && ("versions_link" in raw <==> b.versions.Some?)
      && (b.versions.Some? ==> raw["versions_count"] == b.versions.value.text)
      && (b.versions.Some? ==> raw["versions_link"] == AbsoluteLink(b.versions.value.href.GetOr("")))
  {
    assert TitleFields(b.title).Keys <= {"title", "title_link", "id"};
  }

  /** The title element gives `title`, and its `<a>`, when it has an `href`, `title_link` and `id`. */
  lemma ResultTitleKeys(b: SearchBlock)
    requires b.SearchBlock?
    ensures var r := ResultFields(b);
      && ("title" in r <==> b.title.Some? && b.title.value.text != "")
      && (b.title.Some? && b.title.value.text != "" ==> r["title"] == b.title.value.text)
      && ("title_link" in r <==>
            b.title.Some? && b.title.value.anchor.Some? && b.title.value.anchor.value.href.Some?
            && b.title.value.anchor.value.href.value != "")
      && ("id" in r <==>
            b.title.Some? && b.title.value.anchor.Some? && b.title.value.anchor.value.href.Some?
            && b.title.value.anchor.value.id.GetOr("") != "")
      && ("title_link" in r ==> r["title_link"] == b.title.value.anchor.value.href.value)
      && ("id" in r ==> r["id"] == b.title.value.anchor.value.id.GetOr(""))
  {
    RawResultTitle(b);
  }

  /** The other selector hits give the other keys; each count link is absolute even without an `href`. */
  lemma ResultLinkKeys(b: SearchBlock)
    requires b.SearchBlock?
    ensures var r := ResultFields(b);
      && ("displayed_link" in r <==> b.displayedLink.Some? && b.displayedLink.value != "")
      && ("snippet" in r <==> b.snippet.Some? && b.snippet.value != "")
      && ("cited_by_count" in r <==> b.citedBy.Some? && b.citedBy.value.text != "")
      && ("cited_link" in r <==> b.citedBy.Some?)
      && (b.citedBy.Some? ==> r["cited_link"] == AbsoluteLink(b.citedBy.value.href.GetOr("")))
      && ("versions_count" in r <==> b.versions.Some? && b.versions.value.text != "")
      && ("versions_link" in r <==> b.versions.Some?)
      && (b.versions.Some? ==> r["versions_link"] == AbsoluteLink(b.versions.value.href.GetOr("")))
      && ("displayed_link" in r ==> r["displayed_link"] == b.displayedLink.value)
      && ("snippet" in r ==> r["snippet"] == b.snippet.value)
      && ("cited_by_count" in r ==> r["cited_by_count"] == b.citedBy.value.text)
      && ("versions_count" in r ==> r["versions_count"] == b.versions.value.text)
  {
    RawResultLinks(b);
  }

  /** The results of the blocks whose parsing did not raise, in page order. */
  function SearchResults(bs: seq<SearchBlock>): seq<Fields> {
    if bs == [] then []
    else
      var last := bs[|bs| - 1];
      SearchResults(bs[..|bs| - 1]) + (if last.SearchBlock? then [ResultFields(last)] else [])
  }

  /** `get_scholar_data` after the fetch: `[]` when the fetch raised. */
  function ScholarSearch(page: Option<seq<SearchBlock>>): seq<Fields> {
    match page
    case None => []
    case Some(bs) => SearchResults(bs)
  }

  /** The loop of `get_scholar_data`, with its per-block `try`. */
  method GetScholarData(page: Option<seq<SearchBlock>>) returns (results: seq<Fields>)
    ensures results == ScholarSearch(page)
  {
    if page.None? {
      return [];
    }
    var blocks := page.value;
    results := [];
    var i := 0;
    while i < |blocks|
      invariant 0 <= i <= |blocks|
      invariant results == SearchResults(blocks[..i])
    {
      var el := blocks[i];
      assert blocks[..i + 1][..i] == blocks[..i];
      if el.SearchBlock? {
        results := results + [ResultFields(el)];
      }
      i := i + 1;
    }
    assert blocks[..i] == blocks;
  }

  /** Results of consecutive stretches of blocks concatenate: page order is kept. */
  lemma {:induction false} SearchResultsAppend(a: seq<SearchBlock>, b: seq<SearchBlock>)
    ensures SearchResults(a + b) == SearchResults(a) + SearchResults(b)
    decreases |b|
  {
    if b == [] {
      assert a + b == a;
    } else {
      var b' := b[..|b| - 1];
      SearchResultsAppend(a, b');
      assert (a + b)[..|a + b| - 1] == a + b';
      assert (a + b)[|a + b| - 1] == b[|b| - 1];
    }
  }

  /** A block whose parsing raises drops out, and nothing else changes. */
  lemma SearchSkipsOnlyFailingBlock(pre: seq<SearchBlock>, post: seq<SearchBlock>)
    ensures SearchResults(pre + [UnparseableBlock] + post) == SearchResults(pre + post)
  {
    SearchResultsAppend(pre + [UnparseableBlock], post);
    SearchResultsAppend(pre, [UnparseableBlock]);
    SearchResultsAppend(pre, post);
    assert SearchResults([UnparseableBlock]) == [] by {
      assert [UnparseableBlock][..0] == [];
    }
  }

  /** When every block parses there is one result per block, each that block's fields. */
  lemma {:induction false} SearchResultsAllParsed(bs: seq<SearchBlock>)
    requires forall i :: 0 <= i < |bs| ==> bs[i].SearchBlock?
    ensures |SearchResults(bs)| == |bs|
    ensures forall i :: 0 <= i < |bs| ==> SearchResults(bs)[i] == ResultFields(bs[i])
  {
    if bs != [] {
      var init := bs[..|bs| - 1];
      SearchResultsAllParsed(init);
      var rs := SearchResults(bs);
      assert rs == SearchResults(init) + [ResultFields(bs[|bs| - 1])];
      forall i | 0 <= i < |init|
        ensures rs[i] == ResultFields(bs[i])
      {
        assert init[i] == bs[i];
      }
    }
  }

  /** Every search result has only known keys and no empty value. */
  lemma {:induction false} SearchResultsWellFormed(bs: seq<SearchBlock>)
    ensures |SearchResults(bs)| <= |bs|
    ensures forall j :: 0 <= j < |SearchResults(bs)| ==>
      SearchResults(bs)[j].Keys <= SearchKeys && NoEmptyValue(SearchResults(bs)[j])
  {
    if bs != [] {
      SearchResultsWellFormed(bs[..|bs| - 1]);
    }
  }

  // ---------------------------------------------------------------------------
  // get_scholar_profiles: author-search candidates
  // ---------------------------------------------------------------------------

  /** The `.gs_ai_name` element: its text and the `href` of the `<a>` inside it, if any. */
  datatype NameHit = NameHit(text: string, href: Option<string>)

  /**
   * One `.gsc_1usr` block of an author-search page: the hits of
   * `.gs_ai_name`, `.gs_ai_aff`, `.gs_ai_eml`, `.gs_ai_int` and `.gs_ai_cby`.
   * `UnparseableCandidate` is a block on which extraction raises.
   */
  datatype CandidateBlock =
    | CandidateBlock(
        name: Option<NameHit>,
        affiliation: Option<string>,
        email: Option<string>,
        interests: Option<string>,
        citedBy: Option<string>)
    | UnparseableCandidate

  /** The keys a profile candidate can carry. */
  const CandidateKeys: set<string> := {"name", "name_link", "position", "email", "departments", "cited_by_count"}

  /** The name and profile link of a candidate, before empty values are dropped. */
  function NameFields(name: Option<NameHit>): Fields {
    match name
    case None => map[]
    case Some(n) =>
      if n.href.Some? then map["name" := n.text, "name_link" := AbsoluteLink(n.href.value)]
      else map["name" := n.text]
  }

  /** Whether extracting a block raises: it is unparseable, or its cited-by text is blank (`split()[-1]`). */
  predicate CandidateFails(b: CandidateBlock) {
    b.UnparseableCandidate? || (b.citedBy.Some? && AllSpace(b.citedBy.value))
  }

  /** The dict built for a candidate block that does not raise, before empty values are dropped. */
  function RawCandidate(b: CandidateBlock): Fields
    requires !CandidateFails(b)
  {
    var m := NameFields(b.name);
    var m := PutIf(m, "position", b.affiliation);
    var m := PutIf(m, "email", b.email);
    var m := PutIf(m, "departments", b.interests);
    if b.citedBy.Some? then m["cited_by_count" := LastWord(b.citedBy.value)] else m
  }

  /** The dict built for one candidate block, or `None` when extraction raises. */
  function CandidateFields(b: CandidateBlock): (r: Option<Fields>)
    ensures r.None? <==> CandidateFails(b)
    ensures r.Some? ==> r.value.Keys <= CandidateKeys && NoEmptyValue(r.value)
  {
    if CandidateFails(b) then None
    else
      assert RawCandidate(b).Keys <= CandidateKeys by {
        assert NameFields(b.name).Keys <= {"name", "name_link"};
      }
      Some(DropEmpty(RawCandidate(b)))
  }

  /** The raw dict keeps the name keys of `NameFields`. */
  lemma RawCandidateName(b: CandidateBlock)
    requires !CandidateFails(b)
    ensures var n, raw := NameFields(b.name), RawCandidate(b);
      forall k :: k in {"name", "name_link"} ==> (k in raw <==> k in n) && (k in n ==> raw[k] == n[k])
  {
  }

  /** The name element gives `name`, and its `<a>` the absolute `name_link`. */
  lemma CandidateNameKeys(b: CandidateBlock)
    requires !CandidateFails(b)
    ensures var r := CandidateFields(b).value;
      && ("name" in r <==> b.name.Some? && b.name.value.text != "")
      && (b.name.Some? && b.name.value.text != "" ==> r["name"] == b.name.value.text)
      && ("name_link" in r <==> b.name.Some? && b.name.value.href.Some?)
      && (b.name.Some? && b.name.value.href.Some? ==> r["name_link"] == AbsoluteLink(b.name.value.href.value))
  {
    RawCandidateName(b);
  }

  /** The raw dict holds each hit under its key, and the cited-by text's last word as `cited_by_count`. */
  lemma RawCandidateOthers(b: CandidateBlock)
    requires !CandidateFails(b)
    ensures var raw := RawCandidate(b);
      && ("position" in raw <==> b.affiliation.Some?)
      && (b.affiliation.Some? ==> raw["position"] == b.affiliation.value)
      && ("email" in raw <==> b.email.Some?)
      && (b.email.Some? ==> raw["email"] == b.email.value)
      && ("departments" in raw <==> b.interests.Some?)
      && (b.interests.Some? ==> raw["departments"] == b.interests.value)
      && ("cited_by_count" in raw <==> b.citedBy.Some?)
      && (b.citedBy.Some? ==> raw["cited_by_count"] == LastWord(b.citedBy.value))
  {
    assert NameFields(b.name).Keys <= {"name", "name_link"};
  }

  /** The other hits give the other keys; `cited_by_count` is the last word of the cited-by text. */
  lemma CandidateOtherKeys(b: CandidateBlock)
    requires !CandidateFails(b)
    ensures var r := CandidateFields(b).value;
      && ("position" in r <==> b.affiliation.Some? && b.affiliation.value != "")
      && ("email" in r <==> b.email.Some? && b.email.value != "")
      && ("departments" in r <==> b.interests.Some? && b.interests.value != "")
      && ("cited_by_count" in r <==> b.citedBy.Some?)
      && (b.citedBy.Some? ==> r["cited_by_count"] == LastWord(b.citedBy.value))
      && ("position" in r ==> r["position"] == b.affiliation.value)
      && ("email" in r ==> r["email"] == b.email.value)
      && ("departments" in r ==> r["departments"] == b.interests.value)
  {
    RawCandidateOthers(b);
  }

  /** All blocks' dicts in page order, or `None` as soon as one block raises. */
  function CandidateList(bs: seq<CandidateBlock>): Option<seq<Fields>> {
    if forall i :: 0 <= i < |bs| ==> !CandidateFails(bs[i]) then
      Some(seq(|bs|, i requires 0 <= i < |bs| => CandidateFields(bs[i]).GetOr(map[])))
    else None
  }

  /** `get_scholar_profiles` after the fetch: `[]` when the fetch or any block raised. */
  function ScholarProfiles(page: Option<seq<CandidateBlock>>): seq<Fields> {
    match page
    case None => []
    case Some(bs) => CandidateList(bs).GetOr([])
  }

  /** The loop of `get_scholar_profiles`, whose one `try` encloses every block. */
  method GetScholarProfiles(page: Option<seq<CandidateBlock>>) returns (profiles: seq<Fields>)
    ensures profiles == ScholarProfiles(page)
  {
    if page.None? {
      return [];
    }
    var blocks := page.value;
    profiles := [];
    var i := 0;
    while i < |blocks|
      invariant 0 <= i <= |blocks|
      invariant forall k :: 0 <= k < i ==> !CandidateFails(blocks[k])
      invariant |profiles| == i
      invariant forall k :: 0 <= k < i ==> profiles[k] == CandidateFields(blocks[k]).value
    {
      var profile := CandidateFields(blocks[i]);
      if profile.None? {
        return [];
      }
      profiles := profiles + [profile.value];
      i := i + 1;
    }
  }

  /** One block that raises empties the whole candidate list, whatever the other blocks hold. */
  lemma ProfilesOneFailureEmptiesAll(bs: seq<CandidateBlock>, i: nat)
    requires i < |bs| && CandidateFails(bs[i])
    ensures ScholarProfiles(Some(bs)) == []
  {
  }

  /** When no block raises there is one candidate per block, each that block's fields. */
  lemma ProfilesAllParsed(bs: seq<CandidateBlock>)
    requires forall i :: 0 <= i < |bs| ==> !CandidateFails(bs[i])
    ensures |ScholarProfiles(Some(bs))| == |bs|
    ensures forall i :: 0 <= i < |bs| ==> Some(ScholarProfiles(Some(bs))[i]) == CandidateFields(bs[i])
  {
  }

  /**
   * The two search scrapers isolate failures differently: the same failing
   * block among good ones costs the search results one entry, and the
   * candidate list everything.
   */
  lemma FailureIsolationDiffers(
    pre: seq<SearchBlock>, post: seq<SearchBlock>,
    cpre: seq<CandidateBlock>, cpost: seq<CandidateBlock>)
    requires forall i :: 0 <= i < |pre| ==> pre[i].SearchBlock?
    requires forall i :: 0 <= i < |post| ==> post[i].SearchBlock?
    ensures |ScholarSearch(Some(pre + [UnparseableBlock] + post))| == |pre| + |post|
    ensures ScholarProfiles(Some(cpre + [UnparseableCandidate] + cpost)) == []
  {
    SearchSkipsOnlyFailingBlock(pre, post);
    var all := pre + post;
    assert forall i :: 0 <= i < |all| ==> all[i].SearchBlock? by {
      forall i | 0 <= i < |all| ensures all[i].SearchBlock? {
        if i >= |pre| {
          assert all[i] == post[i - |pre|];
        }
      }
    }
    SearchResultsAllParsed(all);
    ProfilesOneFailureEmptiesAll(cpre + [UnparseableCandidate] + cpost, |cpre|);
  }

  // ---------------------------------------------------------------------------
  // get_author_profile_data: one profile page
  // ---------------------------------------------------------------------------

  /** The `.gsc_a_at` element of an article row: its text and `href`. */
  datatype ArticleTitle = ArticleTitle(text: string, href: Option<string>)

  /** One `#gsc_a_b .gsc_a_t` row: its title and the texts of its `.gs_gray` elements, in order. */
  datatype ArticleRow = ArticleRow(title: Option<ArticleTitle>, grayTexts: seq<string>)

  /**
   * A profile page: the hits of `#gsc_prf_in`, `#gsc_prf_inw+ .gsc_prf_il`,
   * `#gsc_prf_ivh` and `#gsc_prf_int`, the article rows, and the first
   * `.gsc_rsb_std` of table rows 1, 2 and 3.
   */
  datatype ProfilePage = ProfilePage(
    name: Option<string>,
    position: Option<string>,
    email: Option<string>,
    interests: Option<string>,
    articleRows: seq<ArticleRow>,
    totalCitations: Option<string>,
    hIndex: Option<string>,
    iIndex: Option<string>)

  /** The keys an article can carry. */
  const ArticleKeys: set<string> := {"title", "link", "authors", "publication"}

  /** The dict built for one article row, empty values dropped. */
  function ArticleFields(row: ArticleRow): (r: Fields)
    ensures r.Keys <= ArticleKeys
    ensures NoEmptyValue(r)
  {
    var m: Fields := match row.title
      case None => map[]
      case Some(t) =>
        if t.href.GetOr("") != "" then map["title" := t.text, "link" := AbsoluteLink(t.href.value)]
        else map["title" := t.text];
    var m := if |row.grayTexts| >= 1 then m["authors" := row.grayTexts[0]] else m;
    var m := if |row.grayTexts| > 1 then m["publication" := row.grayTexts[1]] else m;
    DropEmpty(m)
  }

  /** Which parts of an article row become which keys. */
  lemma ArticleFieldsKeys(row: ArticleRow)
    ensures var r := ArticleFields(row);
      && ("title" in r <==> row.title.Some? && row.title.value.text != "")
      && ("link" in r <==> row.title.Some? && row.title.value.href.GetOr("") != "")
      && (row.title.Some? && row.title.value.href.GetOr("") != "" ==>
            r["link"] == AbsoluteLink(row.title.value.href.value))
      && ("authors" in r <==> |row.grayTexts| >= 1 && row.grayTexts[0] != "")
      && ("publication" in r <==> |row.grayTexts| >= 2 && row.grayTexts[1] != "")
      && ("title" in r ==> r["title"] == row.title.value.text)
      && ("authors" in r ==> r["authors"] == row.grayTexts[0])
      && ("publication" in r ==> r["publication"] == row.grayTexts[1])
  {
  }

  /** The names of the three citation-metric rows, in table order. */
  const MetricKeys: seq<string> := ["citations", "h_index", "i_index"]

  /** One row of `citation_metrics`: `{}`, or `{key: {"all": text}}` when the cell was found. */
  function MetricRow(key: string, hit: Option<string>): Json {
    match hit
    case None => JObj(map[])
    case Some(t) => JObj(map[key := JObj(map["all" := JStr(t)])])
  }

  /** The three rows of `citation_metrics`. */
  function CitationTable(p: ProfilePage): seq<Json> {
    [MetricRow(MetricKeys[0], p.totalCitations), MetricRow(MetricKeys[1], p.hIndex), MetricRow(MetricKeys[2], p.iIndex)]
  }

  /** The `articles` list: one dict per article row, in page order. */
  function ArticleList(rows: seq<ArticleRow>): seq<Json> {
    seq(|rows|, i requires 0 <= i < |rows| => JObj(Lift(ArticleFields(rows[i]))))
  }

  /** The identity fields of a profile page; unlike the other dicts these keep empty strings. */
  function IdentityFields(p: ProfilePage): Fields {
    var m := PutIf(map[], "name", p.name);
    var m := PutIf(m, "position", p.position);
    var m := PutIf(m, "email", p.email);
    PutIf(m, "departments", p.interests)
  }

  /** `get_author_profile_data` after the fetch: `{}` when the fetch raised. */
  function ProfileDetail(page: Option<ProfilePage>): Record {
    match page
    case None => map[]
    case Some(p) =>
      Lift(IdentityFields(p))["articles" := JList(ArticleList(p.articleRows))]
                             ["citation_metrics" := JList(CitationTable(p))]
  }

  /** The keys a profile detail can carry. */
  const DetailKeys: set<string> := {"name", "position", "email", "departments", "articles", "citation_metrics"}

  /** A `citation_metrics` row for `key`: empty, or exactly `{key: {"all": text}}`. */
  predicate IsMetricRow(row: Json, key: string) {
    && row.JObj?
    && row.fields.Keys <= {key}
    && (key in row.fields ==>
          && row.fields[key].JObj?
          && row.fields[key].fields.Keys == {"all"}
          && row.fields[key].fields["all"].JStr?)
  }

  /** Each identity selector that matched gives its key with the text as found, empty or not. */
  lemma IdentityFieldsValues(p: ProfilePage)
    ensures var m := IdentityFields(p);
      && m.Keys <= {"name", "position", "email", "departments"}
      && ("name" in m <==> p.name.Some?) && (p.name.Some? ==> m["name"] == p.name.value)
      && ("position" in m <==> p.position.Some?) && (p.position.Some? ==> m["position"] == p.position.value)
      && ("email" in m <==> p.email.Some?) && (p.email.Some? ==> m["email"] == p.email.value)
      && ("departments" in m <==> p.interests.Some?) && (p.interests.Some? ==> m["departments"] == p.interests.value)
  {
  }

  /** Each metric row is `{}` for a missing cell and `{key: {"all": text}}` with the cell's text for a found one. */
  lemma CitationTableValues(p: ProfilePage)
    ensures var rows := CitationTable(p);
      && |rows| == 3
      && (forall k :: 0 <= k < 3 ==> IsMetricRow(rows[k], MetricKeys[k]))
      && (rows[0].fields != map[] <==> p.totalCitations.Some?)
      && (rows[1].fields != map[] <==> p.hIndex.Some?)
      && (rows[2].fields != map[] <==> p.iIndex.Some?)
      && (p.totalCitations.Some? ==> rows[0].fields["citations"].fields["all"] == JStr(p.totalCitations.value))
      && (p.hIndex.Some? ==> rows[1].fields["h_index"].fields["all"] == JStr(p.hIndex.value))
      && (p.iIndex.Some? ==> rows[2].fields["i_index"].fields["all"] == JStr(p.iIndex.value))
  {
    var rows := CitationTable(p);
    forall k | 0 <= k < 3
      ensures IsMetricRow(rows[k], MetricKeys[k])
    {
    }
  }

  /** The shape of a profile detail, on success and on a failed fetch. */
  lemma ProfileDetailShape(page: Option<ProfilePage>)
    ensures page.None? ==> ProfileDetail(page) == map[]
    ensures page.Some? ==>
      var d, p := ProfileDetail(page), page.value;
      && d.Keys <= DetailKeys
      && "name_link" !in d
      && ("name" in d <==> p.name.Some?) && (p.name.Some? ==> d["name"] == JStr(p.name.value))
      && ("position" in d <==> p.position.Some?) && (p.position.Some? ==> d["position"] == JStr(p.position.value))
      && ("email" in d <==> p.email.Some?) && (p.email.Some? ==> d["email"] == JStr(p.email.value))
      && ("departments" in d <==> p.interests.Some?)
      && (p.interests.Some? ==> d["departments"] == JStr(p.interests.value))
      && "articles" in d && d["articles"].JList? && |d["articles"].items| == |p.articleRows|
      && (forall i :: 0 <= i < |p.articleRows| ==>
            d["articles"].items[i] == JObj(Lift(ArticleFields(p.articleRows[i]))))
      && "citation_metrics" in d && d["citation_metrics"].JList?
      && |d["citation_metrics"].items| == 3
      && (forall k :: 0 <= k < 3 ==> IsMetricRow(d["citation_metrics"].items[k], MetricKeys[k]))
      && (d["citation_metrics"].items[0].fields != map[] <==> p.totalCitations.Some?)
      && (d["citation_metrics"].items[1].fields != map[] <==> p.hIndex.Some?)
      && (d["citation_metrics"].items[2].fields != map[] <==> p.iIndex.Some?)
      && (p.totalCitations.Some? ==>
            d["citation_metrics"].items[0].fields["citations"].fields["all"] == JStr(p.totalCitations.value))
      && (p.hIndex.Some? ==>
            d["citation_metrics"].items[1].fields["h_index"].fields["all"] == JStr(p.hIndex.value))
      && (p.iIndex.Some? ==>
            d["citation_metrics"].items[2].fields["i_index"].fields["all"] == JStr(p.iIndex.value))
  {
    if page.Some? {
      var p := page.value;
      IdentityFieldsValues(p);
      CitationTableValues(p);
    }
  }

  /** The body of `get_author_profile_data`: its article loop and its three metric rows. */
  method GetAuthorProfileData(page: Option<ProfilePage>) returns (data: Record)
    ensures data == ProfileDetail(page)
  {
    if page.None? {
      return map[];
    }
    var p := page.value;
    var profileData := Lift(IdentityFields(p));
    var articles: seq<Json> := [];
    var i := 0;
    while i < |p.articleRows|
      invariant 0 <= i <= |p.articleRows|
      invariant articles == ArticleList(p.articleRows[..i])
    {
      assert p.articleRows[..i + 1][..i] == p.articleRows[..i];
      articles := articles + [JObj(Lift(ArticleFields(p.articleRows[i])))];
      i := i + 1;
    }
    assert p.articleRows[..i] == p.articleRows;
    profileData := profileData["articles" := JList(articles)];
    var table: seq<Json> := [];
    table := table + [MetricRow("citations", p.totalCitations)];
    table := table + [MetricRow("h_index", p.hIndex)];
    table := table + [MetricRow("i_index", p.iIndex)];
    assert table == CitationTable(p);
    profileData := profileData["citation_metrics" := JList(table)];
    data := profileData;
  }
}
