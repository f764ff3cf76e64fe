/**
 * The join performed by `main` in googlescholar.py: for every arXiv paper,
 * a Scholar search on its quoted title and, for every author named in its
 * comma-separated `authors` string, the profile candidates that carry a
 * link, each merged with the detail read from its profile page.
 *
 * The three scrapers are parameters (`Resolvers`), so the join is proved
 * for any scraper behaviour; `ScrapingResolvers` plugs in the scrapers of
 * `ScholarScrape` over given pages.
 */
module ScholarPipeline {
  import opened Wrappers
  import opened Text
  import opened JsonValues
  import opened ScholarScrape
  import ArxivFeed

  // ---------------------------------------------------------------------------
  // Reading a loaded paper
  // ---------------------------------------------------------------------------

  /** `paper.get(key, "")` when the value, if present, is a string. */
  function GetStr(paper: Record, key: string): string
    requires key !in paper || paper[key].JStr?
  {
    if key in paper then paper[key].str else ""
  }

  /** The paper's `title` and `authors` are absent or strings, as `main` needs them to be. */
  predicate WellTyped(paper: Record) {
    && ("title" !in paper || paper["title"].JStr?)
    && ("authors" !in paper || paper["authors"].JStr?)
  }

  /** The search query `f'"{title}"'`: the title between double quotes. */
  function Query(paper: Record): (q: string)
    requires WellTyped(paper)
  {
    "\"" + GetStr(paper, "title") + "\""
  }

  /** The query is the title, whole and unchanged, between one pair of double quotes. */
  lemma QueryQuotesTitle(paper: Record)
    requires WellTyped(paper)
    ensures var q, t := Query(paper), GetStr(paper, "title");
      && |q| == |t| + 2
      && q[0] == '"' && q[|q| - 1] == '"'
      && q[1..|q| - 1] == t
  {
  }

  /** `[a.strip() for a in pieces if a.strip()]`. */
  function KeepNonBlank(pieces: seq<string>): (r: seq<string>)
    ensures |r| <= |pieces|
  {
    if pieces == [] then []
    else
      var s := Strip(pieces[0]);
      (if s != "" then [s] else []) + KeepNonBlank(pieces[1..])
  }

  /** A kept token is non-empty and carries no outer whitespace. */
  lemma {:induction false} KeepNonBlankShape(pieces: seq<string>)
    ensures forall j :: 0 <= j < |KeepNonBlank(pieces)| ==>
      KeepNonBlank(pieces)[j] != "" && Strip(KeepNonBlank(pieces)[j]) == KeepNonBlank(pieces)[j]
  {
    if pieces != [] {
      KeepNonBlankShape(pieces[1..]);
      StripIdempotent(pieces[0]);
    }
  }

  /** The author names `main` reads from a comma-separated `authors` string. */
  function AuthorTokens(authors: string): seq<string> {
    KeepNonBlank(Split(authors, ","))
  }

  /** Every author token is non-empty, carries no outer whitespace and holds no comma. */
  lemma AuthorTokensShape(authors: string)
    ensures var ts := AuthorTokens(authors);
      forall j :: 0 <= j < |ts| ==> ts[j] != "" && Strip(ts[j]) == ts[j] && ',' !in ts[j]
  {
    var pieces := Split(authors, ",");
    SplitJoin(authors, ",");
    KeepNonBlankShape(pieces);
    KeepNonBlankFrom(pieces);
  }

  /** What `strip()` keeps of a piece without `","` holds no comma. */
  lemma StripCommaFree(p: string)
    requires SepFree(p, ",")
    ensures ',' !in Strip(p)
  {
    StripSlice(p);
    var lead := |p| - |TrimLeft(p)|;
    var s := Strip(p);
    assert s == p[lead..lead + |s|];
    forall i | 0 <= i < |s|
      ensures s[i] != ','
    {
      NoCommaAt(p, lead + i);
    }
  }

  /** A string without the separator `","` holds no comma at any index. */
  lemma NoCommaAt(p: string, i: nat)
    requires SepFree(p, ",") && i < |p|
    ensures p[i] != ','
  {
    assert p[i..i + 1] == [p[i]];
    assert !OccursAt(p, ",", i);
  }

  /** Each kept token is the stripped form of some piece, and so inherits its lack of commas. */
  lemma {:induction false} KeepNonBlankFrom(pieces: seq<string>)
    requires forall k :: 0 <= k < |pieces| ==> SepFree(pieces[k], ",")
    ensures forall j :: 0 <= j < |KeepNonBlank(pieces)| ==> ',' !in KeepNonBlank(pieces)[j]
  {
    if pieces != [] {
      KeepNonBlankFrom(pieces[1..]);
      StripCommaFree(pieces[0]);
    }
  }

  /** Pieces that strip to the same strings keep the same tokens. */
  lemma {:induction false} KeepNonBlankStripEq(xs: seq<string>, ys: seq<string>)
    requires |xs| == |ys|
    requires forall i :: 0 <= i < |xs| ==> Strip(xs[i]) == Strip(ys[i])
    ensures KeepNonBlank(xs) == KeepNonBlank(ys)
  {
    if xs != [] {
      KeepNonBlankStripEq(xs[1..], ys[1..]);
    }
  }

  /** Names that are already tokens are kept, all of them and in order. */
  lemma {:induction false} KeepNonBlankOfTokens(names: seq<string>)
    requires forall i :: 0 <= i < |names| ==> names[i] != "" && Strip(names[i]) == names[i]
    ensures KeepNonBlank(names) == names
  {
    if names != [] {
      KeepNonBlankOfTokens(names[1..]);
    }
  }

  /** Each name with one space in front, as `", ".join` leaves every name after the first. */
  function Indented(names: seq<string>): (r: seq<string>)
    ensures |r| == |names|
    ensures forall i :: 0 <= i < |names| ==> r[i] == " " + names[i]
  {
    if names == [] then [] else [" " + names[0]] + Indented(names[1..])
  }

  /**
   * Splitting on `","` a comma-free prefix followed by names joined with
   * `", "`: the first piece is the prefix and the first name, every later
   * piece a space and the next name.
   */
  lemma {:induction false} SplitCommaJoin(p: string, names: seq<string>)
    requires |names| >= 1 && ',' !in p
    requires forall i :: 0 <= i < |names| ==> ',' !in names[i]
    ensures Split(p + Join(names, ", "), ",") == [p + names[0]] + Indented(names[1..])
    decreases |names|
  {
    if |names| == 1 {
      CharSepFree(p + names[0], ',');
      SplitSepFree(p + names[0], ",");
      assert names[1..] == [];
    } else {
      var rest := names[1..];
      var a := p + names[0];
      var b := " " + Join(rest, ", ");
      assert p + Join(names, ", ") == a + "," + b;
      CharSepFree(a, ',');
      SplitFromAfterSep(a, ",", b, []);
      assert [] + a == a;
      SplitCommaJoin(" ", rest);
      assert Split(b, ",") == [" " + rest[0]] + Indented(rest[1..]);
      assert Indented(rest) == [" " + rest[0]] + Indented(rest[1..]);
    }
  }

  /**
   * Author names joined with `", "`, as `fetch_arxiv_data` writes them, are
   * read back by `main` as the same names, stripped, blank ones dropped.
   */
  lemma AuthorTokensOfJoin(names: seq<string>)
    requires forall i :: 0 <= i < |names| ==> ',' !in names[i]
    ensures AuthorTokens(Join(names, ", ")) == KeepNonBlank(names)
  {
    if names == [] {
      CharSepFree("", ',');
      SplitSepFree("", ",");
      assert KeepNonBlank([""]) == [];
    } else {
      SplitCommaJoin("", names);
      assert "" + Join(names, ", ") == Join(names, ", ");
      assert "" + names[0] == names[0];
      IndentedStripsLikeNames(names);
      KeepNonBlankStripEq([names[0]] + Indented(names[1..]), names);
    }
  }

  /** The first name and the indented later names strip to the names themselves. */
  lemma IndentedStripsLikeNames(names: seq<string>)
    requires |names| >= 1
    ensures var pieces := [names[0]] + Indented(names[1..]);
      |pieces| == |names| && forall i :: 0 <= i < |names| ==> Strip(pieces[i]) == Strip(names[i])
  {
    var pieces := [names[0]] + Indented(names[1..]);
    assert AllSpace(" ");
    forall i | 1 <= i < |names|
      ensures Strip(pieces[i]) == Strip(names[i])
    {
      assert pieces[i] == " " + names[i];
      StripSpacePrefix(" ", names[i]);
    }
  }

  /** Names that are already clean tokens survive the join and the split exactly. */
  lemma AuthorTokensRoundTrip(names: seq<string>)
    requires forall i :: 0 <= i < |names| ==> names[i] != "" && Strip(names[i]) == names[i] && ',' !in names[i]
    ensures AuthorTokens(Join(names, ", ")) == names
  {
    AuthorTokensOfJoin(names);
    KeepNonBlankOfTokens(names);
  }

  // ---------------------------------------------------------------------------
  // Merging profiles
  // ---------------------------------------------------------------------------

  /** `{**candidate, **detail}`: every key of either, the detail's value winning. */
  function Merge(c: Fields, d: Record): (r: Record)
    ensures r.Keys == c.Keys + d.Keys
    ensures forall k :: k in d ==> r[k] == d[k]
    ensures forall k :: k in c && k !in d ==> r[k] == JStr(c[k])
  {
    Lift(c) + d
  }

  /** A detail of `{}`, what a failed profile fetch yields, leaves the candidate as it was. */
  lemma MergeEmptyDetail(c: Fields)
    ensures Merge(c, map[]) == Lift(c)
  {
  }

  /** The three scrapers `main` calls, from a query, an author name and a profile URL. */
  datatype Resolvers = Resolvers(
    search: string -> seq<Fields>,
    candidates: string -> seq<Fields>,
    detail: string -> Record)

  /** The candidate dicts that carry a `name_link`, in order. */
  function Linked(cs: seq<Fields>): (r: seq<Fields>)
    ensures |r| <= |cs|
    ensures forall j :: 0 <= j < |r| ==> "name_link" in r[j] && r[j] in cs
  {
    if cs == [] then []
    else Linked(cs[..|cs| - 1]) + (if "name_link" in cs[|cs| - 1] then [cs[|cs| - 1]] else [])
  }

  /** Filtering distributes over concatenation: the linked candidates of `a + b` are those of `a`, then those of `b`. */
  lemma {:induction false} LinkedAppend(a: seq<Fields>, b: seq<Fields>)
    ensures Linked(a + b) == Linked(a) + Linked(b)
    decreases |b|
  {
    if b == [] {
      assert a + b == a;
    } else {
      var n := |b| - 1;
      assert (a + b)[..|a + b| - 1] == a + b[..n];
      assert (a + b)[|a + b| - 1] == b[n];
      LinkedAppend(a, b[..n]);
    }
  }

  /** One candidate is kept exactly when it carries a `name_link`. */
  lemma LinkedSingleton(c: Fields)
    ensures Linked([c]) == (if "name_link" in c then [c] else [])
  {
    assert [c][..0] == [];
  }

  /** A dict is among the linked candidates exactly when it is a candidate with a `name_link`. */
  lemma {:induction false} LinkedMembers(cs: seq<Fields>)
    ensures forall c :: c in Linked(cs) <==> c in cs && "name_link" in c
  {
    if cs != [] {
      var init := cs[..|cs| - 1];
      LinkedMembers(init);
      assert cs == init + [cs[|cs| - 1]];
    }
  }

  /** The profile loop of `main`: each linked candidate merged with the detail of its link. */
  function DetailedProfiles(cs: seq<Fields>, detail: string -> Record): seq<Record> {
    if cs == [] then []
    else
      var c := cs[|cs| - 1];
      DetailedProfiles(cs[..|cs| - 1], detail)
        + (if "name_link" in c then [Merge(c, detail(c["name_link"]))] else [])
  }

  /**
   * `profiles` holds exactly the candidates with a link, in order, each
   * merged with its detail: one entry per linked candidate and none for the
   * others.
   */
  lemma {:induction false} DetailedProfilesAreLinked(cs: seq<Fields>, detail: string -> Record)
    ensures var ps, ls := DetailedProfiles(cs, detail), Linked(cs);
      && |ps| == |ls|
      && forall j :: 0 <= j < |ls| ==> ps[j] == Merge(ls[j], detail(ls[j]["name_link"]))
  {
    if cs != [] {
      DetailedProfilesAreLinked(cs[..|cs| - 1], detail);
    }
  }

  /** Every merged profile keeps the candidate's keys, `name_link` among them. */
  lemma DetailedProfilesKeepLink(cs: seq<Fields>, detail: string -> Record)
    ensures forall j :: 0 <= j < |DetailedProfiles(cs, detail)| ==> "name_link" in DetailedProfiles(cs, detail)[j]
  {
    DetailedProfilesAreLinked(cs, detail);
  }

  /** Candidates without a link are dropped, not kept unmerged. */
  lemma {:induction false} NoLinkNoProfiles(cs: seq<Fields>, detail: string -> Record)
    requires forall i :: 0 <= i < |cs| ==> "name_link" !in cs[i]
    ensures DetailedProfiles(cs, detail) == []
  {
    if cs != [] {
      NoLinkNoProfiles(cs[..|cs| - 1], detail);
    }
  }

  // ---------------------------------------------------------------------------
  // The database
  // ---------------------------------------------------------------------------

  /** `{"author_name": ..., "profiles": [...]}`. */
  datatype AuthorEntry = AuthorEntry(authorName: string, profiles: seq<Record>)

  /** `{"arxiv": ..., "scholar_search": [...], "authors_details": [...]}`. */
  datatype PaperEntry = PaperEntry(arxiv: Record, scholarSearch: seq<Fields>, authorsDetails: seq<AuthorEntry>)

  /** The entry for one author. */
  function AuthorEntryOf(name: string, res: Resolvers): AuthorEntry {
    AuthorEntry(name, DetailedProfiles(res.candidates(name), res.detail))
  }

  /** The entries for a list of authors, in order. */
  function AuthorEntries(names: seq<string>, res: Resolvers): (r: seq<AuthorEntry>)
    ensures |r| == |names|
    ensures forall j :: 0 <= j < |names| ==> r[j].authorName == names[j]
  {
    if names == [] then []
    else AuthorEntries(names[..|names| - 1], res) + [AuthorEntryOf(names[|names| - 1], res)]
  }

  /** The entry for one paper. */
  function PaperEntryOf(paper: Record, res: Resolvers): PaperEntry
    requires WellTyped(paper)
  {
    PaperEntry(paper, res.search(Query(paper)), AuthorEntries(AuthorTokens(GetStr(paper, "authors")), res))
  }

  /** The final database: one entry per paper, in input order. */
  function Database(papers: seq<Record>, res: Resolvers): seq<PaperEntry>
    requires forall i :: 0 <= i < |papers| ==> WellTyped(papers[i])
  {
    if papers == [] then []
    else Database(papers[..|papers| - 1], res) + [PaperEntryOf(papers[|papers| - 1], res)]
  }

  /** One entry per paper, in input order, each the entry for that paper. */
  lemma {:induction false} DatabaseShape(papers: seq<Record>, res: Resolvers)
    requires forall i :: 0 <= i < |papers| ==> WellTyped(papers[i])
    ensures |Database(papers, res)| == |papers|
    ensures forall i :: 0 <= i < |papers| ==> Database(papers, res)[i] == PaperEntryOf(papers[i], res)
  {
    if papers != [] {
      var init := papers[..|papers| - 1];
      DatabaseShape(init, res);
      var db, prev := Database(papers, res), Database(init, res);
      assert db == prev + [PaperEntryOf(papers[|papers| - 1], res)];
      forall i | 0 <= i < |init|
        ensures db[i] == PaperEntryOf(papers[i], res)
      {
        assert db[i] == prev[i];
        assert init[i] == papers[i];
      }
    }
  }

  /**
   * The entry for a paper holds the paper itself, the search on its quoted
   * title, and one author entry per author token, in order, each holding
   * that author's detailed profiles.
   */
  lemma PaperEntryShape(paper: Record, res: Resolvers)
    requires WellTyped(paper)
    ensures var e, names := PaperEntryOf(paper, res), AuthorTokens(GetStr(paper, "authors"));
      && e.arxiv == paper
      && e.scholarSearch == res.search("\"" + GetStr(paper, "title") + "\"")
      && |e.authorsDetails| == |names|
      && forall j :: 0 <= j < |names| ==>
           e.authorsDetails[j] == AuthorEntry(names[j], DetailedProfiles(res.candidates(names[j]), res.detail))
  {
    AuthorEntriesAre(AuthorTokens(GetStr(paper, "authors")), res);
  }

  /** Each author entry is the one for the author at the same position. */
  lemma {:induction false} AuthorEntriesAre(names: seq<string>, res: Resolvers)
    ensures forall j :: 0 <= j < |names| ==> AuthorEntries(names, res)[j] == AuthorEntryOf(names[j], res)
  {
    if names != [] {
      AuthorEntriesAre(names[..|names| - 1], res);
    }
  }

  /** The profile loop of `main` for one author. */
  method ResolveProfiles(profiles: seq<Fields>, res: Resolvers) returns (detailed: seq<Record>)
    ensures detailed == DetailedProfiles(profiles, res.detail)
  {
    detailed := [];
    var k := 0;
    while k < |profiles|
      invariant 0 <= k <= |profiles|
      invariant detailed == DetailedProfiles(profiles[..k], res.detail)
    {
      var profile := profiles[k];
      assert profiles[..k + 1][..k] == profiles[..k];
      if "name_link" in profile {
        var profileUrl := profile["name_link"];
        var profileData := res.detail(profileUrl);
        var combined := Merge(profile, profileData);
        detailed := detailed + [combined];
      }
      k := k + 1;
    }
    assert profiles[..k] == profiles;
  }

  /** The author loop of `main` for one paper. */
  method ResolveAuthors(authorsList: seq<string>, res: Resolvers) returns (authorsDetails: seq<AuthorEntry>)
    ensures authorsDetails == AuthorEntries(authorsList, res)
  {
    authorsDetails := [];
    var j := 0;
    while j < |authorsList|
      invariant 0 <= j <= |authorsList|
      invariant authorsDetails == AuthorEntries(authorsList[..j], res)
    {
      var author := authorsList[j];
      assert authorsList[..j + 1][..j] == authorsList[..j];
      var profiles := res.candidates(author);
      var detailed := ResolveProfiles(profiles, res);
      authorsDetails := authorsDetails + [AuthorEntry(author, detailed)];
      j := j + 1;
    }
    assert authorsList[..j] == authorsList;
  }

  /** The entry `main` builds for one paper. */
  method ResolvePaper(paper: Record, res: Resolvers) returns (paperEntry: PaperEntry)
    requires WellTyped(paper)
    ensures paperEntry == PaperEntryOf(paper, res)
  {
    var query := Query(paper);
    var scholarResults := res.search(query);
    var authorsList := AuthorTokens(GetStr(paper, "authors"));
    var authorsDetails := ResolveAuthors(authorsList, res);
    paperEntry := PaperEntry(paper, scholarResults, authorsDetails);
  }

  /** The body of `main` between loading the papers and saving the database. */
  method Run(papers: seq<Record>, res: Resolvers) returns (finalDatabase: seq<PaperEntry>)
    requires forall i :: 0 <= i < |papers| ==> WellTyped(papers[i])
    ensures finalDatabase == Database(papers, res)
  {
    finalDatabase := [];
    var i := 0;
    while i < |papers|
      invariant 0 <= i <= |papers|
      invariant finalDatabase == Database(papers[..i], res)
    {
      assert papers[..i + 1][..i] == papers[..i];
      var paperEntry := ResolvePaper(papers[i], res);
      finalDatabase := finalDatabase + [paperEntry];
      i := i + 1;
    }
    assert papers[..i] == papers;
  }

  // ---------------------------------------------------------------------------
  // Papers from the arXiv reader
  // ---------------------------------------------------------------------------

  /** A record written by `fetch_arxiv_data` can be read by `main`. */
  lemma PaperRecordWellTyped(e: ArxivFeed.Entry)
    requires ArxivFeed.WellFormedTimestamp(e.published)
    ensures WellTyped(ArxivFeed.PaperRecord(e))
  {
    ArxivFeed.PaperRecordText(e);
  }

  /**
   * For a record written by `fetch_arxiv_data`, `main` searches for the
   * cleaned title in quotes and looks up the entry's own author names.
   */
  lemma PaperRecordJoin(e: ArxivFeed.Entry)
    requires ArxivFeed.WellFormedTimestamp(e.published)
    requires forall i :: 0 <= i < |e.authorNames| ==> ',' !in e.authorNames[i]
    ensures WellTyped(ArxivFeed.PaperRecord(e))
    ensures Query(ArxivFeed.PaperRecord(e)) == "\"" + ArxivFeed.CleanText(e.title) + "\""
    ensures AuthorTokens(GetStr(ArxivFeed.PaperRecord(e), "authors")) == KeepNonBlank(e.authorNames)
  {
    ArxivFeed.PaperRecordText(e);
    AuthorTokensOfJoin(e.authorNames);
  }

  // ---------------------------------------------------------------------------
  // The join over the scrapers of ScholarScrape
  // ---------------------------------------------------------------------------

  /**
   * What the network returns: the parsed search page for a query, the
   * parsed author-search page for a name, the parsed profile page for a URL;
   * `None` where the request raised.
   */
  datatype Web = Web(
    searchPage: string -> Option<seq<SearchBlock>>,
    candidatePage: string -> Option<seq<CandidateBlock>>,
    profilePage: string -> Option<ProfilePage>)

  /** The three scrapers of googlescholar.py over the pages `web` returns. */
  function ScrapingResolvers(web: Web): Resolvers {
    Resolvers(
      q => ScholarSearch(web.searchPage(q)),
      n => ScholarProfiles(web.candidatePage(n)),
      u => ProfileDetail(web.profilePage(u)))
  }

  /** A failed title search leaves the paper with no search results, and its entry is still made. */
  lemma FailedSearchKeepsPaper(paper: Record, web: Web)
    requires WellTyped(paper)
    requires web.searchPage(Query(paper)).None?
    ensures PaperEntryOf(paper, ScrapingResolvers(web)).scholarSearch == []
    ensures PaperEntryOf(paper, ScrapingResolvers(web)).arxiv == paper
  {
  }

  /** One candidate block that raises leaves its author with no profiles. */
  lemma FailedCandidateEmptiesAuthor(name: string, web: Web, i: nat)
    requires web.candidatePage(name).Some?
    requires i < |web.candidatePage(name).value| && CandidateFails(web.candidatePage(name).value[i])
    ensures AuthorEntryOf(name, ScrapingResolvers(web)).profiles == []
  {
    ProfilesOneFailureEmptiesAll(web.candidatePage(name).value, i);
  }

  /**
   * A merged profile keeps the candidate's link; when its page was fetched
   * it gains `articles` and `citation_metrics`, and when the fetch failed it
   * is the candidate unchanged.
   */
  lemma MergedProfile(c: Fields, web: Web)
    requires "name_link" in c
    ensures var m := Merge(c, ScrapingResolvers(web).detail(c["name_link"]));
      && m["name_link"] == JStr(c["name_link"])
      && (web.profilePage(c["name_link"]).Some? ==> "articles" in m && "citation_metrics" in m)
      && (web.profilePage(c["name_link"]).None? ==> m == Lift(c))
  {
    ProfileDetailShape(web.profilePage(c["name_link"]));
  }
}
