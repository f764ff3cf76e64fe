# RecSys paper database: arXiv reader and Google Scholar join, in Dafny

This project models the two scripts that build the RecSys paper database.

`arxiv.py` reads the arXiv Atom feed for a category. `fetch_arxiv_data` turns each feed entry into a twelve-key paper dict:
- the bare arXiv id;
- no submitter;
- the publication date;
- the author names joined with `", "`;
- the title and abstract, stripped and with newlines replaced;
- the optional arXiv fields;
- the first category term.

`save_data` then picks the output file: `<name>.json`, `<name>.csv`, or a `ValueError` for any other format.

`googlescholar.py` enriches those dicts with Google Scholar data. For every paper, `main`:
- searches Scholar for the title in double quotes (`get_scholar_data`);
- splits the comma-separated `authors` string into names;
- for each name, searches Scholar's author index (`get_scholar_profiles`);
- for every candidate with a profile link, merges in the detail read from its profile page (`get_author_profile_data`) as `{**candidate, **detail}`.

The result is one `{"arxiv", "scholar_search", "authors_details"}` entry per paper, in input order.

## How the model is laid out

- `wrappers.dfy`: `Option` and `Result`.
- `text.dfy`: the Python string operations the scripts rely on, each defined as Python defines it.
  - `str.isspace` covers the full Unicode whitespace set.
  - `strip`.
  - `split(sep)` is a leftmost, non-overlapping scan.
  - `split()`, `sep.join` and `replace` of one character.
- `json_values.dfy`: JSON values, dicts of strings (`Fields`) and dicts of JSON (`Record`).
- `arxiv_feed.dfy`: `fetch_arxiv_data` after the feed is parsed, and `save_data`'s choice of file.
- `scholar_scrape.dfy`: the three scrapers.
  - The network fetch and the HTML selectors are inputs.
  - A fetch that raised is `None`, and a selector that matched nothing is `None`.
  - A result block whose extraction raised is an `Unparseable…` block.
  - Each scraper is a specification function plus a method with the source's loop, proved equal to it.
- `scholar_pipeline.dfy`: the join in `main`.
  - The three scrapers are function-valued parameters (`Resolvers`), so the join is proved for any scraper behaviour.
  - `ScrapingResolvers` plugs in the scrapers of `scholar_scrape.dfy` over given pages.
  - `Run` is `main`'s loop, as three nested loops (`Run`, `ResolveAuthors`, `ResolveProfiles`). It is proved equal to `Database`.

### Behaviour worth noting

- `main` **drops** candidates without a profile link from `profiles` (googlescholar.py:216-224); they are not kept unmerged. `NoLinkNoProfiles` and `DetailedProfilesAreLinked` state this.
- `main` has no `try` around a paper, an author or a profile. Failures are absorbed only inside the three scrapers, and in different ways:
  - `get_scholar_data` skips a failing block and keeps the rest (`SearchSkipsOnlyFailingBlock`).
  - In `get_scholar_profiles`, one `try` encloses the whole loop. A single failing candidate block therefore empties the author's whole candidate list (`ProfilesOneFailureEmptiesAll`, `FailureIsolationDiffers`). One such failure is `split()[-1]` on a blank cited-by text (googlescholar.py:95, `CandidateFails`).
- Field text is taken as `get_text()` returns it; googlescholar.py does not collapse whitespace.
- `get_author_profile_data` does not filter the profile identity fields (`name`, `position`, `email`, `departments`) for empty values, unlike results, candidates and articles (`ProfileDetailShape`). In `{**candidate, **detail}` an empty profile field therefore overrides the candidate's.

## Model

| member | source | states |
|---|---|---|
| Text.Strip | googlescholar.py:209 | `strip()` returns the empty string exactly when the input is all whitespace; otherwise it starts and ends with a non-whitespace character |
| Text.TrimLeftShape | arxiv.py:37 | `lstrip()` removes a whitespace prefix and stops at the first non-whitespace character |
| Text.TrimRightShape | arxiv.py:37 | `rstrip()` removes a whitespace suffix and stops at the last non-whitespace character |
| Text.StripSlice | googlescholar.py:209 | what `strip()` keeps is one contiguous slice of the input, and what it removes on either side is whitespace |
| Text.StripIdempotent | googlescholar.py:209 | stripping a stripped string changes nothing |
| Text.StripSpacePrefix | googlescholar.py:209 | leading whitespace never changes what `strip()` returns |
| Text.SplitJoin | googlescholar.py:209 | the pieces of `s.split(sep)` joined with `sep` give `s` back, and no piece contains `sep` |
| Text.SplitSepFree | arxiv.py:33 | a string without the separator splits into itself alone |
| Text.SplitOnePiece | arxiv.py:33 | a string that splits into a single piece holds no separator |
| Text.SplitAtFirstMatch | arxiv.py:33 | with the first separator right after `p` and none in `q`, `split` yields exactly `[p, q]` |
| Text.SplitFromAfterSep | googlescholar.py:209 | a one-character separator after a separator-free prefix closes exactly that prefix, and the scan continues on the rest |
| Text.CharSepFree | googlescholar.py:209 | a string without the character `c` holds no occurrence of the separator `c` |
| Text.WordsShape | googlescholar.py:95 | `split()` yields non-empty words without whitespace, and no words exactly when the text is blank |
| Text.WordsAtSpace | googlescholar.py:95 | a whitespace character ends a word: `split()` of `a + c + b` is the words of `a` followed by those of `b` |
| Text.WordsOfWord | googlescholar.py:95 | a non-empty run without whitespace is exactly one word, so the words are the maximal non-whitespace runs, in order |
| Text.WordsAppendSpace | googlescholar.py:95 | whitespace appended to a text adds no word |
| Text.WordsTrimRight | googlescholar.py:95 | trailing whitespace adds no word |
| Text.WordsLast | googlescholar.py:95 | in a text ending in non-whitespace, the last word is the run at its end, preceded by whitespace or by nothing |
| Text.LastWordOfTrimmed | googlescholar.py:95 | non-blank text has a last word, and it is the final run of the text with its trailing whitespace removed |
| Text.LastWord | googlescholar.py:95 | `split()[-1]` of non-blank text is a non-empty word without whitespace, and is the final run of the text with its trailing whitespace removed |
| JsonValues.Lift | googlescholar.py:220 | a dict of strings seen as JSON keeps its keys, each value the same string |
| ArxivFeed.JoinEndsWithSepLast | arxiv.py:33 | two or more pieces joined with a separator end with the separator and the last piece |
| ArxivFeed.MarkerBeforeId | arxiv.py:33 | when `entry.id` splits into two or more pieces on `/abs/`, an `/abs/` immediately precedes the id |
| ArxivFeed.ArxivIdShape | arxiv.py:33 | `entry.id.split('/abs/')[-1]` is a suffix of `entry.id` and contains no `/abs/`; when `entry.id` contains `/abs/`, an `/abs/` immediately precedes it: the last match of `split`'s leftmost, non-overlapping scan |
| ArxivFeed.ArxivIdOverlappingMarkers | arxiv.py:33 | with overlapping markers the scan takes the first: for `x/abs/abs/y` the id is `abs/y`, not the text after the last `/abs/` |
| ArxivFeed.ArxivIdWithoutMarker | arxiv.py:33 | an id without `/abs/` is kept whole |
| ArxivFeed.ArxivIdOfAbsUrl | arxiv.py:33 | for `p + "/abs/" + q` with no earlier `/abs/` and none in `q`, the id is `q` |
| ArxivFeed.Digits | arxiv.py:35 | a number printed zero-padded at a width has exactly that many digits |
| ArxivFeed.DigitsOfNum | arxiv.py:31-35 | printing the value of a digit string zero-padded at its own width gives the string back |
| ArxivFeed.PublishedDate | arxiv.py:31-35 | parsing a well-formed `%Y-%m-%dT%H:%M:%SZ` timestamp and printing it with `%Y-%m-%d` gives its first ten characters |
| ArxivFeed.CleanText | arxiv.py:37 | `s.strip().replace('\n', ' ')` holds no newline and no outer whitespace, has the stripped length, and is empty exactly when `s` is blank |
| ArxivFeed.CleanTextIdempotent | arxiv.py:37 | cleaning a cleaned title or abstract changes nothing |
| ArxivFeed.PaperDict | arxiv.py:32-45 | a paper dict has exactly the twelve keys of the literal |
| ArxivFeed.PaperRecordDate | arxiv.py:31-35 | `submitter` is `None` and `published` is the date part of the entry's timestamp |
| ArxivFeed.PaperRecordId | arxiv.py:33 | `id` is the arXiv id cut from `entry.id`: a string without `/abs/`, equal to `entry.id` when that has none |
| ArxivFeed.PaperRecordText | arxiv.py:36-44 | `authors` is the names joined with `", "`, and `title` and `abstract` are the cleaned texts |
| ArxivFeed.PaperRecordCategories | arxiv.py:42 | `categories` is the first tag's term, and `None` exactly when the entry has no tags |
| ArxivFeed.FetchArxivData | arxiv.py:28-48 | one paper dict per feed entry, in feed order, each built from that entry |
| ArxivFeed.SaveData | arxiv.py:59-75 | `json` writes `<file>.json` with all papers; `csv` writes `<file>.csv`, with the first paper's keys as columns and every row fitting them, or an empty file for no papers; `csv` raises `DictWriter`'s `ValueError` exactly when a paper has a key the first lacks; any other format raises `ValueError` with its message |
| ArxivFeed.CsvColumnsOfFeed | arxiv.py:63-70 | saving the feed reader's papers as CSV never raises and writes one column per paper-dict key |
| ScholarScrape.AbsoluteLink | googlescholar.py:43 | the link is the Scholar base followed by the `href`, so the `href` can be read back after the base |
| ScholarScrape.DropEmpty | googlescholar.py:52 | the empty-field filter keeps a subset of the keys with their values unchanged, keeps every non-empty value and drops every empty one |
| ScholarScrape.ResultFields | googlescholar.py:23-52 | a search result has only the nine result keys and no empty value |
| ScholarScrape.RawResultTitle | googlescholar.py:25-31 | before the empty-value filter, the result dict holds the title keys exactly as the title element gives them |
| ScholarScrape.RawResultLinks | googlescholar.py:33-50 | before the empty-value filter, each snippet, count and link key is present exactly when its hit is, with the hit's text or absolute link |
| ScholarScrape.ResultTitleKeys | googlescholar.py:25-31 | `title`, `title_link` and `id` are present exactly when the title element, its `<a>` and its `href` are found and the value is non-empty; they are the title text, the `href` and the `id` attribute |
| ScholarScrape.ResultLinkKeys | googlescholar.py:33-50 | each snippet, count and link key is present exactly when its selector matched with non-empty text, and is that text; `cited_link` and `versions_link` are present whenever their `<a>` is, even without an `href`, and are its absolute link |
| ScholarScrape.GetScholarData | googlescholar.py:17-59 | the search loop returns the results of the blocks that did not raise, in page order, and `[]` when the fetch raised |
| ScholarScrape.SearchResultsAppend | googlescholar.py:21-55 | results of consecutive stretches of blocks concatenate, so page order is kept |
| ScholarScrape.SearchSkipsOnlyFailingBlock | googlescholar.py:22-55 | a block whose parsing raises drops out and nothing else changes |
| ScholarScrape.SearchResultsAllParsed | googlescholar.py:21-53 | when no block raises there is one result per block, each that block's fields |
| ScholarScrape.SearchResultsWellFormed | googlescholar.py:21-53 | there are at most as many results as blocks, each with only result keys and no empty value |
| ScholarScrape.CandidateFields | googlescholar.py:77-97 | a candidate block fails exactly when it is unparseable or its cited-by text is blank; otherwise it gives a dict of candidate keys with no empty value |
| ScholarScrape.RawCandidateName | googlescholar.py:78-83 | before the empty-value filter, the candidate dict holds the name keys exactly as the name element gives them |
| ScholarScrape.RawCandidateOthers | googlescholar.py:84-95 | before the empty-value filter, `position`, `email`, `departments` and `cited_by_count` are present exactly when their hit is, with its text or last word |
| ScholarScrape.CandidateNameKeys | googlescholar.py:78-83 | `name` is present when the name text is non-empty; `name_link` is present exactly when the name's `<a>` has an `href`, and is its absolute link |
| ScholarScrape.CandidateOtherKeys | googlescholar.py:84-95 | `position`, `email` and `departments` are present exactly for non-empty hits, and are the hit's text; `cited_by_count` is present whenever the cited-by element is, and is its last word |
| ScholarScrape.GetScholarProfiles | googlescholar.py:73-102 | the candidate loop returns every block's dict in order, or `[]` when the fetch or any block raised |
| ScholarScrape.ProfilesOneFailureEmptiesAll | googlescholar.py:73-102 | one failing candidate block empties the whole list |
| ScholarScrape.ProfilesAllParsed | googlescholar.py:76-99 | with no failing block there is one candidate per block, each that block's dict |
| ScholarScrape.FailureIsolationDiffers | googlescholar.py:17-102 | the same failing block costs the search results one entry and the candidate list everything |
| ScholarScrape.ArticleFields | googlescholar.py:133-146 | an article has only `title`, `link`, `authors` and `publication`, with no empty value |
| ScholarScrape.ArticleFieldsKeys | googlescholar.py:134-145 | `title` is the title text and `link` the absolute `href`, each present exactly when non-empty; `authors` is the first `.gs_gray` text and `publication` the second, each present exactly when it exists and is non-empty |
| ScholarScrape.IdentityFieldsValues | googlescholar.py:117-128 | `name`, `position`, `email` and `departments` are present exactly when their selector matched, each with the text found, empty or not |
| ScholarScrape.CitationTableValues | googlescholar.py:154-170 | the three metric rows are `{}` for a missing cell and `{key: {"all": text}}` with the cell's text for a found one |
| ScholarScrape.ProfileDetailShape | googlescholar.py:112-178 | a failed fetch gives `{}`; otherwise there is no `name_link`, `name`, `position`, `email` and `departments` are present exactly when their selector matched and hold its text unfiltered, there is one article per row in order, and `citation_metrics` has exactly three rows, `citations`, `h_index` and `i_index`, each `{}` or `{key: {"all": text}}` with the cell's text, non-empty exactly when its cell was found |
| ScholarScrape.GetAuthorProfileData | googlescholar.py:112-178 | the profile scraper with its article loop builds exactly the profile detail |
| ScholarPipeline.QueryQuotesTitle | googlescholar.py:204 | the search query is the title, whole and unchanged, between one pair of double quotes |
| ScholarPipeline.KeepNonBlankShape | googlescholar.py:209 | every author token is non-empty and already stripped |
| ScholarPipeline.AuthorTokensShape | googlescholar.py:209 | every author token is non-empty, has no outer whitespace and contains no comma |
| ScholarPipeline.KeepNonBlankStripEq | googlescholar.py:209 | pieces that strip to the same strings give the same tokens |
| ScholarPipeline.KeepNonBlankOfTokens | googlescholar.py:209 | names that are already tokens are all kept, in order |
| ScholarPipeline.SplitCommaJoin | googlescholar.py:209 | splitting on `","` names joined with `", "` gives the first name and then each later name preceded by one space |
| ScholarPipeline.AuthorTokensOfJoin | googlescholar.py:209 | comma-free names joined with `", "` are read back as the same names, stripped, with blank ones dropped |
| ScholarPipeline.AuthorTokensRoundTrip | googlescholar.py:209 | clean, comma-free names survive the join and the split exactly |
| ScholarPipeline.Merge | googlescholar.py:220 | the merged profile has every key of either dict, the detail's value winning and the candidate's kept elsewhere |
| ScholarPipeline.MergeEmptyDetail | googlescholar.py:220 | a `{}` detail, what a failed profile fetch returns, leaves the candidate unchanged |
| ScholarPipeline.Linked | googlescholar.py:216-217 | the linked candidates are candidates that carry a `name_link` |
| ScholarPipeline.LinkedAppend | googlescholar.py:216-217 | the filter distributes over concatenation, so the candidates keep their order |
| ScholarPipeline.LinkedSingleton | googlescholar.py:216-217 | one candidate is kept exactly when it has a `name_link` |
| ScholarPipeline.LinkedMembers | googlescholar.py:216-217 | a dict is kept exactly when it is a candidate with a `name_link` |
| ScholarPipeline.DetailedProfilesAreLinked | googlescholar.py:215-224 | `profiles` holds exactly the candidates with a link, in order, each merged with the detail of its link |
| ScholarPipeline.DetailedProfilesKeepLink | googlescholar.py:216-221 | every merged profile keeps `name_link` |
| ScholarPipeline.NoLinkNoProfiles | googlescholar.py:216-224 | candidates without a link are dropped, not kept unmerged |
| ScholarPipeline.AuthorEntries | googlescholar.py:210-226 | one author entry per author token |
| ScholarPipeline.AuthorEntriesAre | googlescholar.py:211-226 | the author entry at each position is the one for the token at that position |
| ScholarPipeline.DatabaseShape | googlescholar.py:196-229 | one entry per paper, in input order, each the entry for that paper |
| ScholarPipeline.PaperEntryShape | googlescholar.py:198-228 | a paper's entry holds the paper unchanged, the search on its quoted title, and one author entry per token, in order, with that author's merged, linked profiles |
| ScholarPipeline.ResolveProfiles | googlescholar.py:215-224 | the profile loop builds exactly the linked, merged profiles |
| ScholarPipeline.ResolveAuthors | googlescholar.py:210-226 | the author loop builds exactly the author entries |
| ScholarPipeline.ResolvePaper | googlescholar.py:200-227 | the body of the paper loop builds exactly the paper's entry |
| ScholarPipeline.Run | googlescholar.py:196-229 | `main`'s loop builds exactly the database |
| ScholarPipeline.PaperRecordWellTyped | googlescholar.py:200-209 | a dict written by the arXiv reader has a string `title` and `authors`, as `main` reads them |
| ScholarPipeline.PaperRecordJoin | googlescholar.py:204-209 | for a dict written by the arXiv reader, `main` searches for the cleaned title in quotes and looks up the entry's own author names, stripped and non-blank |
| ScholarPipeline.FailedSearchKeepsPaper | googlescholar.py:198-206 | a failed title search gives `scholar_search == []`, and the paper's entry is still made |
| ScholarPipeline.FailedCandidateEmptiesAuthor | googlescholar.py:212-225 | one failing candidate block leaves its author with no profiles |
| ScholarPipeline.MergedProfile | googlescholar.py:216-220 | a merged profile keeps the candidate's link; after a successful fetch it has `articles` and `citation_metrics`; after a failed one it is the candidate unchanged |

## Left out

- Network access is not modelled: `requests.get`, headers, the search and author-search URL templates, `quote` and the arXiv query URL. Pages are inputs keyed by the unencoded query, author name or profile URL.
- HTML parsing is not modelled: BeautifulSoup, the CSS selectors and `get_text()` (including `strip=True` on the snippet). Their outcomes are inputs, one `Option` per selector.
- Block failures are not derived: which HTML makes a block's extraction raise is given (`Unparseable…`). The exception is the blank cited-by text, whose failure is derived.
- `feedparser` is not modelled. Feed entries are inputs; `entry.published`, `entry.title` and `entry.summary` are taken as strings.
- `time.sleep` pacing, `print` logging, `argparse`, and the JSON/CSV file reads and writes (including `main`'s early return when the input file fails to load) are I/O and are left out.
- `main` reads the file that `fetch_arxiv_data`'s output was dumped to. `PaperRecordJoin` takes the loaded dict to be the dict that was written.
- Dict key order is not modelled: maps have none. This covers the key order of the JSON output and the CSV column order, so `SaveData` gives the columns as a set.
- ScholarPipeline.Run: requires every paper's `title` and `authors` to be absent or a string. In the source, a non-string `authors` raises in `split` and ends the run; a non-string title is printed with `str()`.
- ScholarScrape.ProfileDetail: an exception inside the citation-metrics `try` (googlescholar.py:152-172) would leave fewer than three rows. The model always builds three, because `select_one` and `get_text` raise on none of the modelled inputs.
- ScholarScrape.ProfileDetail: the model gives `{}` only for a failed fetch. An exception raised while reading a fetched page is not modelled.
- ArxivFeed.FetchArxivData: requires every timestamp to be well formed. In the source, a malformed one raises `ValueError` in `strptime` and ends the run.
- ArxivFeed.PublishedDate: requires zero-padded fields and prints `%Y` as four zero-padded digits. `strptime` also accepts unpadded fields, and platforms differ on `%Y` for years before 1000.
- ArxivFeed.SaveData: the `ValueError` raised by `writerows` is modelled by the start of its message only; the list of offending keys after it is not. The header and the rows before the offending one, already written to the file when it raises, are not modelled either.
- `save_data`'s final `print` of the count and the file contents written by `json.dump` and `csv.DictWriter` are not modelled. The model stops at which file is written and with which papers and columns.
