/**
 * The JSON-shaped values the scrapers and the feed reader build: Python
 * dicts of strings (`Fields`) and dicts whose values nest (`Record`).
 */
module JsonValues {

  /** A JSON value as the program produces it; `JNull` is Python's `None`. */
  datatype Json = JNull | JStr(str: string) | JList(items: seq<Json>) | JObj(fields: map<string, Json>)

  /** A dict whose values are all strings: one scraped result block, candidate or article. */
  type Fields = map<string, string>

  /** A dict with JSON values: an arXiv paper, a profile detail, a merged profile. */
  type Record = map<string, Json>

  /** A dict of strings seen as a dict of JSON values. */
  function Lift(f: Fields): (r: Record)
    ensures r.Keys == f.Keys
    ensures forall k :: k in f ==> r[k] == JStr(f[k])
  {
    map k | k in f :: JStr(f[k])
  }
}
