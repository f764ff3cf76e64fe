/**
 * The Python string operations the scrapers and the feed reader rely on:
 * `str.isspace`, `str.strip`, `str.split(sep)`, `str.split()` with no
 * argument, `sep.join(...)` and `str.replace` of one character.
 */
module Text {

  /** Python's `str.isspace`: the characters `strip()` and `split()` treat as whitespace. */
  predicate IsSpace(c: char) {
    || c == ' ' || c == '\t' || c == '\n' || c == '\r'
    || c == '\U{B}' || c == '\U{C}'
    || ('\U{1C}' <= c <= '\U{1F}')
    || c == '\U{85}' || c == '\U{A0}' || c == '\U{1680}'
    || ('\U{2000}' <= c <= '\U{200A}')
    || c == '\U{2028}' || c == '\U{2029}' || c == '\U{202F}' || c == '\U{205F}' || c == '\U{3000}'
  }

  predicate AllSpace(s: string) {
    forall i :: 0 <= i < |s| ==> IsSpace(s[i])
  }

  predicate NoSpace(s: string) {
    forall i :: 0 <= i < |s| ==> !IsSpace(s[i])
  }

  /** `s.lstrip()`: the suffix of `s` left after its leading whitespace. */
  function TrimLeft(s: string): (r: string)
    ensures |r| <= |s|
  {
    if s != [] && IsSpace(s[0]) then TrimLeft(s[1..]) else s
  }

  /** `lstrip()` removes a prefix of whitespace and stops at the first other character. */
  lemma {:induction false} TrimLeftShape(s: string)
    ensures var r := TrimLeft(s);
      && r == s[|s| - |r|..]
      && AllSpace(s[..|s| - |r|])
      && (r == [] || !IsSpace(r[0]))
  {
    if s != [] && IsSpace(s[0]) {
      TrimLeftShape(s[1..]);
      var r := TrimLeft(s[1..]);
      assert s[1..][|s| - 1 - |r|..] == s[|s| - |r|..];
      assert s[..|s| - |r|] == [s[0]] + s[1..][..|s| - 1 - |r|];
    } else {
      assert s[..0] == [];
    }
  }

  /** `s.rstrip()`: the prefix of `s` left after its trailing whitespace. */
  function TrimRight(s: string): (r: string)
    ensures |r| <= |s|
  {
    if s != [] && IsSpace(s[|s| - 1]) then TrimRight(s[..|s| - 1]) else s
  }

  /** `rstrip()` removes a suffix of whitespace and stops at the last other character. */
  lemma {:induction false} TrimRightShape(s: string)
    ensures var r := TrimRight(s);
      && r == s[..|r|]
      && AllSpace(s[|r|..])
      && (r == [] || !IsSpace(r[|r| - 1]))
  {
    if s != [] && IsSpace(s[|s| - 1]) {
      var n := |s| - 1;
      TrimRightShape(s[..n]);
      var r := TrimRight(s[..n]);
      assert s[..n][..|r|] == s[..|r|];
      assert s[|r|..] == s[..n][|r|..] + [s[n]];
    } else {
      assert s[|s|..] == [];
    }
  }

  /** `s.strip()`: `s` with its leading and trailing whitespace removed. */
  function Strip(s: string): (r: string)
    ensures |r| <= |s|
    ensures r == [] || (!IsSpace(r[0]) && !IsSpace(r[|r| - 1]))
    ensures r == [] <==> AllSpace(s)
  {
    var t := TrimLeft(s);
    TrimLeftShape(s);
    var r := TrimRight(t);
    TrimRightShape(t);
    assert r == [] ==> t[|r|..] == t && s == s[..|s| - |t|] + t;
    assert r != [] ==> s[|s| - |t|] == t[0] == r[0];
    r
  }

  /** Stripping twice is stripping once. */
  lemma StripIdempotent(s: string)
    ensures Strip(Strip(s)) == Strip(s)
  {
    var r := Strip(s);
    if r != [] {
      assert TrimLeft(r) == r;
      assert TrimRight(r) == r;
    }
  }

  /** What `strip()` removes is whitespace, and what it keeps is one contiguous slice of `s`. */
  lemma StripSlice(s: string)
    ensures var lead, r := |s| - |TrimLeft(s)|, Strip(s);
      && lead + |r| <= |s|
      && r == s[lead..lead + |r|]
      && AllSpace(s[..lead]) && AllSpace(s[lead + |r|..])
  {
    var t := TrimLeft(s);
    var r := TrimRight(t);
    TrimLeftShape(s);
    TrimRightShape(t);
    var lead := |s| - |t|;
    assert t == s[lead..];
    assert r == t[..|r|];
    assert t[..|r|] == s[lead..lead + |r|];
    assert t[|r|..] == s[lead + |r|..];
  }

  lemma {:induction false} TrimLeftSpacePrefix(p: string, s: string)
    requires AllSpace(p)
    ensures TrimLeft(p + s) == TrimLeft(s)
  {
    if p != [] {
      assert (p + s)[1..] == p[1..] + s;
      TrimLeftSpacePrefix(p[1..], s);
    } else {
      assert p + s == s;
    }
  }

  /** Leading whitespace never changes what `strip()` returns. */
  lemma StripSpacePrefix(p: string, s: string)
    requires AllSpace(p)
    ensures Strip(p + s) == Strip(s)
  {
    TrimLeftSpacePrefix(p, s);
  }

  // ---------------------------------------------------------------------------
  // str.split(sep) and sep.join(...)
  // ---------------------------------------------------------------------------

  /** `sep` occurs in `t` starting at index `i`. */
  predicate OccursAt(t: string, sep: string, i: int) {
    0 <= i && i + |sep| <= |t| && t[i..i + |sep|] == sep
  }

  /** No occurrence of `sep` in `t` starts before index `n`. */
  predicate NoMatchBefore(t: string, sep: string, n: int) {
    forall i :: 0 <= i < n ==> !OccursAt(t, sep, i)
  }

  /** `sep not in t`. */
  predicate SepFree(t: string, sep: string) {
    NoMatchBefore(t, sep, |t| + 1)
  }

  /**
   * The scan behind `s.split(sep)`: `cur` is the piece read so far; at each
   * position an occurrence of `sep` closes the piece and is skipped whole,
   * so occurrences are taken leftmost first and never overlap.
   */
  function SplitFrom(s: string, sep: string, cur: string): (r: seq<string>)
    requires |sep| > 0
    ensures |r| >= 1
    decreases |s|
  {
    if |sep| <= |s| && s[..|sep|] == sep then [cur] + SplitFrom(s[|sep|..], sep, [])
    else if s == [] then [cur]
    else SplitFrom(s[1..], sep, cur + [s[0]])
  }

  /** `s.split(sep)` for a non-empty separator. */
  function Split(s: string, sep: string): (r: seq<string>)
    requires |sep| > 0
    ensures |r| >= 1
  {
    SplitFrom(s, sep, [])
  }

  /** The pieces of `s.split(sep)` join back to `s`, and none of them holds `sep`. */
  lemma SplitJoin(s: string, sep: string)
    requires |sep| > 0
    ensures Join(Split(s, sep), sep) == s
    ensures forall k :: 0 <= k < |Split(s, sep)| ==> SepFree(Split(s, sep)[k], sep)
  {
    SplitFromJoin(s, sep, []);
    SplitFromPieces(s, sep, []);
    assert [] + s == s;
  }

  /** `sep.join(xs)`. */
  function Join(xs: seq<string>, sep: string): string {
    if |xs| == 0 then ""
    else if |xs| == 1 then xs[0]
    else xs[0] + sep + Join(xs[1..], sep)
  }

  lemma {:induction false} SplitFromJoin(s: string, sep: string, cur: string)
    requires |sep| > 0
    ensures Join(SplitFrom(s, sep, cur), sep) == cur + s
    decreases |s|
  {
    if |sep| <= |s| && s[..|sep|] == sep {
      var rest := SplitFrom(s[|sep|..], sep, []);
      SplitFromJoin(s[|sep|..], sep, []);
      assert ([cur] + rest)[1..] == rest;
      assert s == sep + s[|sep|..];
    } else if s == [] {
    } else {
      SplitFromJoin(s[1..], sep, cur + [s[0]]);
      assert cur + [s[0]] + s[1..] == cur + s;
    }
  }

  lemma {:induction false} SplitFromPieces(s: string, sep: string, cur: string)
    requires |sep| > 0
    requires NoMatchBefore(cur + s, sep, |cur|)
    ensures forall k :: 0 <= k < |SplitFrom(s, sep, cur)| ==> SepFree(SplitFrom(s, sep, cur)[k], sep)
    decreases |s|
  {
    var r := SplitFrom(s, sep, cur);
    if |sep| <= |s| && s[..|sep|] == sep {
      CurSepFree(s, sep, cur);
      SplitFromPieces(s[|sep|..], sep, []);
      assert [] + s[|sep|..] == s[|sep|..];
    } else if s == [] {
      assert cur + s == cur;
      assert SepFree(cur, sep);
    } else {
      var cur' := cur + [s[0]];
      assert cur' + s[1..] == cur + s;
      forall i | 0 <= i < |cur'|
        ensures !OccursAt(cur' + s[1..], sep, i)
      {
        if i == |cur| {
          assert (cur + s)[i..] == s;
        }
      }
      SplitFromPieces(s[1..], sep, cur');
    }
  }

  /** The piece closed by a match at the scan position holds no separator. */
  lemma CurSepFree(s: string, sep: string, cur: string)
    requires |sep| > 0
    requires NoMatchBefore(cur + s, sep, |cur|)
    ensures SepFree(cur, sep)
  {
    forall i | 0 <= i < |cur| + 1
      ensures !OccursAt(cur, sep, i)
    {
      if OccursAt(cur, sep, i) {
        assert (cur + s)[i..i + |sep|] == cur[i..i + |sep|];
        assert OccursAt(cur + s, sep, i);
      }
    }
  }

  /** The scan passes over a stretch with no match as part of the current piece. */
  lemma {:induction false} SplitFromSkip(s: string, sep: string, cur: string, n: nat)
    requires |sep| > 0 && n <= |s|
    requires NoMatchBefore(s, sep, n)
    ensures SplitFrom(s, sep, cur) == SplitFrom(s[n..], sep, cur + s[..n])
    decreases n
  {
    if n == 0 {
      assert cur + s[..0] == cur;
    } else {
      assert !OccursAt(s, sep, 0);
      assert !(|sep| <= |s| && s[..|sep|] == sep);
      forall i | 0 <= i < n - 1
        ensures !OccursAt(s[1..], sep, i)
      {
        if OccursAt(s[1..], sep, i) {
          assert s[1..][i..i + |sep|] == s[i + 1..i + 1 + |sep|];
          assert OccursAt(s, sep, i + 1);
        }
      }
      SplitFromSkip(s[1..], sep, cur + [s[0]], n - 1);
      assert s[1..][n - 1..] == s[n..];
      assert cur + [s[0]] + s[1..][..n - 1] == cur + s[..n];
    }
  }

  /** A string without the separator splits into itself alone. */
  lemma SplitSepFree(s: string, sep: string)
    requires |sep| > 0 && SepFree(s, sep)
    ensures Split(s, sep) == [s]
  {
    SplitFromSkip(s, sep, [], |s|);
    assert [] + s[..|s|] == s;
  }

  /** A string that splits into one piece holds no separator. */
  lemma SplitOnePiece(s: string, sep: string)
    requires |sep| > 0 && |Split(s, sep)| == 1
    ensures SepFree(s, sep)
  {
    SplitJoin(s, sep);
    assert Join(Split(s, sep), sep) == Split(s, sep)[0];
  }

  /**
   * When the first match of `sep` starts right after `p` and `q` holds no
   * separator, `split` yields exactly `[p, q]`.
   */
  lemma SplitAtFirstMatch(p: string, sep: string, q: string)
    requires |sep| > 0
    requires NoMatchBefore(p + sep + q, sep, |p|)
    requires SepFree(q, sep)
    ensures Split(p + sep + q, sep) == [p, q]
  {
    var s := p + sep + q;
    SplitFromSkip(s, sep, [], |p|);
    assert s[..|p|] == p && [] + p == p;
    var t := s[|p|..];
    assert t == sep + q;
    assert t[..|sep|] == sep && t[|sep|..] == q;
    SplitFromSkip(q, sep, [], |q|);
    assert q[|q|..] == [] && [] + q[..|q|] == q;
  }

  /** A one-character separator after a separator-free prefix closes exactly that prefix. */
  lemma {:induction false} SplitFromAfterSep(a: string, sep: string, b: string, cur: string)
    requires |sep| == 1 && SepFree(a, sep)
    ensures SplitFrom(a + sep + b, sep, cur) == [cur + a] + Split(b, sep)
    decreases |a|
  {
    var s := a + sep + b;
    if a == [] {
      assert s == sep + b && s[..1] == sep && s[1..] == b;
      assert cur + a == cur;
    } else {
      assert !OccursAt(a, sep, 0);
      assert s[..1] == a[..1];
      assert s[1..] == a[1..] + sep + b;
      forall i | 0 <= i < |a[1..]| + 1
        ensures !OccursAt(a[1..], sep, i)
      {
        if OccursAt(a[1..], sep, i) {
          assert a[1..][i..i + 1] == a[i + 1..i + 2];
          assert OccursAt(a, sep, i + 1);
        }
      }
      SplitFromAfterSep(a[1..], sep, b, cur + [a[0]]);
      assert cur + [a[0]] + a[1..] == cur + a;
    }
  }

  /** A string without the character `c` is free of the one-character separator `[c]`. */
  lemma CharSepFree(t: string, c: char)
    requires c !in t
    ensures SepFree(t, [c])
  {
    forall i | 0 <= i < |t| + 1
      ensures !OccursAt(t, [c], i)
    {
      if i < |t| {
        assert t[i..i + 1] == [t[i]];
      }
    }
  }

  // ---------------------------------------------------------------------------
  // str.split() with no argument
  // ---------------------------------------------------------------------------

  /**
   * The scan behind `s.split()`: `cur` is the word read so far; whitespace
   * closes a non-empty word, and runs of whitespace yield no empty words.
   */
  function WordsFrom(s: string, cur: string): seq<string>
    decreases |s|
  {
    if s == [] then (if cur == [] then [] else [cur])
    else if IsSpace(s[0]) then (if cur == [] then [] else [cur]) + WordsFrom(s[1..], [])
    else WordsFrom(s[1..], cur + [s[0]])
  }

  /** `s.split()`: the maximal runs of non-whitespace characters, in order. */
  function Words(s: string): seq<string> {
    WordsFrom(s, [])
  }

  predicate IsWordList(ws: seq<string>) {
    forall k :: 0 <= k < |ws| ==> ws[k] != [] && NoSpace(ws[k])
  }

  lemma {:induction false} WordsFromShape(s: string, cur: string)
    requires NoSpace(cur)
    ensures IsWordList(WordsFrom(s, cur))
    ensures WordsFrom(s, cur) == [] <==> cur == [] && AllSpace(s)
    decreases |s|
  {
    if s == [] {
    } else if IsSpace(s[0]) {
      WordsFromShape(s[1..], []);
      var head: seq<string> := if cur == [] then [] else [cur];
      var rest := WordsFrom(s[1..], []);
      assert WordsFrom(s, cur) == head + rest;
      assert forall k :: |head| <= k < |head| + |rest| ==> (head + rest)[k] == rest[k - |head|];
      assert AllSpace(s) <==> AllSpace(s[1..]) by {
        assert forall i :: 1 <= i < |s| ==> s[i] == s[1..][i - 1];
      }
    } else {
      WordsFromShape(s[1..], cur + [s[0]]);
    }
  }

  /** Every word of `s.split()` is non-empty and free of whitespace; there are none exactly when `s` is blank. */
  lemma WordsShape(s: string)
    ensures IsWordList(Words(s))
    ensures Words(s) == [] <==> AllSpace(s)
  {
    WordsFromShape(s, []);
  }

  /** A whitespace character between `a` and `b` ends the words of `a`; those of `b` follow. */
  lemma {:induction false} WordsFromAtSpace(a: string, c: char, b: string, cur: string)
    requires IsSpace(c)
    ensures WordsFrom(a + [c] + b, cur) == WordsFrom(a, cur) + Words(b)
    decreases |a|
  {
    var s := a + [c] + b;
    if a == [] {
      assert s[0] == c && s[1..] == b;
    } else {
      assert s[0] == a[0] && s[1..] == a[1..] + [c] + b;
      if IsSpace(a[0]) {
        WordsFromAtSpace(a[1..], c, b, []);
      } else {
        WordsFromAtSpace(a[1..], c, b, cur + [a[0]]);
      }
    }
  }

  /** `split()` of `a + c + b`, with `c` whitespace, is the words of `a` followed by those of `b`. */
  lemma WordsAtSpace(a: string, c: char, b: string)
    requires IsSpace(c)
    ensures Words(a + [c] + b) == Words(a) + Words(b)
  {
    WordsFromAtSpace(a, c, b, []);
  }

  /** A word read so far, continued by more non-whitespace, ends as one word. */
  lemma {:induction false} WordsFromOfWord(w: string, cur: string)
    requires NoSpace(w) && cur + w != []
    ensures WordsFrom(w, cur) == [cur + w]
    decreases |w|
  {
    if w != [] {
      assert !IsSpace(w[0]);
      assert NoSpace(w[1..]) by {
        assert forall i :: 0 <= i < |w| - 1 ==> w[1..][i] == w[i + 1];
      }
      assert WordsFrom(w, cur) == WordsFrom(w[1..], cur + [w[0]]);
      WordsFromOfWord(w[1..], cur + [w[0]]);
      assert cur + [w[0]] + w[1..] == cur + w;
    } else {
      assert cur + w == cur;
    }
  }

  /** A non-empty run without whitespace is a single word. */
  lemma WordsOfWord(w: string)
    requires w != [] && NoSpace(w)
    ensures Words(w) == [w]
  {
    WordsFromOfWord(w, []);
    assert [] + w == w;
  }

  /** `w` ends `u` and starts it or follows a whitespace character in it. */
  predicate IsFinalRun(u: string, w: string) {
    && |w| <= |u|
    && u[|u| - |w|..] == w
    && (|w| == |u| || IsSpace(u[|u| - |w| - 1]))
  }

  /** The index of the last whitespace character of `t`, or `-1` when it has none. */
  function LastSpaceIndex(t: string): (j: int)
    ensures -1 <= j < |t|
    ensures j >= 0 ==> IsSpace(t[j])
    ensures forall i :: j < i < |t| ==> !IsSpace(t[i])
  {
    if t == [] then -1
    else if IsSpace(t[|t| - 1]) then |t| - 1
    else
      var init := t[..|t| - 1];
      var j := LastSpaceIndex(init);
      assert forall i :: j < i < |t| - 1 ==> t[i] == init[i];
      j
  }

  /** When `t` ends in non-whitespace, its last word is a final run of it. */
  lemma WordsLast(t: string)
    requires t != [] && !IsSpace(t[|t| - 1])
    ensures Words(t) != []
    ensures IsFinalRun(t, Words(t)[|Words(t)| - 1])
  {
    var j := LastSpaceIndex(t);
    var w := t[j + 1..];
    assert NoSpace(w) by {
      assert forall i :: 0 <= i < |w| ==> w[i] == t[j + 1 + i];
    }
    if j < 0 {
      assert w == t;
      WordsOfWord(t);
    } else {
      assert t == t[..j] + [t[j]] + w;
      WordsAtSpace(t[..j], t[j], w);
      WordsOfWord(w);
    }
  }

  /** `s.split()[-1]`, defined only where Python does not raise `IndexError`. */
  function LastWord(s: string): (w: string)
    requires !AllSpace(s)
    ensures w != [] && NoSpace(w)
    ensures IsFinalRun(TrimRight(s), w)
  {
    WordsShape(s);
    LastWordOfTrimmed(s);
    var ws := Words(s);
    ws[|ws| - 1]
  }

  /** Whitespace appended to a text adds no word. */
  lemma WordsAppendSpace(t: string, u: string)
    requires AllSpace(u)
    ensures Words(t + u) == Words(t)
  {
    if u != [] {
      assert t + u == t + [u[0]] + u[1..];
      assert AllSpace(u[1..]) by {
        assert forall i :: 0 <= i < |u| - 1 ==> u[1..][i] == u[i + 1];
      }
      WordsAtSpace(t, u[0], u[1..]);
      WordsShape(u[1..]);
    } else {
      assert t + u == t;
    }
  }

  /** Trailing whitespace adds no word: `s.split()` is `s.rstrip().split()`. */
  lemma WordsTrimRight(s: string)
    ensures Words(s) == Words(TrimRight(s))
  {
    TrimRightShape(s);
    var t := TrimRight(s);
    assert s == t + s[|t|..];
    WordsAppendSpace(t, s[|t|..]);
  }

  /** The last word of non-blank `s` is a final run of `s.rstrip()`. */
  lemma LastWordOfTrimmed(s: string)
    requires !AllSpace(s)
    ensures Words(s) != []
    ensures IsFinalRun(TrimRight(s), Words(s)[|Words(s)| - 1])
  {
    TrimRightShape(s);
    var t := TrimRight(s);
    assert s[|t|..] != s;
    WordsTrimRight(s);
    WordsLast(t);
  }


  // ---------------------------------------------------------------------------
  // str.replace of one character
  // ---------------------------------------------------------------------------

  /** `s.replace(from, to)` for one-character arguments. */
  function ReplaceChar(s: string, from: char, to: char): (r: string)
    ensures |r| == |s|
    ensures forall i :: 0 <= i < |s| ==> r[i] == (if s[i] == from then to else s[i])
  {
    seq(|s|, i requires 0 <= i < |s| => if s[i] == from then to else s[i])
  }
}
