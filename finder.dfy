/**
 * The finder overlay: fuzzy search over file paths and case-insensitive
 * search over the lines of every file, both capped at `max_results`, and
 * the selection that moves over the results.
 */
module Finder {
  import opened Wrappers
  import opened Text
  import opened Paths
  import opened Sorting
  import Links

  datatype FinderMode = Files | Content

  /** A result: the file, the 1-based line for content hits, and the text shown. */
  datatype FinderResult = FinderResult(path: Path, line: Option<nat>, preview: string)

  /** `Iterator::take(n)`: the first `n` elements, or all of them when there are fewer. */
  function Take<T>(s: seq<T>, n: nat): (r: seq<T>)
    ensures |r| == if n < |s| then n else |s|
    ensures r <= s
  {
    if n < |s| then s[..n] else s
  }

  /** The result for a file in file mode: its path, shown as it displays. */
  function PathResult(p: Path): FinderResult {
    FinderResult(p, None, Display(p))
  }

  /** File mode with an empty query: the first `limit` files, in walk order. */
  function ListFiles(files: seq<Path>, limit: nat): (r: seq<FinderResult>)
    ensures |r| <= limit && |r| <= |files|
    ensures |files| <= limit ==> |r| == |files|
    ensures forall i :: 0 <= i < |r| ==> r[i] == PathResult(files[i])
  {
    Take(seq(|files|, i requires 0 <= i < |files| => PathResult(files[i])), limit)
  }

  /**
   * The fuzzy matcher: `score(candidate, query)` is the match score of the
   * candidate text, or None when it does not match at all.
   */
  type Scorer = (string, string) -> Option<int>

  /** The matching files with their scores, in walk order (`filter_map`). */
  function Scored(files: seq<Path>, query: string, score: Scorer): (r: seq<(int, FinderResult)>)
    ensures |r| <= |files|
    ensures forall k :: 0 <= k < |r| ==>
      r[k].1 == PathResult(r[k].1.path) && r[k].1.path in files && score(r[k].1.preview, query) == Some(r[k].0)
    ensures forall p :: p in files && score(Display(p), query).Some? ==> (score(Display(p), query).value, PathResult(p)) in r
  {
    if files == [] then []
    else
      var rest := Scored(files[1..], query, score);
      var p := files[0];
      assert forall q :: q in files ==> q == p || q in files[1..];
      match score(Display(p), query)
      case None => rest
      case Some(s) => [(s, PathResult(p))] + rest
  }

  /** The comparator `b.0.cmp(&a.0)`: higher scores first. */
  predicate ScoreGe(a: (int, FinderResult), b: (int, FinderResult)) {
    a.0 >= b.0
  }

  lemma {:induction false} ScoreGeTotalPreorder()
    ensures TotalPreorder(ScoreGe)
  {
  }

  /** The results of a ranking with the scores dropped. */
  function Results(ranked: seq<(int, FinderResult)>): (r: seq<FinderResult>)
    ensures |r| == |ranked|
    ensures forall i :: 0 <= i < |r| ==> r[i] == ranked[i].1
  {
    seq(|ranked|, i requires 0 <= i < |ranked| => ranked[i].1)
  }

  /** File mode with a query: the matching files, best score first, at most `limit` of them. */
  function FuzzyFiles(files: seq<Path>, query: string, score: Scorer, limit: nat): (r: seq<FinderResult>)
    ensures |r| <= limit && |r| <= |files|
  {
    Results(Take(SortBy(Scored(files, query, score), ScoreGe), limit))
  }

  /**
   * Fuzzy results are matching files shown by their path, at most `limit`
   * of them, ordered by descending score.
   */
  lemma {:induction false} FuzzyFilesRanked(files: seq<Path>, query: string, score: Scorer, limit: nat)
    ensures var r := FuzzyFiles(files, query, score, limit);
      && |r| <= limit
      && (forall i :: 0 <= i < |r| ==> r[i] == PathResult(r[i].path) && r[i].path in files && score(r[i].preview, query).Some?)
      && (forall i, j :: 0 <= i < j < |r| ==> score(r[i].preview, query).value >= score(r[j].preview, query).value)
  {
    var scored := Scored(files, query, score);
    var sorted := SortBy(scored, ScoreGe);
    ScoreGeTotalPreorder();
    SortBySorted(scored, ScoreGe);
    var taken := Take(sorted, limit);
    var r := Results(taken);
    forall i | 0 <= i < |r|
      ensures r[i] == PathResult(r[i].path) && r[i].path in files && score(r[i].preview, query) == Some(taken[i].0)
    {
      assert taken[i] == sorted[i];
      assert sorted[i] in multiset(scored);
    }
  }

  /** When no more than `limit` files match, every matching file is listed. */
  lemma {:induction false} FuzzyFilesComplete(files: seq<Path>, query: string, score: Scorer, limit: nat, p: Path)
    requires |Scored(files, query, score)| <= limit
    requires p in files && score(Display(p), query).Some?
    ensures PathResult(p) in FuzzyFiles(files, query, score, limit)
  {
    var scored := Scored(files, query, score);
    var sorted := SortBy(scored, ScoreGe);
    var r := Results(Take(sorted, limit));
    var x := (score(Display(p), query).value, PathResult(p));
    assert x in multiset(sorted);
    var k :| 0 <= k < |sorted| && sorted[k] == x;
    assert r[k] == PathResult(p);
  }

  /**
   * A matching file is left out only when the cap is reached by files that
   * score at least as high: the results are the `limit` best matches.
   */
  lemma {:induction false} FuzzyFilesBest(files: seq<Path>, query: string, score: Scorer, limit: nat, p: Path)
    requires p in files && score(Display(p), query).Some?
    requires PathResult(p) !in FuzzyFiles(files, query, score, limit)
    ensures var r := FuzzyFiles(files, query, score, limit);
      && |r| == limit
      && forall i :: 0 <= i < |r| ==>
           score(r[i].preview, query).Some? && score(r[i].preview, query).value >= score(Display(p), query).value
  {
    var scored := Scored(files, query, score);
    var sorted := SortBy(scored, ScoreGe);
    ScoreGeTotalPreorder();
    SortBySorted(scored, ScoreGe);
    var x := (score(Display(p), query).value, PathResult(p));
    assert x in multiset(sorted);
    var k :| 0 <= k < |sorted| && sorted[k] == x;
    CutBelow(sorted, k, limit);
    RankedScores(files, query, score, limit);
  }

  /** In a ranking, an entry cut off by `Take` lies below a full prefix of entries scoring at least as high. */
  lemma {:induction false} CutBelow(sorted: seq<(int, FinderResult)>, k: nat, limit: nat)
    requires Sorted(sorted, ScoreGe) && k < |sorted|
    requires sorted[k].1 !in Results(Take(sorted, limit))
    ensures |Take(sorted, limit)| == limit
    ensures forall i :: 0 <= i < limit ==> sorted[i].0 >= sorted[k].0
  {
    assert k >= limit;
  }

  /** Each fuzzy result carries the score of its place in the ranking. */
  lemma {:induction false} RankedScores(files: seq<Path>, query: string, score: Scorer, limit: nat)
    ensures var sorted := SortBy(Scored(files, query, score), ScoreGe);
      var r := FuzzyFiles(files, query, score, limit);
      forall i :: 0 <= i < |r| ==> i < |sorted| && score(r[i].preview, query) == Some(sorted[i].0)
  {
    var scored := Scored(files, query, score);
    var sorted := SortBy(scored, ScoreGe);
    var taken := Take(sorted, limit);
    var r := Results(taken);
    forall i | 0 <= i < |r|
      ensures i < |sorted| && score(r[i].preview, query) == Some(sorted[i].0)
    {
      assert taken[i] == sorted[i];
      assert sorted[i] in multiset(scored);
    }
  }

  /**
   * Files with equal scores are ranked in walk order, as the stable
   * `sort_by` leaves them.
   */
  lemma {:induction false} FuzzyTiesInWalkOrder(files: seq<Path>, query: string, score: Scorer, s: int)
    ensures var ranked := SortBy(Scored(files, query, score), ScoreGe);
      var x := (s, PathResult([]));
      Equivalents(ranked, x, ScoreGe) == Equivalents(Scored(files, query, score), x, ScoreGe)
  {
    ScoreGeTotalPreorder();
    SortByStable(Scored(files, query, score), ScoreGe, (s, PathResult([])));
  }

  // ---------------------------------------------------------------------
  // Content search

  /** The decimal digits of `n` (`usize` as `Display`). */
  function Decimal(n: nat): (s: string)
    ensures s != []
    ensures forall i :: 0 <= i < |s| ==> '0' <= s[i] <= '9'
  {
    if n < 10 then [(48 + n) as char] else Decimal(n / 10) + [(48 + n % 10) as char]
  }

  /** The number a string of decimal digits stands for. */
  function DigitsValue(s: string): nat
    requires forall i :: 0 <= i < |s| ==> '0' <= s[i] <= '9'
  {
    if s == [] then 0 else 10 * DigitsValue(s[..|s| - 1]) + (s[|s| - 1] as int - 48)
  }

  /** The printed line number reads back as the number. */
  lemma {:induction false} DecimalValue(n: nat)
    ensures DigitsValue(Decimal(n)) == n
  {
    var s := Decimal(n);
    if n >= 10 {
      var q := n / 10;
      DecimalValue(q);
      assert s[..|s| - 1] == Decimal(q);
    }
  }

  /** A line matches when its lower-cased text contains the lower-cased query. */
  predicate LineMatches(line: string, needle: string) {
    Contains(ToLower(line), needle)
  }

  /** The preview of a content hit: `path:line  text`. */
  function HitPreview(p: Path, n: nat, line: string): string {
    Display(p) + ":" + Decimal(n) + "  " + Trim(line)
  }

  /** The hit for line `n` (1-based) of file `p`. */
  function Hit(p: Path, n: nat, line: string): FinderResult {
    FinderResult(p, Some(n), HitPreview(p, n, line))
  }

  /** Every matching line of one file, in line order. */
  function FileHits(p: Path, lines: seq<string>, needle: string): (r: seq<FinderResult>)
    ensures |r| <= |lines|
  {
    if lines == [] then []
    else
      FileHits(p, lines[..|lines| - 1], needle)
        + (if LineMatches(lines[|lines| - 1], needle) then [Hit(p, |lines|, lines[|lines| - 1])] else [])
  }

  /** Every matching line of every readable file, in walk order and then line order. */
  function AllHits(files: seq<Path>, contents: map<Path, string>, needle: string): seq<FinderResult> {
    if files == [] then []
    else
      var p := files[|files| - 1];
      AllHits(files[..|files| - 1], contents, needle)
        + (if p in contents then FileHits(p, Links.StrLines(contents[p]), needle) else [])
  }

  /** The first file that can be read. */
  function FirstReadable(files: seq<Path>, contents: map<Path, string>): (r: Option<Path>)
    ensures r.Some? ==> r.value in files && r.value in contents
    ensures r.None? <==> forall p :: p in files ==> p !in contents
  {
    if files == [] then None
    else if files[0] in contents then Some(files[0])
    else
      assert forall q :: q in files ==> q == files[0] || q in files[1..];
      FirstReadable(files[1..], contents)
  }

  /**
   * What content mode finds: nothing for an empty query; with a positive
   * `limit`, the first `limit` hits; with `limit` zero, the first hit of
   * the first readable file, since the search pushes a hit before it
   * compares the count with the limit and stops after the first file.
   */
  function ContentResults(files: seq<Path>, contents: map<Path, string>, query: string, limit: nat): (r: seq<FinderResult>)
    ensures |r| <= if limit == 0 then 1 else limit
  {
    if query == [] then []
    else if limit == 0 then
      match FirstReadable(files, contents)
      case None => []
      case Some(p) => Take(FileHits(p, Links.StrLines(contents[p]), ToLower(query)), 1)
    else Take(AllHits(files, contents, ToLower(query)), limit)
  }

  /** Every entry of `FileHits` is the hit of a matching line. */
  lemma {:induction false} FileHitsSound(p: Path, lines: seq<string>, needle: string, h: FinderResult)
    requires h in FileHits(p, lines, needle)
    ensures h.path == p && h.line.Some? && 1 <= h.line.value <= |lines|
    ensures LineMatches(lines[h.line.value - 1], needle) && h == Hit(p, h.line.value, lines[h.line.value - 1])
  {
    var init := lines[..|lines| - 1];
    if h in FileHits(p, init, needle) {
      FileHitsSound(p, init, needle, h);
      assert init[h.line.value - 1] == lines[h.line.value - 1];
    }
  }

  /** Every entry of `AllHits` is the hit of a matching line of a readable file. */
  lemma {:induction false} AllHitsSound(files: seq<Path>, contents: map<Path, string>, needle: string, h: FinderResult)
    requires h in AllHits(files, contents, needle)
    ensures h.path in files && h.path in contents && h.line.Some?
    ensures var lines := Links.StrLines(contents[h.path]);
      1 <= h.line.value <= |lines| && LineMatches(lines[h.line.value - 1], needle)
  {
    var init := files[..|files| - 1];
    var p := files[|files| - 1];
    if h in AllHits(init, contents, needle) {
      AllHitsSound(init, contents, needle, h);
    } else {
      FileHitsSound(p, Links.StrLines(contents[p]), needle, h);
    }
  }

  /** Every content result is a matching line of a readable file. */
  lemma {:induction false} ContentResultsSound(files: seq<Path>, contents: map<Path, string>, query: string, limit: nat, h: FinderResult)
    requires h in ContentResults(files, contents, query, limit)
    ensures h.path in files && h.path in contents && h.line.Some?
    ensures var lines := Links.StrLines(contents[h.path]);
      1 <= h.line.value <= |lines| && LineMatches(lines[h.line.value - 1], ToLower(query))
  {
    if limit == 0 {
      var p := FirstReadable(files, contents).value;
      FileHitsSound(p, Links.StrLines(contents[p]), ToLower(query), h);
    } else {
      AllHitsSound(files, contents, ToLower(query), h);
    }
  }

  /** Every content result names a line. */
  lemma {:induction false} ContentResultsLines(files: seq<Path>, contents: map<Path, string>, query: string, limit: nat)
    ensures var r := ContentResults(files, contents, query, limit);
      forall i :: 0 <= i < |r| ==> r[i].line.Some?
  {
    var r := ContentResults(files, contents, query, limit);
    forall i | 0 <= i < |r| ensures r[i].line.Some? {
      ContentResultsSound(files, contents, query, limit, r[i]);
    }
  }

  /** Scanning one more line of a file. */
  lemma {:induction false} FileHitsStep(p: Path, lines: seq<string>, needle: string, k: nat, m: nat)
    requires m == k + 1 <= |lines|
    ensures FileHits(p, lines[..m], needle)
         == FileHits(p, lines[..k], needle) + (if LineMatches(lines[k], needle) then [Hit(p, m, lines[k])] else [])
  {
    assert lines[..m][..k] == lines[..k];
  }

  /** Scanning one more file. */
  lemma {:induction false} AllHitsStep(files: seq<Path>, contents: map<Path, string>, needle: string, i: nat, j: nat)
    requires j == i + 1 <= |files|
    ensures AllHits(files[..j], contents, needle)
         == AllHits(files[..i], contents, needle)
          + (if files[i] in contents then FileHits(files[i], Links.StrLines(contents[files[i]]), needle) else [])
  {
    assert files[..j][..i] == files[..i];
  }

  /** The hits of the first lines of a file come first among the file's hits. */
  lemma {:induction false} FileHitsPrefix(p: Path, lines: seq<string>, needle: string, k: nat)
    requires k <= |lines|
    ensures FileHits(p, lines[..k], needle) <= FileHits(p, lines, needle)
    decreases |lines| - k
  {
    if k < |lines| {
      var m := k + 1;
      FileHitsStep(p, lines, needle, k, m);
      FileHitsPrefix(p, lines, needle, m);
    } else {
      assert lines[..k] == lines;
    }
  }

  /** The hits of the first files come first among all hits. */
  lemma {:induction false} AllHitsPrefix(files: seq<Path>, contents: map<Path, string>, needle: string, i: nat)
    requires i <= |files|
    ensures AllHits(files[..i], contents, needle) <= AllHits(files, contents, needle)
    decreases |files| - i
  {
    if i < |files| {
      var j := i + 1;
      AllHitsStep(files, contents, needle, i, j);
      AllHitsPrefix(files, contents, needle, j);
    } else {
      assert files[..i] == files;
    }
  }

  /** A prefix of `s` of length `n` is `Take(s, n)`. */
  lemma {:induction false} PrefixTake<T>(a: seq<T>, b: seq<T>, c: seq<T>, n: nat)
    requires a <= b <= c && |a| == n
    ensures a == Take(c, n)
  {
    assert c[..n] == b[..n];
  }

  /**
   * A full result after line `k` of file `i`: the hits gathered so far are
   * the first `limit` hits.
   */
  lemma {:induction false} FullAt(files: seq<Path>, contents: map<Path, string>, needle: string, limit: nat, i: nat, k: nat, m: nat, hits: seq<FinderResult>)
    requires i < |files| && files[i] in contents && m == k + 1 <= |Links.StrLines(contents[files[i]])|
    requires hits == AllHits(files[..i], contents, needle) + FileHits(files[i], Links.StrLines(contents[files[i]])[..m], needle)
    requires |hits| == limit
    ensures hits == Take(AllHits(files, contents, needle), limit)
  {
    var p := files[i];
    var lines := Links.StrLines(contents[p]);
    var base := AllHits(files[..i], contents, needle);
    var j := i + 1;
    FileHitsPrefix(p, lines, needle, m);
    AllHitsStep(files, contents, needle, i, j);
    AllHitsPrefix(files, contents, needle, j);
    assert hits <= base + FileHits(p, lines, needle);
    PrefixTake(hits, AllHits(files[..j], contents, needle), AllHits(files, contents, needle), limit);
  }

  /** With a zero limit, the result is settled by file `i`, the first readable one. */
  lemma {:induction false} FirstFileSettles(files: seq<Path>, contents: map<Path, string>, query: string, i: nat, k: nat, hits: seq<FinderResult>)
    requires query != [] && i < |files| && files[i] in contents && FirstReadable(files[..i], contents).None?
    requires k <= |Links.StrLines(contents[files[i]])|
    requires hits == FileHits(files[i], Links.StrLines(contents[files[i]])[..k], ToLower(query))
    requires |hits| == 1 || (hits == [] && k == |Links.StrLines(contents[files[i]])|)
    ensures hits == ContentResults(files, contents, query, 0)
  {
    var p := files[i];
    var lines := Links.StrLines(contents[p]);
    FirstReadableAt(files, contents, i);
    FileHitsPrefix(p, lines, ToLower(query), k);
    if hits == [] {
      assert lines[..k] == lines;
    } else {
      PrefixTake(hits, FileHits(p, lines, ToLower(query)), FileHits(p, lines, ToLower(query)), 1);
    }
  }

  /** The first readable file is the first one after unreadable ones. */
  lemma {:induction false} FirstReadableAt(files: seq<Path>, contents: map<Path, string>, i: nat)
    requires i < |files| && files[i] in contents && FirstReadable(files[..i], contents).None?
    ensures FirstReadable(files, contents) == Some(files[i])
  {
    if i > 0 {
      assert files[0] in files[..i];
      var k := i - 1;
      assert files[1..][..k] == files[..i][1..];
      assert files[1..][k] == files[i];
      FirstReadableAt(files[1..], contents, k);
    }
  }

  /** Extending the unreadable prefix by an unreadable file. */
  lemma {:induction false} FirstReadableSkip(files: seq<Path>, contents: map<Path, string>, i: nat, j: nat)
    requires j == i + 1 <= |files| && files[i] !in contents && FirstReadable(files[..i], contents).None?
    ensures FirstReadable(files[..j], contents).None?
  {
    assert forall q :: q in files[..j] ==> q in files[..i] || q == files[i];
  }

  /**
   * The content-mode loops of `refresh_finder_results`: over the files,
   * skipping unreadable ones, and over each file's lines, pushing every
   * matching line and stopping once the hits reach `limit`.
   */
  method ContentSearch(files: seq<Path>, contents: map<Path, string>, query: string, limit: nat)
    returns (hits: seq<FinderResult>)
    ensures hits == ContentResults(files, contents, query, limit)
  {
    hits := [];
    if query == [] {
      return;
    }
    var needle := ToLower(query);
    var i := 0;
    while i < |files|
      invariant i <= |files|
      invariant hits == AllHits(files[..i], contents, needle)
      invariant limit > 0 ==> |hits| < limit
      invariant limit == 0 ==> hits == [] && FirstReadable(files[..i], contents).None?
    {
      var p := files[i];
      var j := i + 1;
      AllHitsStep(files, contents, needle, i, j);
      if p !in contents {
        if limit == 0 {
          FirstReadableSkip(files, contents, i, j);
        }
        i := j;
        continue;
      }
      var lines := Links.StrLines(contents[p]);
      ghost var base := hits;
      var k := 0;
      while k < |lines|
        invariant k <= |lines|
        invariant hits == base + FileHits(p, lines[..k], needle)
        invariant limit > 0 ==> |hits| < limit
        invariant limit == 0 ==> hits == []
      {
        var m := k + 1;
        FileHitsStep(p, lines, needle, k, m);
        if LineMatches(lines[k], needle) {
          hits := hits + [Hit(p, m, lines[k])];
          if |hits| >= limit {
            if limit == 0 {
              FirstFileSettles(files, contents, query, i, m, hits);
            } else {
              FullAt(files, contents, needle, limit, i, k, m, hits);
            }
            break;
          }
        }
        k := m;
      }
      if |hits| >= limit {
        if limit == 0 && hits == [] {
          assert lines[..k] == lines;
          FirstFileSettles(files, contents, query, i, k, hits);
        }
        break;
      }
      assert lines[..k] == lines;
      i := j;
    }
    if i == |files| {
      assert files[..i] == files;
      if limit == 0 {
        assert FirstReadable(files, contents).None?;
      }
    }
  }

  /**
   * The selection after a refresh: 0 on an empty list, else the old index
   * pulled back onto the last result.
   */
  function ClampSelection(selected: nat, len: nat): (s: nat)
    ensures len == 0 ==> s == 0
    ensures len > 0 ==> s < len
    ensures selected < len ==> s == selected
  {
    if len == 0 then 0 else if selected >= len then len - 1 else selected
  }

  /** `j`/Down: one result further, stopping at the last one. */
  function SelectNext(selected: nat, len: nat): (s: nat)
    ensures selected < len ==> s < len && s >= selected && s <= selected + 1
    ensures len == 0 ==> s == selected
  {
    if len == 0 then selected else if selected + 1 <= len - 1 then selected + 1 else len - 1
  }

  /** `k`/Up: one result back, stopping at the first one. */
  function SelectPrev(selected: nat, len: nat): (s: nat)
    ensures s <= selected && s + 1 >= selected
    ensures len == 0 ==> s == selected
  {
    if len == 0 then selected else if selected >= 1 then selected - 1 else 0
  }

  /** The moves keep the selection on a result, or at 0 when there is none. */
  lemma {:induction false} SelectionStaysValid(selected: nat, len: nat)
    requires (len == 0 && selected == 0) || selected < len
    ensures var n := SelectNext(selected, len); (len == 0 && n == 0) || n < len
    ensures var p := SelectPrev(selected, len); (len == 0 && p == 0) || p < len
  {
  }
}
