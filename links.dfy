/**
 * WikiLinks (`[[Note]]`, `[[Note|alias]]`, `[[Note#heading]]`): the link
 * name rules, the link under the cursor, how a link finds its note file,
 * and the scan for the notes that link back to the open one.
 */
module Links {
  import opened Wrappers
  import opened Text
  import opened Paths
  import opened Sorting
  import TextLines
  import Markdown

  /** Length of the part of `s` before its first `|` or `#`. */
  function CutAt(s: string): (i: nat)
    ensures i <= |s|
    ensures '|' !in s[..i] && '#' !in s[..i]
    ensures i < |s| ==> s[i] == '|' || s[i] == '#'
  {
    if s == [] || s[0] == '|' || s[0] == '#' then 0
    else
      var i := 1 + CutAt(s[1..]);
      assert s[..i] == [s[0]] + s[1..][..i - 1];
      i
  }

  /** Trimming cannot bring in a character. */
  lemma {:induction false} TrimKeepsOut(s: string, c: char)
    requires c !in s
    ensures c !in Trim(s)
  {
    if c in Trim(s) {
      TrimSubset(s, c);
    }
  }

  /**
   * `sanitize_link_name`: the text before the first `|` (alias) or `#`
   * (heading), trimmed. The name never holds either separator.
   */
  function SanitizeLinkName(raw: string): (r: string)
    ensures '|' !in r && '#' !in r
    ensures |r| <= |raw|
  {
    var head := raw[..CutAt(raw)];
    TrimKeepsOut(head, '|');
    TrimKeepsOut(head, '#');
    Trim(head)
  }

  /** A raw name without separators is only trimmed. */
  lemma {:induction false} SanitizePlain(raw: string)
    requires '|' !in raw && '#' !in raw
    ensures SanitizeLinkName(raw) == Trim(raw)
  {
    var i := CutAt(raw);
    assert raw[..|raw|] == raw;
    NotInPrefix(raw, '|', |raw|, i);
    NotInPrefix(raw, '#', |raw|, i);
    assert i == |raw|;
  }

  /** An alias or a heading after the name is dropped. */
  lemma {:induction false} SanitizeDropsSuffix(name: string, sep: char, rest: string)
    requires '|' !in name && '#' !in name
    requires sep == '|' || sep == '#'
    ensures SanitizeLinkName(name + [sep] + rest) == Trim(name)
  {
    var raw := name + [sep] + rest;
    var i := CutAt(raw);
    assert raw[|name|] == sep;
    NotInPrefix(raw, sep, i, |name|);
    NotInPrefix(name, '|', |name|, i);
    NotInPrefix(name, '#', |name|, i);
    assert name[..|name|] == name;
    assert i == |name|;
    assert raw[..i] == name;
  }

  /** Trimming twice is trimming once. */
  lemma {:induction false} TrimIdempotent(s: string)
    ensures Trim(Trim(s)) == Trim(s)
  {
    var t := Trim(s);
    if t != [] {
      assert LeadingSpace(t) == 0;
      assert TrimStart(t) == t;
      assert TrailingSpace(t) == 0;
    }
  }

  /** Sanitizing a sanitized name changes nothing. */
  lemma {:induction false} SanitizeIdempotent(raw: string)
    ensures SanitizeLinkName(SanitizeLinkName(raw)) == SanitizeLinkName(raw)
  {
    var r := SanitizeLinkName(raw);
    SanitizePlain(r);
    TrimIdempotent(raw[..CutAt(raw)]);
  }

  /**
   * `parse_wikilink_target`: the sanitized name between `[[` and `]]`, or
   * None when the brackets are missing or the name comes out empty.
   */
  function ParseWikilinkTarget(w: string): (r: Option<string>)
    ensures r.Some? ==> StartsWith(w, "[[") && EndsWith(w, "]]")
    ensures r.Some? ==> r.value != [] && '|' !in r.value && '#' !in r.value
  {
    if !(StartsWith(w, "[[") && EndsWith(w, "]]")) then None
    else
      assert w[0] == '[' && w[1] == '[' && w[|w| - 2] == ']' && w[|w| - 1] == ']';
      var name := SanitizeLinkName(w[2..|w| - 2]);
      if name == [] then None else Some(name)
  }

  /** The target of a bracketed text is the sanitized text, when that is not empty. */
  lemma {:induction false} ParseBracketed(inner: string)
    ensures ParseWikilinkTarget("[[" + inner + "]]")
         == (if SanitizeLinkName(inner) == [] then None else Some(SanitizeLinkName(inner)))
  {
    var w := "[[" + inner + "]]";
    assert w[..2] == "[[";
    assert w[|w| - 2..] == "]]";
    assert w[2..|w| - 2] == inner;
  }

  /** A clean note name survives the trip through `[[…]]`. */
  lemma {:induction false} WikilinkRoundTrip(name: string)
    requires name != [] && Trim(name) == name && '|' !in name && '#' !in name
    ensures ParseWikilinkTarget("[[" + name + "]]") == Some(name)
  {
    ParseBracketed(name);
    SanitizePlain(name);
  }

  /** An alias or a heading does not change the target: `[[name|alias]]` opens `name`. */
  lemma {:induction false} WikilinkAliasTarget(name: string, sep: char, rest: string)
    requires name != [] && Trim(name) == name && '|' !in name && '#' !in name
    requires sep == '|' || sep == '#'
    ensures ParseWikilinkTarget("[[" + (name + [sep] + rest) + "]]") == Some(name)
  {
    ParseBracketed(name + [sep] + rest);
    SanitizeDropsSuffix(name, sep, rest);
  }

  /** Text without the opening brackets is never a link. */
  lemma {:induction false} ParseNeedsBrackets(w: string)
    requires !StartsWith(w, "[[")
    ensures ParseWikilinkTarget(w) == None
  {
  }

  // ---------------------------------------------------------------------
  // The link under the cursor

  /** Every token lies inside `line`. */
  predicate InLine(line: string, tokens: seq<Markdown.Token>) {
    forall j :: 0 <= j < |tokens| ==> tokens[j].start <= tokens[j].end <= |line|
  }

  /** The tokens come in order and do not overlap. */
  predicate Ordered(tokens: seq<Markdown.Token>) {
    forall a, b :: 0 <= a < b < |tokens| ==> tokens[a].end <= tokens[b].start
  }

  /**
   * The byte offset `col` falls inside token `t` of `line`: the regex
   * reports byte offsets, which are the byte lengths of the prefixes.
   */
  predicate Covers(line: string, t: Markdown.Token, col: nat)
    requires t.start <= t.end <= |line|
  {
    ByteLen(line[..t.start]) <= col < ByteLen(line[..t.end])
  }

  /** The target of the first token covering `col`, or None when no token does. */
  function CoveringTarget(line: string, tokens: seq<Markdown.Token>, col: nat): Option<string>
    requires InLine(line, tokens)
  {
    if tokens == [] then None
    else if Covers(line, tokens[0], col) then ParseWikilinkTarget(line[tokens[0].start..tokens[0].end])
    else CoveringTarget(line, tokens[1..], col)
  }

  /** Among ordered tokens, the one covering `col` decides the result. */
  lemma {:induction false} CoveringTargetAt(line: string, tokens: seq<Markdown.Token>, col: nat, j: nat)
    requires InLine(line, tokens) && Ordered(tokens)
    requires j < |tokens| && Covers(line, tokens[j], col)
    ensures CoveringTarget(line, tokens, col) == ParseWikilinkTarget(line[tokens[j].start..tokens[j].end])
  {
    if j > 0 {
      var t := tokens[0];
      TextLines.ByteLenPrefixLe(line, t.end, tokens[j].start);
      assert !Covers(line, t, col);
      var i := j - 1;
      assert tokens[1..][i] == tokens[j];
      CoveringTargetAt(line, tokens[1..], col, i);
    }
  }

  /** When no token covers `col` there is no link under the cursor. */
  lemma {:induction false} CoveringTargetNone(line: string, tokens: seq<Markdown.Token>, col: nat)
    requires InLine(line, tokens)
    requires forall j :: 0 <= j < |tokens| ==> !Covers(line, tokens[j], col)
    ensures CoveringTarget(line, tokens, col) == None
  {
    if tokens != [] {
      assert !Covers(line, tokens[0], col);
      assert forall j :: 0 <= j < |tokens[1..]| ==> tokens[1..][j] == tokens[j + 1];
      CoveringTargetNone(line, tokens[1..], col);
    }
  }

  /** The scan over the tokens from `i` on looks at token `i` and then at the tokens from `j`. */
  lemma {:induction false} CoveringStep(line: string, tokens: seq<Markdown.Token>, col: nat, i: nat, j: nat)
    requires InLine(line, tokens) && j == i + 1 <= |tokens|
    ensures InLine(line, tokens[i..]) && InLine(line, tokens[j..])
    ensures CoveringTarget(line, tokens[i..], col)
         == if Covers(line, tokens[i], col) then ParseWikilinkTarget(line[tokens[i].start..tokens[i].end])
            else CoveringTarget(line, tokens[j..], col)
  {
    assert tokens[i..][0] == tokens[i];
    assert tokens[i..][1..] == tokens[j..];
  }

  /** The WikiLink matches of one line, in order. */
  function WikiTokens(line: string): (r: seq<Markdown.Token>)
    ensures InLine(line, r) && Ordered(r)
  {
    Markdown.FindAll(Markdown.WikiLink, line, 0)
  }

  /**
   * `wikilink_under_cursor`: on line `row` of `text`, the target of the
   * first WikiLink whose byte range holds the cursor's byte column `col`.
   */
  method WikilinkUnderCursor(text: string, row: nat, col: nat) returns (r: Option<string>)
    ensures row >= TextLines.LineCount(text) ==> r == None
    ensures row < TextLines.LineCount(text) ==>
      r == CoveringTarget(TextLines.LineText(text, row), WikiTokens(TextLines.LineText(text, row)), col)
  {
    if row >= TextLines.LineCount(text) {
      return None;
    }
    var line := TextLines.LineText(text, row);
    var tokens := WikiTokens(line);
    var i := 0;
    assert tokens[i..] == tokens;
    while i < |tokens|
      invariant i <= |tokens|
      invariant CoveringTarget(line, tokens[i..], col) == CoveringTarget(line, tokens, col)
    {
      var t := tokens[i];
      var j := i + 1;
      CoveringStep(line, tokens, col, i, j);
      if Covers(line, t, col) {
        return ParseWikilinkTarget(line[t.start..t.end]);
      }
      i := j;
    }
    return None;
  }

  /** The cursor inside the `j`-th WikiLink of its line follows exactly that link. */
  lemma {:induction false} UnderCursorIsCoveringLink(line: string, col: nat, j: nat)
    requires j < |WikiTokens(line)| && Covers(line, WikiTokens(line)[j], col)
    ensures var t := WikiTokens(line)[j];
      && Markdown.IsMatch(Markdown.WikiLink, line, t.start, t.end)
      && CoveringTarget(line, WikiTokens(line), col) == ParseWikilinkTarget(line[t.start..t.end])
  {
    var toks := WikiTokens(line);
    Markdown.FindAllMatches(Markdown.WikiLink, line, 0);
    assert toks[j] in toks;
    CoveringTargetAt(line, toks, col, j);
  }

  // ---------------------------------------------------------------------
  // Resolving a link to a note file

  /** A `.md` file whose name, lower-cased, is `expected`. */
  predicate IsNoteNamed(p: Path, expected: string) {
    Extension(p) == Some("md") && FileName(p).Some? && ToLower(FileName(p).value) == expected
  }

  /** The first file of `files` that `IsNoteNamed` accepts (`Iterator::find`). */
  function FindNote(files: seq<Path>, expected: string): (r: Option<Path>)
    ensures r.Some? ==> r.value in files && IsNoteNamed(r.value, expected)
    ensures r.None? <==> forall p :: p in files ==> !IsNoteNamed(p, expected)
  {
    if files == [] then None
    else if IsNoteNamed(files[0], expected) then Some(files[0])
    else
      assert forall p :: p in files ==> p == files[0] || p in files[1..];
      FindNote(files[1..], expected)
  }

  /** `FindNote` returns the earliest accepted file. */
  lemma {:induction false} FindNoteFirst(files: seq<Path>, expected: string, i: nat)
    requires i < |files| && IsNoteNamed(files[i], expected)
    requires forall k :: 0 <= k < i ==> !IsNoteNamed(files[k], expected)
    ensures FindNote(files, expected) == Some(files[i])
  {
    if i > 0 {
      var k := i - 1;
      assert files[1..][k] == files[i];
      FindNoteFirst(files[1..], expected, k);
    }
  }

  /**
   * `resolve_wikilink_target`. `existing` is the set of paths that exist on
   * disk and `files` the vault's files in walk order. The exact path
   * `vault/<name>.md` wins; otherwise the first `.md` file whose name
   * matches case-insensitively.
   */
  function ResolveWikilinkTarget(vault: Path, existing: set<Path>, files: seq<Path>, linkText: string): (r: Option<Path>)
    ensures SanitizeLinkName(linkText) == [] ==> r == None
  {
    var clean := SanitizeLinkName(linkText);
    if clean == [] then None
    else
      var exact := JoinStr(vault, clean + ".md");
      if exact in existing then Some(exact)
      else FindNote(files, ToLower(clean + ".md"))
  }

  /**
   * What resolution returns: the exact path when it exists, and otherwise a
   * listed `.md` file with the right name, or None exactly when there is none.
   */
  lemma {:induction false} ResolveSpec(vault: Path, existing: set<Path>, files: seq<Path>, linkText: string)
    requires SanitizeLinkName(linkText) != []
    ensures var clean := SanitizeLinkName(linkText);
      var exact := JoinStr(vault, clean + ".md");
      var r := ResolveWikilinkTarget(vault, existing, files, linkText);
      && (exact in existing ==> r == Some(exact))
      && (exact !in existing && r.Some? ==> r.value in files && IsNoteNamed(r.value, ToLower(clean + ".md")))
      && (r.None? <==> exact !in existing && forall p :: p in files ==> !IsNoteNamed(p, ToLower(clean + ".md")))
  {
  }

  /** The links `[[Name]]` and `[[ name|alias ]]` resolve to the same file. */
  lemma {:induction false} ResolveIgnoresAlias(vault: Path, existing: set<Path>, files: seq<Path>, name: string, alias: string)
    requires '|' !in name && '#' !in name
    ensures ResolveWikilinkTarget(vault, existing, files, name + "|" + alias)
         == ResolveWikilinkTarget(vault, existing, files, Trim(name))
  {
    SanitizeDropsSuffix(name, '|', alias);
    assert name + "|" + alias == name + ['|'] + alias;
    TrimKeepsOut(name, '|');
    TrimKeepsOut(name, '#');
    SanitizePlain(Trim(name));
    TrimIdempotent(name);
  }

  // ---------------------------------------------------------------------
  // Backlinks

  /** `str::lines`: split at '\n', dropping "\r\n" or '\n'; no empty last line. */
  function StrLines(s: string): (r: seq<string>)
    ensures forall i :: 0 <= i < |r| ==> '\n' !in r[i]
    ensures r == [] <==> s == []
    decreases |s|
  {
    if s == [] then []
    else if '\n' !in s then [s]
    else
      var i := IndexOf(s, '\n');
      var line := TextLines.StripLineEnding(s[..i + 1]);
      assert line == s[..|line|];
      assert '\n' !in line by {
        assert |line| <= i;
        forall k | 0 <= k < |line| ensures line[k] != '\n' {
          NotInPrefix(s, '\n', i, k);
        }
      }
      [line] + StrLines(s[i + 1..])
  }

  /** A character absent from a prefix is absent at every index of it. */
  lemma {:induction false} NotInPrefix(s: string, c: char, n: int, j: int)
    ensures 0 <= j < n <= |s| && c !in s[..n] ==> s[j] != c
  {
    if 0 <= j < n <= |s| && c !in s[..n] {
      assert s[..n][j] == s[j];
    }
  }

  /** A character absent from a text is absent from each of its suffixes. */
  lemma {:induction false} NotInSuffix(s: string, c: char, k: nat)
    ensures k <= |s| && c !in s ==> c !in s[k..]
  {
    if k <= |s| && c !in s {
      forall j | 0 <= j < |s| - k ensures s[k..][j] != c {
        assert s[k..][j] == s[k + j];
        assert s[k + j] in s;
      }
    }
  }

  /** One line of a text with a newline in it. */
  lemma {:induction false} StrLinesCons(s: string, i: nat)
    requires '\r' !in s && i < |s| && s[i] == '\n' && '\n' !in s[..i]
    ensures StrLines(s) == [s[..i]] + StrLines(s[i + 1..])
  {
    var k := IndexOf(s, '\n');
    NotInPrefix(s, '\n', i, k);
    NotInPrefix(s, '\n', k, i);
    var l := s[..i + 1];
    assert l[|l| - 1] == '\n';
    if i > 0 {
      assert l[i - 1] == s[i - 1];
      assert l[i - 1] in s;
    }
    assert l[..i] == s[..i];
  }

  /** Without carriage returns, joining the lines with '\n' gives the text back, up to a final '\n'. */
  lemma {:induction false} StrLinesJoin(s: string)
    requires '\r' !in s
    ensures Join(StrLines(s), "\n") + (if EndsWith(s, "\n") then "\n" else "") == s
    decreases |s|, 1
  {
    if s == [] {
    } else if '\n' !in s {
      assert s[|s| - 1] in s;
    } else {
      StrLinesJoinAt(s, IndexOf(s, '\n'));
    }
  }

  /** `StrLinesJoin` for a text whose first newline is at `i`. */
  lemma {:induction false} StrLinesJoinAt(s: string, i: nat)
    requires '\r' !in s && i < |s| && s[i] == '\n' && '\n' !in s[..i]
    ensures Join(StrLines(s), "\n") + (if EndsWith(s, "\n") then "\n" else "") == s
    decreases |s|, 0
  {
    StrLinesCons(s, i);
    var tail := s[i + 1..];
    NotInSuffix(s, '\r', i + 1);
    StrLinesJoin(tail);
    JoinLineStep(s, i, StrLines(tail));
  }

  /** The induction step of `StrLinesJoin`: one more line in front. */
  lemma {:induction false} JoinLineStep(s: string, i: nat, rest: seq<string>)
    requires i < |s| && s[i] == '\n'
    requires rest == [] <==> s[i + 1..] == []
    requires Join(rest, "\n") + (if EndsWith(s[i + 1..], "\n") then "\n" else "") == s[i + 1..]
    ensures Join([s[..i]] + rest, "\n") + (if EndsWith(s, "\n") then "\n" else "") == s
  {
    var head, tail := s[..i], s[i + 1..];
    assert s == head + "\n" + tail;
    assert ([head] + rest)[0] == head && ([head] + rest)[1..] == rest;
    if tail == [] {
      assert s[|s| - 1] == '\n';
    } else {
      assert s[|s| - 1] == tail[|tail| - 1];
      assert EndsWith(s, "\n") == EndsWith(tail, "\n");
    }
  }

  /** One backlink: a line of another note that links to the open note. */
  datatype BacklinkEntry = BacklinkEntry(path: Path, line: nat, preview: string)

  /** The line holds a WikiLink whose target is `note`, ignoring ASCII case. */
  predicate NamesNote(line: string, t: Markdown.Token, note: string)
    requires t.start <= t.end <= |line|
  {
    var target := ParseWikilinkTarget(line[t.start..t.end]);
    target.Some? && EqIgnoreCase(target.value, note)
  }

  /** Some token of `tokens` names `note` (`Iterator::any`). */
  predicate AnyNamesNote(line: string, tokens: seq<Markdown.Token>, note: string)
    requires InLine(line, tokens)
  {
    tokens != [] && (NamesNote(line, tokens[0], note) || AnyNamesNote(line, tokens[1..], note))
  }

  /** `AnyNamesNote` holds exactly when one of the tokens names the note. */
  lemma {:induction false} AnyNamesNoteSpec(line: string, tokens: seq<Markdown.Token>, note: string)
    requires InLine(line, tokens)
    ensures AnyNamesNote(line, tokens, note) <==> exists j :: 0 <= j < |tokens| && NamesNote(line, tokens[j], note)
  {
    if tokens != [] {
      AnyNamesNoteSpec(line, tokens[1..], note);
      if NamesNote(line, tokens[0], note) {
      } else if exists j :: 0 <= j < |tokens| && NamesNote(line, tokens[j], note) {
        var j :| 0 <= j < |tokens| && NamesNote(line, tokens[j], note);
        assert tokens[1..][j - 1] == tokens[j];
      } else {
        forall j | 0 <= j < |tokens[1..]| ensures !NamesNote(line, tokens[1..][j], note) {
          assert tokens[1..][j] == tokens[j + 1];
        }
      }
    }
  }

  /** The `has_link` test of `refresh_backlinks`: a WikiLink of the line has `note` as its target. */
  predicate LinksTo(line: string, note: string) {
    AnyNamesNote(line, WikiTokens(line), note)
  }

  /**
   * `same_file_path`: equal paths, or paths whose canonical forms agree.
   * `canon` maps a path to its canonical form and lacks the paths that
   * cannot be canonicalized.
   */
  predicate SameFilePath(a: Path, b: Path, canon: map<Path, Path>) {
    a == b || (a in canon && b in canon && canon[a] == canon[b])
  }

  /**
   * A file the scan reads: a `.md` file other than the open note that can
   * be read (`contents` lacks the files that cannot).
   */
  predicate Scanned(p: Path, contents: map<Path, string>, canon: map<Path, Path>, active: Path) {
    Extension(p) == Some("md") && !SameFilePath(p, active, canon) && p in contents
  }

  /** The entries for the lines that `linking` accepts, in line order, numbered from 1. */
  function LineHits(p: Path, lines: seq<string>, linking: string -> bool): seq<BacklinkEntry> {
    if lines == [] then []
    else
      var n := |lines|;
      LineHits(p, lines[..n - 1], linking)
        + (if linking(lines[n - 1]) then [BacklinkEntry(p, n, Trim(lines[n - 1]))] else [])
  }

  /** `e` is the entry for line `e.line` of `lines`, a line `linking` accepts. */
  predicate HitOfLine(e: BacklinkEntry, lines: seq<string>, linking: string -> bool) {
    1 <= e.line <= |lines| && linking(lines[e.line - 1]) && e.preview == Trim(lines[e.line - 1])
  }

  /** Every entry is one of the accepted lines. */
  lemma {:induction false} LineHitsSound(p: Path, lines: seq<string>, linking: string -> bool, e: BacklinkEntry)
    requires e in LineHits(p, lines, linking)
    ensures e.path == p && HitOfLine(e, lines, linking)
  {
    var init := lines[..|lines| - 1];
    var last := lines[|lines| - 1];
    if e in LineHits(p, init, linking) {
      LineHitsSound(p, init, linking, e);
      assert init[e.line - 1] == lines[e.line - 1];
    }
  }

  /** Every accepted line has its entry. */
  lemma {:induction false} LineHitsComplete(p: Path, lines: seq<string>, linking: string -> bool, e: BacklinkEntry)
    requires e.path == p && HitOfLine(e, lines, linking)
    ensures e in LineHits(p, lines, linking)
  {
    var init := lines[..|lines| - 1];
    var last := lines[|lines| - 1];
    if e.line < |lines| {
      assert init[e.line - 1] == lines[e.line - 1];
      LineHitsComplete(p, init, linking, e);
    } else {
      assert e == BacklinkEntry(p, |lines|, Trim(last));
    }
  }

  /** The backlinks in the lines of one file. */
  function FileBacklinks(p: Path, lines: seq<string>, note: string): seq<BacklinkEntry> {
    LineHits(p, lines, line => LinksTo(line, note))
  }

  /** What one file contributes to the scan. */
  function FileEntries(p: Path, contents: map<Path, string>, canon: map<Path, Path>, active: Path, note: string): seq<BacklinkEntry> {
    if Scanned(p, contents, canon, active) then FileBacklinks(p, StrLines(contents[p]), note) else []
  }

  /** The backlinks of the scan over `files`, in file order and then line order. */
  function CollectBacklinks(files: seq<Path>, contents: map<Path, string>, canon: map<Path, Path>, active: Path, note: string): seq<BacklinkEntry> {
    if files == [] then []
    else
      var n := |files|;
      CollectBacklinks(files[..n - 1], contents, canon, active, note) + FileEntries(files[n - 1], contents, canon, active, note)
  }

  /** `e` is the entry for line `e.line` of `lines`, a line that links to `note`. */
  predicate EntryOfLine(e: BacklinkEntry, lines: seq<string>, note: string) {
    1 <= e.line <= |lines| && LinksTo(lines[e.line - 1], note) && e.preview == Trim(lines[e.line - 1])
  }

  /** The entries of a file are exactly its lines that link to the note. */
  lemma {:induction false} FileBacklinksSpec(p: Path, lines: seq<string>, note: string, e: BacklinkEntry)
    ensures e in FileBacklinks(p, lines, note) <==> e.path == p && EntryOfLine(e, lines, note)
  {
    var linking := line => LinksTo(line, note);
    if e in LineHits(p, lines, linking) {
      LineHitsSound(p, lines, linking, e);
    }
    if e.path == p && EntryOfLine(e, lines, note) {
      assert HitOfLine(e, lines, linking);
      LineHitsComplete(p, lines, linking, e);
    }
  }

  /** A backlink of the scan: a scanned file among `files` and a linking line of it. */
  predicate IsBacklink(e: BacklinkEntry, files: seq<Path>, contents: map<Path, string>, canon: map<Path, Path>, active: Path, note: string) {
    e.path in files && Scanned(e.path, contents, canon, active) && EntryOfLine(e, StrLines(contents[e.path]), note)
  }

  /** The scan finds every backlink and nothing else. */
  lemma {:induction false} CollectBacklinksSpec(files: seq<Path>, contents: map<Path, string>, canon: map<Path, Path>, active: Path, note: string, e: BacklinkEntry)
    ensures e in CollectBacklinks(files, contents, canon, active, note) <==> IsBacklink(e, files, contents, canon, active, note)
  {
    if files != [] {
      var init := files[..|files| - 1];
      var p := files[|files| - 1];
      CollectBacklinksSpec(init, contents, canon, active, note, e);
      if Scanned(p, contents, canon, active) {
        FileBacklinksSpec(p, StrLines(contents[p]), note, e);
      }
      assert files == init + [p];
      assert e.path in files <==> e.path in init || e.path == p;
    }
  }

  /** The order of `sort_by` in `refresh_backlinks`: path, then line, then preview. */
  predicate BacklinkLe(a: BacklinkEntry, b: BacklinkEntry) {
    if a.path != b.path then PathLe(a.path, b.path)
    else if a.line != b.line then a.line < b.line
    else LexLe(a.preview, b.preview)
  }

  lemma {:induction false} BacklinkLeTotalPreorder()
    ensures TotalPreorder(BacklinkLe)
  {
    forall a: BacklinkEntry, b: BacklinkEntry ensures BacklinkLe(a, b) || BacklinkLe(b, a) {
      PathLeTotal(a.path, b.path);
      LexLeTotal(a.preview, b.preview);
    }
    forall a: BacklinkEntry, b: BacklinkEntry, c: BacklinkEntry | BacklinkLe(a, b) && BacklinkLe(b, c)
      ensures BacklinkLe(a, c)
    {
      if a.path != b.path && b.path != c.path {
        PathLeTrans(a.path, b.path, c.path);
        if a.path == c.path {
          PathLeAntisym(a.path, b.path);
        }
      } else if a.path == b.path && b.path == c.path && a.line == b.line && b.line == c.line {
        LexLeTrans(a.preview, b.preview, c.preview);
      }
    }
  }

  /**
   * The backlinks panel after `refresh_backlinks`: empty without an open
   * file or a file stem, else the scan's entries sorted.
   */
  function Backlinks(active: Option<Path>, files: seq<Path>, contents: map<Path, string>, canon: map<Path, Path>): (r: seq<BacklinkEntry>)
    ensures active.None? ==> r == []
  {
    match active
    case None => []
    case Some(path) =>
      match FileStem(path)
      case None => []
      case Some(note) => SortBy(CollectBacklinks(files, contents, canon, path, note), BacklinkLe)
  }

  /** The panel is sorted and holds exactly the backlinks to the open note. */
  lemma {:induction false} BacklinksSpec(path: Path, files: seq<Path>, contents: map<Path, string>, canon: map<Path, Path>, e: BacklinkEntry)
    requires FileStem(path).Some?
    ensures Sorted(Backlinks(Some(path), files, contents, canon), BacklinkLe)
    ensures e in Backlinks(Some(path), files, contents, canon)
        <==> IsBacklink(e, files, contents, canon, path, FileStem(path).value)
  {
    var note := FileStem(path).value;
    var c := CollectBacklinks(files, contents, canon, path, note);
    BacklinkLeTotalPreorder();
    SortBySorted(c, BacklinkLe);
    assert e in SortBy(c, BacklinkLe) <==> e in multiset(SortBy(c, BacklinkLe));
    CollectBacklinksSpec(files, contents, canon, path, note, e);
  }

  /** Adding the `k`-th line to the lines scanned so far. */
  lemma {:induction false} LineHitsStep(p: Path, lines: seq<string>, linking: string -> bool, k: nat, m: nat)
    requires m == k + 1 <= |lines|
    ensures LineHits(p, lines[..m], linking)
         == LineHits(p, lines[..k], linking)
          + (if linking(lines[k]) then [BacklinkEntry(p, m, Trim(lines[k]))] else [])
  {
    assert lines[..m][..k] == lines[..k];
  }

  /** Adding the `i`-th file to the files scanned so far. */
  lemma {:induction false} CollectStep(files: seq<Path>, contents: map<Path, string>, canon: map<Path, Path>, active: Path, note: string, i: nat, j: nat)
    requires j == i + 1 <= |files|
    ensures CollectBacklinks(files[..j], contents, canon, active, note)
         == CollectBacklinks(files[..i], contents, canon, active, note) + FileEntries(files[i], contents, canon, active, note)
  {
    assert files[..j][..i] == files[..i];
  }

  /** The loop of `refresh_backlinks` over one file's lines. */
  method ScanFile(p: Path, text: string, note: string) returns (found: seq<BacklinkEntry>)
    ensures found == FileBacklinks(p, StrLines(text), note)
  {
    var lines := StrLines(text);
    ghost var linking := line => LinksTo(line, note);
    found := [];
    var k := 0;
    while k < |lines|
      invariant k <= |lines|
      invariant found == LineHits(p, lines[..k], linking)
    {
      var m := k + 1;
      LineHitsStep(p, lines, linking, k, m);
      if LinksTo(lines[k], note) {
        found := found + [BacklinkEntry(p, m, Trim(lines[k]))];
      }
      k := m;
    }
    assert lines[..k] == lines;
  }

  /** The loop of `refresh_backlinks` over the vault's files, before sorting. */
  method ScanBacklinks(files: seq<Path>, contents: map<Path, string>, canon: map<Path, Path>, active: Path, note: string)
    returns (found: seq<BacklinkEntry>)
    ensures found == CollectBacklinks(files, contents, canon, active, note)
  {
    found := [];
    var i := 0;
    while i < |files|
      invariant i <= |files|
      invariant found == CollectBacklinks(files[..i], contents, canon, active, note)
    {
      var p := files[i];
      var j := i + 1;
      CollectStep(files, contents, canon, active, note, i, j);
      if Extension(p) == Some("md") && !SameFilePath(p, active, canon) && p in contents {
        var more := ScanFile(p, contents[p], note);
        found := found + more;
      }
      i := j;
    }
    assert files[..i] == files;
  }
}
