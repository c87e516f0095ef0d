/**
 * The markdown line renderer: the five inline patterns, the earliest-match
 * token scanner, the split of a line into styled spans, the line-level
 * style ladder and the code-fence state carried from line to line.
 * Styles are abstract tags; colours and syntax highlighting are not modelled.
 */
module Markdown {
  import opened Wrappers
  import opened Text

  datatype TokenKind = InlineCode | WikiLink | Link | Bold | Italic

  /** The tie-break order of the scanner: a lower number wins a tie on the start. */
  function Priority(k: TokenKind): (p: nat)
    ensures p < 5
  {
    match k
    case InlineCode => 0
    case WikiLink => 1
    case Link => 2
    case Bold => 3
    case Italic => 4
  }

  /** Different kinds have different priorities, so ties are always broken. */
  lemma {:induction false} PriorityInjective(a: TokenKind, b: TokenKind)
    ensures Priority(a) == Priority(b) ==> a == b
  {
  }

  /** A match of one pattern: character positions `start..end` of the line. */
  datatype Token = Token(start: nat, end: nat, kind: TokenKind)

  /** `s[a..b]` is a range of `s` that holds no `c`. */
  predicate Free(s: string, a: int, b: int, c: char)
  {
    0 <= a <= b <= |s| && forall j :: a <= j < b ==> s[j] != c
  }

  /** A free range does not hold `c` at `j`. */
  lemma FreeAt(s: string, a: int, b: int, c: char, j: int)
    ensures Free(s, a, b, c) && a <= j < b ==> s[j] != c
  {
  }

  /** `s[i..e]` matches `\[[^\]]+\]\([^\)]+\)` with its `]` at `m`. */
  predicate LinkShape(s: string, i: nat, m: nat, e: nat)
  {
    && i + 2 <= m && m + 4 <= e <= |s|
    && s[i] == '[' && Free(s, i + 1, m, ']') && s[m] == ']'
    && s[m + 1] == '(' && Free(s, m + 2, e - 1, ')') && s[e - 1] == ')'
  }

  /**
   * `s[i..e]` is a whole match of the pattern of `k`:
   * `` `[^`]+` ``, `\[\[[^\]]+\]\]`, `\[[^\]]+\]\([^\)]+\)`,
   * `\*\*[^*]+\*\*` and `\*[^*\s][^*]*\*`.
   */
  ghost predicate IsMatch(k: TokenKind, s: string, i: nat, e: nat)
  {
    match k
    case InlineCode =>
      i + 3 <= e <= |s| && s[i] == '`' && Free(s, i + 1, e - 1, '`') && s[e - 1] == '`'
    case WikiLink =>
      && i + 5 <= e <= |s| && s[i] == '[' && s[i + 1] == '['
      && Free(s, i + 2, e - 2, ']') && s[e - 2] == ']' && s[e - 1] == ']'
    case Link =>
      exists m :: LinkShape(s, i, m, e)
    case Bold =>
      && i + 5 <= e <= |s| && s[i] == '*' && s[i + 1] == '*'
      && Free(s, i + 2, e - 2, '*') && s[e - 2] == '*' && s[e - 1] == '*'
    case Italic =>
      && i + 3 <= e <= |s| && s[i] == '*' && !IsWhitespace(s[i + 1])
      && Free(s, i + 1, e - 1, '*') && s[e - 1] == '*'
  }

  /** Every match spans at least three characters of the line. */
  lemma {:induction false} MatchBounds(k: TokenKind, s: string, i: nat, e: nat)
    requires IsMatch(k, s, i, e)
    ensures i + 3 <= e <= |s|
  {
    if k == Link {
      var m :| LinkShape(s, i, m, e);
    }
  }

  /** Two link shapes at the same start share their `]`. */
  lemma {:induction false} LinkShapeUnique(s: string, i: nat, m1: nat, e1: nat, m2: nat, e2: nat)
    requires LinkShape(s, i, m1, e1) && LinkShape(s, i, m2, e2)
    ensures m1 == m2 && e1 == e2
  {
    FreeAt(s, i + 1, m2, ']', m1);
    FreeAt(s, i + 1, m1, ']', m2);
    FreeAt(s, m1 + 2, e2 - 1, ')', e1 - 1);
    FreeAt(s, m2 + 2, e1 - 1, ')', e2 - 1);
  }

  /**
   * Each pattern has at most one match at a given start, so the regex
   * engine's leftmost-first choice is the only one.
   */
  lemma {:induction false} MatchUnique(k: TokenKind, s: string, i: nat, e1: nat, e2: nat)
    requires IsMatch(k, s, i, e1) && IsMatch(k, s, i, e2)
    ensures e1 == e2
  {
    match k
    case Link =>
      var m1 :| LinkShape(s, i, m1, e1);
      var m2 :| LinkShape(s, i, m2, e2);
      LinkShapeUnique(s, i, m1, e1, m2, e2);
    case InlineCode =>
      FreeAt(s, i + 1, e2 - 1, '`', e1 - 1);
      FreeAt(s, i + 1, e1 - 1, '`', e2 - 1);
    case Italic =>
      FreeAt(s, i + 1, e2 - 1, '*', e1 - 1);
      FreeAt(s, i + 1, e1 - 1, '*', e2 - 1);
    case WikiLink =>
      FreeAt(s, i + 2, e2 - 2, ']', e1 - 2);
      FreeAt(s, i + 2, e1 - 2, ']', e2 - 2);
    case Bold =>
      FreeAt(s, i + 2, e2 - 2, '*', e1 - 2);
      FreeAt(s, i + 2, e1 - 2, '*', e2 - 2);
  }

  /** The first position at or after `a` that holds `c`. */
  function FirstFrom(s: string, c: char, a: nat): (r: Option<nat>)
    requires a <= |s|
    ensures r.Some? ==> a <= r.value < |s| && s[r.value] == c
    decreases |s| - a
  {
    if a == |s| then None
    else if s[a] == c then Some(a)
    else FirstFrom(s, c, a + 1)
  }

  /** Nothing before the position found holds `c`; when none is found, nothing from `a` on does. */
  lemma {:induction false} FirstFromSpec(s: string, c: char, a: nat)
    requires a <= |s|
    ensures FirstFrom(s, c, a).Some? ==> Free(s, a, FirstFrom(s, c, a).value, c)
    ensures FirstFrom(s, c, a).None? ==> Free(s, a, |s|, c)
    decreases |s| - a
  {
    if a < |s| && s[a] != c {
      FirstFromSpec(s, c, a + 1);
    }
  }

  /** End of the inline-code match at `i`, if any. */
  function CodeEnd(s: string, i: nat): (r: Option<nat>)
    ensures r.Some? ==> i + 3 <= r.value <= |s|
  {
    if i + 1 < |s| && s[i] == '`' then
      match FirstFrom(s, '`', i + 1)
      case Some(j) => if j > i + 1 then Some(j + 1) else None
      case None => None
    else None
  }

  lemma {:induction false} CodeEndSpec(s: string, i: nat)
    ensures CodeEnd(s, i).Some? ==> IsMatch(InlineCode, s, i, CodeEnd(s, i).value)
    ensures CodeEnd(s, i).None? ==> forall e :: !IsMatch(InlineCode, s, i, e)
  {
    if i + 1 < |s| { FirstFromSpec(s, '`', i + 1); }
  }

  /** End of the wikilink match at `i`, if any. */
  function WikiEnd(s: string, i: nat): (r: Option<nat>)
    ensures r.Some? ==> i + 3 <= r.value <= |s|
  {
    if i + 2 < |s| && s[i] == '[' && s[i + 1] == '[' then
      match FirstFrom(s, ']', i + 2)
      case Some(j) => if j > i + 2 && j + 1 < |s| && s[j + 1] == ']' then Some(j + 2) else None
      case None => None
    else None
  }

  lemma {:induction false} WikiEndSpec(s: string, i: nat)
    ensures WikiEnd(s, i).Some? ==> IsMatch(WikiLink, s, i, WikiEnd(s, i).value)
    ensures WikiEnd(s, i).None? ==> forall e :: !IsMatch(WikiLink, s, i, e)
  {
    if i + 2 < |s| { FirstFromSpec(s, ']', i + 2); }
  }

  /** End of the bold match at `i`, if any. */
  function BoldEnd(s: string, i: nat): (r: Option<nat>)
    ensures r.Some? ==> i + 3 <= r.value <= |s|
  {
    if i + 2 < |s| && s[i] == '*' && s[i + 1] == '*' then
      match FirstFrom(s, '*', i + 2)
      case Some(j) => if j > i + 2 && j + 1 < |s| && s[j + 1] == '*' then Some(j + 2) else None
      case None => None
    else None
  }

  lemma {:induction false} BoldEndSpec(s: string, i: nat)
    ensures BoldEnd(s, i).Some? ==> IsMatch(Bold, s, i, BoldEnd(s, i).value)
    ensures BoldEnd(s, i).None? ==> forall e :: !IsMatch(Bold, s, i, e)
  {
    if i + 2 < |s| { FirstFromSpec(s, '*', i + 2); }
  }

  /** End of the italic match at `i`, if any. */
  function ItalicEnd(s: string, i: nat): (r: Option<nat>)
    ensures r.Some? ==> i + 3 <= r.value <= |s|
  {
    if i + 1 < |s| && s[i] == '*' && s[i + 1] != '*' && !IsWhitespace(s[i + 1]) then
      match FirstFrom(s, '*', i + 2)
      case Some(j) => Some(j + 1)
      case None => None
    else None
  }

  lemma {:induction false} ItalicEndSpec(s: string, i: nat)
    ensures ItalicEnd(s, i).Some? ==> IsMatch(Italic, s, i, ItalicEnd(s, i).value)
    ensures ItalicEnd(s, i).None? ==> forall e :: !IsMatch(Italic, s, i, e)
  {
    if i + 1 < |s| { FirstFromSpec(s, '*', i + 2); }
  }

  /** End of the link match at `i`, if any. */
  function LinkEnd(s: string, i: nat): (r: Option<nat>)
    ensures r.Some? ==> i + 3 <= r.value <= |s|
  {
    if i + 1 < |s| && s[i] == '[' then
      match FirstFrom(s, ']', i + 1)
      case Some(m) =>
        if m > i + 1 && m + 2 < |s| && s[m + 1] == '(' then
          match FirstFrom(s, ')', m + 2)
          case Some(j) => if j > m + 2 then Some(j + 1) else None
          case None => None
        else None
      case None => None
    else None
  }

  lemma {:induction false} LinkEndSpec(s: string, i: nat)
    ensures LinkEnd(s, i).Some? ==> IsMatch(Link, s, i, LinkEnd(s, i).value)
    ensures LinkEnd(s, i).None? ==> forall e :: !IsMatch(Link, s, i, e)
  {
    if i + 1 < |s| && s[i] == '[' {
      FirstFromSpec(s, ']', i + 1);
      match FirstFrom(s, ']', i + 1)
      case Some(m) =>
        if m > i + 1 && m + 2 < |s| && s[m + 1] == '(' {
          FirstFromSpec(s, ')', m + 2);
          match FirstFrom(s, ')', m + 2)
          case Some(j) =>
            if j > m + 2 {
              assert LinkShape(s, i, m, j + 1);
            } else {
              NoLinkAfter(s, i, m, j);
            }
          case None =>
            NoLinkAfter(s, i, m, |s|);
        } else {
          NoLinkBracket(s, i, m);
        }
      case None =>
        NoLinkAt(s, i);
    }
  }

  /** With no `]` after the `[`, no link starts at `i`. */
  lemma {:induction false} NoLinkAt(s: string, i: nat)
    requires i + 1 <= |s| && Free(s, i + 1, |s|, ']')
    ensures forall e :: !IsMatch(Link, s, i, e)
  {
    forall e: nat, m: nat | LinkShape(s, i, m, e) ensures false {
      FreeAt(s, i + 1, |s|, ']', m);
    }
  }

  /** When the first `]` after the `[` is not followed by a `(` after link text, no link starts at `i`. */
  lemma {:induction false} NoLinkBracket(s: string, i: nat, m: nat)
    requires i + 1 <= m < |s| && s[m] == ']' && Free(s, i + 1, m, ']')
    requires !(m > i + 1 && m + 2 < |s| && s[m + 1] == '(')
    ensures forall e :: !IsMatch(Link, s, i, e)
  {
    forall e: nat, m2: nat | LinkShape(s, i, m2, e) ensures false {
      FreeAt(s, i + 1, m2, ']', m);
      FreeAt(s, i + 1, m, ']', m2);
    }
  }

  /**
   * When the link text closes at `m` and the first `)` at or after `m + 2`
   * is at `j` (or there is none, `j == |s|`) with nothing between, no link starts at `i`.
   */
  lemma {:induction false} NoLinkAfter(s: string, i: nat, m: nat, j: nat)
    requires i + 1 < m && m + 2 <= j <= |s| && s[m] == ']' && Free(s, i + 1, m, ']')
    requires Free(s, m + 2, j, ')') && (j < |s| ==> s[j] == ')')
    requires j <= m + 2 || j == |s|
    ensures forall e :: !IsMatch(Link, s, i, e)
  {
    forall e: nat, m2: nat | LinkShape(s, i, m2, e) ensures false {
      FreeAt(s, i + 1, m2, ']', m);
      FreeAt(s, i + 1, m, ']', m2);
      FreeAt(s, m + 2, j, ')', e - 1);
      FreeAt(s, m + 2, e - 1, ')', j);
    }
  }

  /** End of the match of `k` at `i`, if any. */
  function MatchEnd(k: TokenKind, s: string, i: nat): (r: Option<nat>)
    ensures r.Some? ==> i + 3 <= r.value <= |s|
  {
    match k
    case InlineCode => CodeEnd(s, i)
    case WikiLink => WikiEnd(s, i)
    case Link => LinkEnd(s, i)
    case Bold => BoldEnd(s, i)
    case Italic => ItalicEnd(s, i)
  }

  /** `MatchEnd` finds the match of `k` at `i` exactly when there is one. */
  lemma {:induction false} MatchEndSpec(k: TokenKind, s: string, i: nat)
    ensures MatchEnd(k, s, i).Some? ==> IsMatch(k, s, i, MatchEnd(k, s, i).value)
    ensures MatchEnd(k, s, i).None? ==> forall e :: !IsMatch(k, s, i, e)
  {
    match k
    case InlineCode => CodeEndSpec(s, i);
    case WikiLink => WikiEndSpec(s, i);
    case Link => LinkEndSpec(s, i);
    case Bold => BoldEndSpec(s, i);
    case Italic => ItalicEndSpec(s, i);
  }

  /** `Regex::find_at(s, from)`: the leftmost match of `k` that starts at or after `from`. */
  function Find(k: TokenKind, s: string, from: nat): (r: Option<Token>)
    ensures r.Some? ==> r.value.kind == k && from <= r.value.start && r.value.start + 3 <= r.value.end <= |s|
    decreases |s| - from
  {
    if from >= |s| then None
    else
      match MatchEnd(k, s, from)
      case Some(e) => Some(Token(from, e, k))
      case None => Find(k, s, from + 1)
  }

  /** What `Find` returns is a match, and no match of `k` starts between `from` and it. */
  lemma {:induction false} FindSpec(k: TokenKind, s: string, from: nat)
    ensures Find(k, s, from).Some? ==> IsMatch(k, s, Find(k, s, from).value.start, Find(k, s, from).value.end)
    ensures forall i: nat, e: nat :: from <= i && (Find(k, s, from).None? || i < Find(k, s, from).value.start) ==> !IsMatch(k, s, i, e)
    decreases |s| - from
  {
    if from >= |s| {
      forall i: nat, e: nat | from <= i ensures !IsMatch(k, s, i, e) {
        if IsMatch(k, s, i, e) { MatchBounds(k, s, i, e); }
      }
    } else {
      MatchEndSpec(k, s, from);
      if MatchEnd(k, s, from).None? {
        FindSpec(k, s, from + 1);
      }
    }
  }

  /** Of two candidates the one that starts first, `a` on a tie. */
  function Earliest(a: Option<Token>, b: Option<Token>): Option<Token>
  {
    if a.None? then b
    else if b.None? then a
    else if b.value.start < a.value.start then b
    else a
  }

  /**
   * `next_markdown_token`: the candidate that starts first, ties going to
   * inline code, then wikilink, link, bold and italic.
   */
  function NextToken(s: string, from: nat): (r: Option<Token>)
    ensures r.Some? ==> from <= r.value.start && r.value.start + 3 <= r.value.end <= |s|
  {
    Earliest(Earliest(Earliest(Earliest(
      Find(InlineCode, s, from), Find(WikiLink, s, from)), Find(Link, s, from)),
      Find(Bold, s, from)), Find(Italic, s, from))
  }

  /** The candidate chosen by `NextToken` is one of the five. */
  lemma {:induction false} NextTokenChoice(s: string, from: nat)
    ensures NextToken(s, from).Some? ==> NextToken(s, from) == Find(NextToken(s, from).value.kind, s, from)
  {
  }

  /** The token found is a match of its kind. */
  lemma {:induction false} NextTokenMatch(s: string, from: nat)
    ensures NextToken(s, from).Some? ==>
      IsMatch(NextToken(s, from).value.kind, s, NextToken(s, from).value.start, NextToken(s, from).value.end)
  {
    NextTokenChoice(s, from);
    if NextToken(s, from).Some? {
      FindSpec(NextToken(s, from).value.kind, s, from);
    }
  }

  /** The first candidate of kind `k` starts no earlier than the chosen token, and strictly later when `k` would have won a tie. */
  lemma {:induction false} NextTokenFirst(s: string, from: nat, k: TokenKind)
    requires NextToken(s, from).Some? && Find(k, s, from).Some?
    ensures NextToken(s, from).value.start <= Find(k, s, from).value.start
    ensures Priority(k) < Priority(NextToken(s, from).value.kind) ==>
      NextToken(s, from).value.start < Find(k, s, from).value.start
  {
  }

  /** When nothing is found, no kind has a candidate. */
  lemma {:induction false} NextTokenNone(s: string, from: nat, k: TokenKind)
    requires NextToken(s, from).None?
    ensures Find(k, s, from).None?
  {
  }

  /** No match of any kind starts between `from` and the chosen token (or at all, when none is chosen). */
  lemma {:induction false} NextTokenLeftmost(s: string, from: nat, k: TokenKind, i: nat, e: nat)
    requires from <= i
    requires NextToken(s, from).None? || i < NextToken(s, from).value.start
    ensures !IsMatch(k, s, i, e)
  {
    FindSpec(k, s, from);
    if NextToken(s, from).Some? && Find(k, s, from).Some? {
      NextTokenFirst(s, from, k);
    } else if NextToken(s, from).None? {
      NextTokenNone(s, from, k);
    }
  }

  /** A kind that would win a tie has no match at the chosen token's start. */
  lemma {:induction false} NextTokenTieBreak(s: string, from: nat, k: TokenKind, e: nat)
    requires NextToken(s, from).Some?
    requires Priority(k) < Priority(NextToken(s, from).value.kind)
    ensures !IsMatch(k, s, NextToken(s, from).value.start, e)
  {
    FindSpec(k, s, from);
    if Find(k, s, from).Some? {
      NextTokenFirst(s, from, k);
    }
  }

  /** The line-level style chosen from the line's leading marker. */
  datatype LineStyle = Heading(level: nat) | Quote | ListItem | Plain

  /** A piece of a rendered line: its text, the line style and, inside a token, the token's kind. */
  datatype Span = Span(text: string, base: LineStyle, token: Option<TokenKind>)

  /**
   * The spans the cursor loop of `render_inline_markdown` emits from
   * position `from` on: plain text up to the next token, then the token.
   */
  function InlineSpans(s: string, base: LineStyle, from: nat): (r: seq<Span>)
    requires from <= |s|
    ensures from < |s| ==> r != []
    decreases |s| - from
  {
    if from == |s| then []
    else
      match NextToken(s, from)
      case None => [Span(s[from..], base, None)]
      case Some(t) =>
        (if t.start > from then [Span(s[from..t.start], base, None)] else [])
        + [Span(s[t.start..t.end], base, Some(t.kind))]
        + InlineSpans(s, base, t.end)
  }

  /** The spans of a whole line; an empty line is one empty span. */
  function RenderInline(s: string, base: LineStyle): seq<Span>
  {
    if s == [] then [Span(s, base, None)] else InlineSpans(s, base, 0)
  }

  /** The texts of the spans, concatenated in order. */
  function Texts(spans: seq<Span>): string
  {
    if spans == [] then [] else spans[0].text + Texts(spans[1..])
  }

  lemma {:induction false} TextsAppend(a: seq<Span>, b: seq<Span>)
    ensures Texts(a + b) == Texts(a) + Texts(b)
  {
    if a == [] {
      assert a + b == b;
    } else {
      assert (a + b)[0] == a[0];
      assert (a + b)[1..] == a[1..] + b;
      TextsAppend(a[1..], b);
    }
  }

  lemma {:induction false} TextsCons(x: Span, rest: seq<Span>)
    ensures Texts([x] + rest) == x.text + Texts(rest)
  {
    assert ([x] + rest)[0] == x;
    assert ([x] + rest)[1..] == rest;
  }

  lemma {:induction false} SliceSplit(s: string, a: nat, b: nat)
    requires a <= b <= |s|
    ensures s[a..] == s[a..b] + s[b..]
  {
  }

  /** The spans of one step of the loop, followed by `rest`, spell out `s[a..]` when `rest` spells out `s[c..]`. */
  lemma {:induction false} StepTexts(s: string, base: LineStyle, a: nat, b: nat, c: nat, kind: TokenKind, rest: seq<Span>)
    requires a <= b <= c <= |s| && Texts(rest) == s[c..]
    ensures Texts((if b > a then [Span(s[a..b], base, None)] else []) + [Span(s[b..c], base, Some(kind))] + rest) == s[a..]
  {
    var tok := Span(s[b..c], base, Some(kind));
    TextsCons(tok, rest);
    SliceSplit(s, b, c);
    if b > a {
      var gap := Span(s[a..b], base, None);
      assert [gap] + [tok] + rest == [gap] + ([tok] + rest);
      TextsCons(gap, [tok] + rest);
      SliceSplit(s, a, b);
    } else {
      assert [] + [tok] + rest == [tok] + rest;
    }
  }

  /** The spans from `from` on spell out exactly the rest of the line. */
  lemma {:induction false} InlineSpansText(s: string, base: LineStyle, from: nat)
    requires from <= |s|
    ensures Texts(InlineSpans(s, base, from)) == s[from..]
    decreases |s| - from
  {
    if from < |s| {
      var next := NextToken(s, from);
      if next.Some? {
        var t := next.value;
        InlineSpansText(s, base, t.end);
        StepTexts(s, base, from, t.start, t.end, t.kind, InlineSpans(s, base, t.end));
      }
    }
  }

  /** The rendered spans concatenate, in order, to exactly the input line. */
  lemma {:induction false} RenderInlineText(s: string, base: LineStyle)
    ensures Texts(RenderInline(s, base)) == s
  {
    if s != [] {
      InlineSpansText(s, base, 0);
    }
  }

  /** `render_inline_markdown`: the cursor loop over the line. */
  method RenderInlineMarkdown(s: string, base: LineStyle) returns (spans: seq<Span>)
    ensures spans == RenderInline(s, base)
    ensures Texts(spans) == s
  {
    spans := [];
    var cursor := 0;
    while cursor < |s|
      invariant cursor <= |s|
      invariant spans + InlineSpans(s, base, cursor) == InlineSpans(s, base, 0)
      decreases |s| - cursor
    {
      var next := NextToken(s, cursor);
      if next.None? {
        spans := spans + [Span(s[cursor..], base, None)];
        break;
      }
      var t := next.value;
      ghost var before := spans;
      ghost var gap := if t.start > cursor then [Span(s[cursor..t.start], base, None)] else [];
      ghost var token := [Span(s[t.start..t.end], base, Some(t.kind))];
      ghost var rest := InlineSpans(s, base, t.end);
      assert InlineSpans(s, base, cursor) == gap + token + rest;
      if t.start > cursor {
        spans := spans + [Span(s[cursor..t.start], base, None)];
      }
      assert spans == before + gap;
      spans := spans + [Span(s[t.start..t.end], base, Some(t.kind))];
      ConcatAssoc(before, gap, token);
      ConcatAssoc(before, gap + token, rest);
      cursor := t.end;
    }
    if spans == [] {
      spans := [Span(s, base, None)];
    }
    RenderInlineText(s, base);
  }

  lemma ConsIndex<T>(x: T, r: seq<T>, i: nat, j: nat)
    requires i == j + 1 && j < |r|
    ensures ([x] + r)[i] == r[j]
  {
  }

  /** `base_markdown_style`: the ladder over the left-trimmed line. */
  function BaseStyle(line: string): (st: LineStyle)
    ensures st.Heading? ==> 1 <= st.level <= 3
  {
    StyleOf(TrimStart(line))
  }

  /** The ladder itself, over an already trimmed line. */
  function StyleOf(t: string): (st: LineStyle)
    ensures st.Heading? ==> 1 <= st.level <= 3
    ensures st != Plain ==> t != []
  {
    if StartsWith(t, "# ") then Heading(1)
    else if StartsWith(t, "## ") then Heading(2)
    else if StartsWith(t, "### ") then Heading(3)
    else if StartsWith(t, ">") then Quote
    else if StartsWith(t, "- ") || StartsWith(t, "* ") || StartsWith(t, "+ ") then ListItem
    else Plain
  }

  /** The styles the ladder can choose besides plain text. */
  const MarkedStyles: seq<LineStyle> := [Heading(1), Heading(2), Heading(3), Quote, ListItem]

  /** The line markers that select each style. */
  function Markers(st: LineStyle): seq<string>
  {
    match st
    case Heading(n) => if n == 1 then ["# "] else if n == 2 then ["## "] else if n == 3 then ["### "] else []
    case Quote => [">"]
    case ListItem => ["- ", "* ", "+ "]
    case Plain => []
  }

  ghost predicate HasMarker(t: string, st: LineStyle)
  {
    exists p :: p in Markers(st) && StartsWith(t, p)
  }

  /**
   * The markers are mutually exclusive, so the order of the ladder does not
   * matter: a trimmed line gets a marked style exactly when it starts with
   * one of that style's markers.
   */
  lemma {:induction false} StyleByMarker(t: string, st: LineStyle)
    requires st in MarkedStyles
    ensures StyleOf(t) == st <==> HasMarker(t, st)
  {
    if HasMarker(t, st) {
      MarkerStyle(t, st);
    }
    if StyleOf(t) == st {
      var p := if st == Heading(1) then "# " else if st == Heading(2) then "## "
        else if st == Heading(3) then "### " else if st == Quote then ">"
        else if StartsWith(t, "- ") then "- " else if StartsWith(t, "* ") then "* " else "+ ";
      assert p in Markers(st) && StartsWith(t, p);
    }
  }

  /** A line that starts with a marker of `st` gets the style `st`. */
  lemma {:induction false} MarkerStyle(t: string, st: LineStyle)
    requires st in MarkedStyles && HasMarker(t, st)
    ensures StyleOf(t) == st
  {
    var p :| p in Markers(st) && StartsWith(t, p);
    assert t[0] == p[0];
    assert |p| > 1 ==> t[1] == p[1];
    assert |p| > 2 ==> t[2] == p[2];
  }

  /** A line gets a marked style exactly when, after its indentation, it starts with one of that style's markers. */
  lemma {:induction false} BaseStyleByMarker(line: string, st: LineStyle)
    requires st in MarkedStyles
    ensures BaseStyle(line) == st <==> HasMarker(TrimStart(line), st)
  {
    StyleByMarker(TrimStart(line), st);
  }

  /** A line is plain exactly when it starts with none of the markers. */
  lemma {:induction false} BaseStylePlain(line: string)
    ensures BaseStyle(line) == Plain <==> forall st :: st in MarkedStyles ==> !HasMarker(TrimStart(line), st)
  {
    var t := TrimStart(line);
    forall st | st in MarkedStyles ensures StyleOf(t) == st <==> HasMarker(t, st) {
      StyleByMarker(t, st);
    }
    var b := StyleOf(t);
    assert b != Plain ==> b in MarkedStyles;
  }

  /** `trim_start_matches("```")`: drops every leading run of three backticks. */
  function TrimFences(s: string): (r: string)
    ensures |r| <= |s| && r == s[|s| - |r|..]
    ensures !StartsWith(r, "```")
    decreases |s|
  {
    if StartsWith(s, "```") then TrimFences(s[3..]) else s
  }

  /**
   * `parse_code_fence_language`: a fence line starts, after indentation,
   * with three backticks; its language is what follows them, trimmed, or
   * "text" when nothing does.
   */
  function FenceLanguage(line: string): (r: Option<string>)
    ensures r.Some? ==> r.value != []
  {
    var t := TrimStart(line);
    if !StartsWith(t, "```") then None
    else
      var lang := Trim(TrimFences(t));
      if lang == [] then Some("text") else Some(lang)
  }

  /** A line is a fence line exactly when it starts, after indentation, with three backticks. */
  lemma {:induction false} FenceLanguageSome(line: string)
    ensures FenceLanguage(line).Some? <==> StartsWith(TrimStart(line), "```")
  {
  }

  /** Trimming a string made only of whitespace leaves nothing. */
  lemma {:induction false} TrimAllSpace(s: string)
    requires forall i :: 0 <= i < |s| ==> IsWhitespace(s[i])
    ensures Trim(s) == []
  {
    assert TrimStart(s) == [];
  }

  /** A fence with nothing but whitespace after its backticks opens a "text" block. */
  lemma {:induction false} FenceDefaultLanguage(line: string, rest: string)
    requires TrimStart(line) == "```" + rest
    requires forall i :: 0 <= i < |rest| ==> IsWhitespace(rest[i])
    ensures FenceLanguage(line) == Some("text")
  {
    TrimFencesOnce("```" + rest, rest);
    TrimAllSpace(rest);
  }

  /** Three backticks followed by something that does not start with a backtick lose exactly those three. */
  lemma {:induction false} TrimFencesOnce(t: string, rest: string)
    requires t == "```" + rest
    requires rest == [] || rest[0] != '`'
    ensures TrimFences(t) == rest
  {
    assert StartsWith(t, "```");
    assert t[3..] == rest;
  }

  /** A fence followed directly by a language name without spaces or backticks opens a block in that language. */
  lemma {:induction false} FenceNamedLanguage(line: string, lang: string)
    requires TrimStart(line) == "```" + lang
    requires lang != [] && lang[0] != '`'
    requires forall i :: 0 <= i < |lang| ==> !IsWhitespace(lang[i])
    ensures FenceLanguage(line) == Some(lang)
  {
    TrimFencesOnce("```" + lang, lang);
    TrimNoSpace(lang);
  }

  /** Line `i` of the document, or the empty string past its end (`unwrap_or_default`). */
  function LineOr(doc: seq<string>, i: nat): string
  {
    if i < |doc| then doc[i] else ""
  }

  /** The fence language of every line of the document, `None` for lines that are not fences. */
  function Fences(doc: seq<string>): (f: seq<Option<string>>)
    ensures |f| == |doc|
  {
    seq(|doc|, i requires 0 <= i < |doc| => FenceLanguage(doc[i]))
  }

  /** Entry `i` of the fence table, `None` past the end of the document. */
  function FenceAt(fences: seq<Option<string>>, i: nat): Option<string>
  {
    if i < |fences| then fences[i] else None
  }

  /** The fence table holds the fence language of each line, and nothing past the end. */
  lemma {:induction false} FencesAt(doc: seq<string>, i: nat)
    ensures FenceAt(Fences(doc), i) == FenceLanguage(LineOr(doc, i))
  {
    if i >= |doc| {
      assert TrimStart(LineOr(doc, i)) == [];
    }
  }

  /** The code-block state after a line: a fence opens a block when none is open and closes it otherwise. */
  function Toggle(state: Option<string>, fence: Option<string>): (next: Option<string>)
    ensures fence.None? ==> next == state
    ensures fence.Some? ==> next.Some? != state.Some?
  {
    match fence
    case None => state
    case Some(lang) => if state.Some? then None else Some(lang)
  }

  /** The code-block state before line `n`. */
  function FenceState(fences: seq<Option<string>>, n: nat): Option<string>
  {
    if n == 0 then None else Toggle(FenceState(fences, n - 1), FenceAt(fences, n - 1))
  }

  /** One step of `FenceState`, with the next line index given as `j`. */
  lemma {:induction false} FenceStateStep(fences: seq<Option<string>>, i: nat, j: nat)
    requires j == i + 1
    ensures FenceState(fences, j) == Toggle(FenceState(fences, i), FenceAt(fences, i))
  {
  }

  /** The number of fence lines among lines `0..n`. */
  function FenceCount(fences: seq<Option<string>>, n: nat): (c: nat)
    ensures c <= n
  {
    if n == 0 then 0
    else FenceCount(fences, n - 1) + (if FenceAt(fences, n - 1).Some? then 1 else 0)
  }

  /** A code block is open before line `n` exactly when an odd number of fences precede it. */
  lemma {:induction false} FenceParity(fences: seq<Option<string>>, n: nat)
    ensures FenceState(fences, n).Some? <==> FenceCount(fences, n) % 2 == 1
  {
    if n > 0 {
      FenceParity(fences, n - 1);
    }
  }

  /** An open block carries the language of a fence line before `n`. */
  lemma {:induction false} FenceStateLanguage(fences: seq<Option<string>>, n: nat)
    requires FenceState(fences, n).Some?
    ensures exists i :: 0 <= i < n && FenceAt(fences, i) == FenceState(fences, n)
  {
    var prev := FenceState(fences, n - 1);
    if FenceAt(fences, n - 1).None? {
      FenceStateLanguage(fences, n - 1);
      var i :| 0 <= i < n - 1 && FenceAt(fences, i) == prev;
      assert 0 <= i < n && FenceAt(fences, i) == FenceState(fences, n);
    } else {
      var i := n - 1;
      assert FenceAt(fences, i) == FenceState(fences, n);
    }
  }

  /** `parse_code_fence_language` on line `i` of the document. */
  method LineFence(doc: seq<string>, i: nat) returns (fence: Option<string>)
    ensures fence == FenceAt(Fences(doc), i)
  {
    FencesAt(doc, i);
    fence := FenceLanguage(LineOr(doc, i));
  }

  /** `code_block_lang_before_line`: replays the fences of the lines above `lineIndex`. */
  method CodeBlockLangBeforeLine(doc: seq<string>, lineIndex: nat) returns (lang: Option<string>)
    ensures lang == FenceState(Fences(doc), lineIndex)
  {
    ghost var fences := Fences(doc);
    lang := None;
    var i := 0;
    while i < lineIndex
      invariant i <= lineIndex
      invariant lang == FenceState(fences, i)
    {
      var fence := LineFence(doc, i);
      var j := i + 1;
      FenceStateStep(fences, i, j);
      if fence.Some? {
        if lang.Some? {
          lang := None;
        } else {
          lang := Some(fence.value);
        }
      }
      i := j;
    }
  }

  /** A rendered editor line. Code lines are highlighted by a library left out of the model. */
  datatype RenderedLine =
    | FenceLine(text: string)
    | CodeLine(text: string, lang: string)
    | InlineLine(spans: seq<Span>)

  /**
   * How a line is shown, given its fence language (`None` when it is not a
   * fence line) and the code-block state before it, with the state after it.
   */
  function RenderWith(text: string, fence: Option<string>, state: Option<string>): (r: (RenderedLine, Option<string>))
    ensures r.1 == Toggle(state, fence)
  {
    if fence.Some? then (FenceLine(text), Toggle(state, fence))
    else if state.Some? then (CodeLine(text, state.value), state)
    else (InlineLine(RenderInline(text, BaseStyle(text))), state)
  }

  /** `render_markdown_line` as a value: the rendered line and the state for the next line. */
  function RenderLine(text: string, state: Option<string>): (r: (RenderedLine, Option<string>))
    ensures FenceLanguage(text).None? ==> r.1 == state
    ensures FenceLanguage(text).Some? ==> (r.1.Some? <==> state.None?)
  {
    RenderWith(text, FenceLanguage(text), state)
  }

  /** Fence lines are shown as they are, lines inside a block as code, and the others as styled spans that spell out the line. */
  lemma {:induction false} RenderLineKind(text: string, state: Option<string>)
    ensures RenderLine(text, state).0.FenceLine? <==> FenceLanguage(text).Some?
    ensures RenderLine(text, state).0.CodeLine? <==> FenceLanguage(text).None? && state.Some?
    ensures RenderLine(text, state).0.FenceLine? ==> RenderLine(text, state).0.text == text
    ensures RenderLine(text, state).0.CodeLine? ==> RenderLine(text, state).0 == CodeLine(text, state.value)
    ensures RenderLine(text, state).0.InlineLine? ==> Texts(RenderLine(text, state).0.spans) == text
  {
    RenderInlineText(text, BaseStyle(text));
  }

  /** `render_markdown_line`. */
  method RenderMarkdownLine(text: string, state: Option<string>) returns (line: RenderedLine, next: Option<string>)
    ensures (line, next) == RenderLine(text, state)
  {
    var fence := FenceLanguage(text);
    if fence.Some? {
      next := if state.Some? then None else Some(fence.value);
      return FenceLine(text), next;
    }
    if state.Some? {
      return CodeLine(text, state.value), state;
    }
    var spans := RenderInlineMarkdown(text, BaseStyle(text));
    return InlineLine(spans), state;
  }

  /** Lines `n..end` rendered one after another from `state`, each with its entry of the fence table. */
  function RenderLines(doc: seq<string>, fences: seq<Option<string>>, n: nat, end: nat, state: Option<string>): (r: seq<RenderedLine>)
    requires n <= end
    ensures |r| == end - n
    decreases end - n
  {
    if n == end then []
    else
      var r := RenderWith(LineOr(doc, n), FenceAt(fences, n), state);
      [r.0] + RenderLines(doc, fences, n + 1, end, r.1)
  }

  /**
   * Started from the fence state of line `n`, line `k` comes out exactly as
   * a pass over the whole document from its first line would render it.
   */
  lemma {:induction false} RenderLinesAt(doc: seq<string>, fences: seq<Option<string>>, n: nat, end: nat, k: nat)
    requires n <= k < end
    ensures RenderLines(doc, fences, n, end, FenceState(fences, n))[k - n]
      == RenderWith(LineOr(doc, k), FenceAt(fences, k), FenceState(fences, k)).0
    decreases end - n
  {
    if n < k {
      RenderLinesAt(doc, fences, n + 1, end, k);
      RenderLinesAtStep(doc, fences, n, n + 1, end, k);
    } else {
      RenderLinesStep(doc, fences, n, n + 1, end, FenceState(fences, n));
    }
  }

  /** The inductive step of RenderLinesAt: line `k` of the pass from `m` is line `k` of the pass from `n`. */
  lemma RenderLinesAtStep(doc: seq<string>, fences: seq<Option<string>>, n: nat, m: nat, end: nat, k: nat)
    requires n < k < end && m == n + 1
    requires RenderLines(doc, fences, m, end, FenceState(fences, m))[k - m]
      == RenderWith(LineOr(doc, k), FenceAt(fences, k), FenceState(fences, k)).0
    ensures RenderLines(doc, fences, n, end, FenceState(fences, n))[k - n]
      == RenderWith(LineOr(doc, k), FenceAt(fences, k), FenceState(fences, k)).0
  {
    var head := RenderWith(LineOr(doc, n), FenceAt(fences, n), FenceState(fences, n));
    RenderLinesStep(doc, fences, n, m, end, FenceState(fences, n));
    FenceStateStep(fences, n, m);
    assert head.1 == FenceState(fences, m);
    ConsIndex(head.0, RenderLines(doc, fences, m, end, FenceState(fences, m)), k - n, k - m);
  }

  /** One line of `RenderLines`, with the next line index given as `m`. */
  lemma {:induction false} RenderLinesStep(doc: seq<string>, fences: seq<Option<string>>, n: nat, m: nat, end: nat, state: Option<string>)
    requires n < end && m == n + 1
    ensures RenderLines(doc, fences, n, end, state)
      == [RenderWith(LineOr(doc, n), FenceAt(fences, n), state).0]
        + RenderLines(doc, fences, m, end, RenderWith(LineOr(doc, n), FenceAt(fences, n), state).1)
  {
  }

  /** Renders line `n` of the document, which the fence table describes. */
  method RenderDocLine(doc: seq<string>, n: nat, state: Option<string>) returns (line: RenderedLine, next: Option<string>)
    ensures (line, next) == RenderWith(LineOr(doc, n), FenceAt(Fences(doc), n), state)
  {
    line, next := RenderMarkdownLine(LineOr(doc, n), state);
    FencesAt(doc, n);
  }

  /** The rebuild of `render_editor`: the lines `top..bottom`, starting from the fence state recomputed at `top`. */
  method RenderWindow(doc: seq<string>, top: nat, bottom: nat) returns (lines: seq<RenderedLine>)
    requires top <= bottom
    ensures lines == RenderLines(doc, Fences(doc), top, bottom, FenceState(Fences(doc), top))
  {
    var state := CodeBlockLangBeforeLine(doc, top);
    ghost var fences := Fences(doc);
    lines := [];
    var n := top;
    while n < bottom
      invariant top <= n <= bottom
      invariant lines + RenderLines(doc, fences, n, bottom, state) == RenderLines(doc, fences, top, bottom, FenceState(fences, top))
    {
      var line, next := RenderDocLine(doc, n, state);
      var m := n + 1;
      RenderLinesStep(doc, fences, n, m, bottom, state);
      ConcatAssoc(lines, [line], RenderLines(doc, fences, m, bottom, next));
      assert line == RenderWith(LineOr(doc, n), FenceAt(fences, n), state).0;
      assert next == RenderWith(LineOr(doc, n), FenceAt(fences, n), state).1;
      lines := lines + [line];
      state := next;
      n := m;
    }
  }

  /** `Regex::find_iter`: the successive non-overlapping matches of `k` from `from` on. */
  function FindAll(k: TokenKind, s: string, from: nat): (r: seq<Token>)
    ensures forall j :: 0 <= j < |r| ==> r[j].kind == k && from <= r[j].start && r[j].start + 3 <= r[j].end <= |s|
    ensures forall a, b :: 0 <= a < b < |r| ==> r[a].end <= r[b].start
    decreases |s| - from
  {
    match Find(k, s, from)
    case None => []
    case Some(t) => [t] + FindAll(k, s, t.end)
  }

  /** Every token `find_iter` yields is a match of `k`. */
  lemma {:induction false} FindAllMatches(k: TokenKind, s: string, from: nat)
    ensures forall t :: t in FindAll(k, s, from) ==> IsMatch(k, s, t.start, t.end)
    decreases |s| - from
  {
    FindSpec(k, s, from);
    if Find(k, s, from).Some? {
      FindAllMatches(k, s, Find(k, s, from).value.end);
    }
  }

  /** Every match of `k` that starts at or after `from` lies inside one of the tokens found. */
  lemma {:induction false} FindAllComplete(k: TokenKind, s: string, from: nat, i: nat, e: nat)
    requires from <= i && IsMatch(k, s, i, e)
    ensures exists j :: 0 <= j < |FindAll(k, s, from)| && FindAll(k, s, from)[j].start <= i < FindAll(k, s, from)[j].end
    decreases |s| - from
  {
    FindSpec(k, s, from);
    var t := Find(k, s, from).value;
    var r := FindAll(k, s, from);
    assert r[0] == t;
    if i < t.end {
      assert r[0].start <= i < r[0].end;
    } else {
      FindAllComplete(k, s, t.end, i, e);
      var rest := FindAll(k, s, t.end);
      assert r == [t] + rest;
      var j :| 0 <= j < |rest| && rest[j].start <= i < rest[j].end;
      assert r[j + 1] == rest[j];
    }
  }
}
