/**
 * The line structure of a rope's text: line counts, line starts, the
 * line text `Buffer::line_text` hands out, and the conversion between
 * byte offsets (what the cursor column counts) and character indices.
 */
module TextLines {
  import opened Text

  /** The number of lines, with '\n' as the only line break: one more than the number of '\n'. */
  function LineCount(t: string): (n: nat)
    ensures n >= 1
  {
    Count(t, '\n') + 1
  }

  /** A text has a single line exactly when it holds no '\n'. */
  lemma {:induction false} SingleLine(t: string)
    ensures LineCount(t) == 1 <==> '\n' !in t
  {
    CountPositive(t, '\n');
  }

  lemma {:induction false} CountPrefix(t: string, i: nat, j: nat)
    requires i <= j <= |t|
    ensures Count(t[..j], '\n') == Count(t[..i], '\n') + Count(t[i..j], '\n')
  {
    assert t[..j] == t[..i] + t[i..j];
    CountAppend(t[..i], t[i..j], '\n');
  }

  /**
   * `Rope::line_to_char`: index of the first character of line `r`, which
   * is just past the r-th '\n'. Found from the end of the text: either the
   * last character is that '\n', or the start lies in the shorter text.
   */
  function LineStart(t: string, r: nat): (k: nat)
    requires r < LineCount(t)
    ensures k <= |t|
    ensures Count(t[..k], '\n') == r
    ensures r > 0 ==> k > 0 && t[k - 1] == '\n'
    decreases |t|
  {
    if r == 0 then 0
    else if t[|t| - 1] == '\n' && Count(t, '\n') == r then
      TakeAll(t);
      |t|
    else
      var p := t[..|t| - 1];
      var k := LineStart(p, r);
      assert p[..k] == t[..k];
      k
  }

  /** A position just past the r-th '\n' is the start of line r. */
  lemma {:induction false} LineStartUnique(t: string, r: nat, k: nat)
    requires 0 < r < LineCount(t)
    requires k <= |t| && Count(t[..k], '\n') == r && t[k - 1] == '\n'
    ensures LineStart(t, r) == k
  {
    var k0 := LineStart(t, r);
    if k < k0 {
      CountGrows(t, k, k0);
    } else if k0 < k {
      CountGrows(t, k0, k);
    }
  }

  /** A '\n' between two positions raises the count of '\n' before them. */
  lemma {:induction false} CountGrows(t: string, i: nat, j: nat)
    requires i < j <= |t| && t[j - 1] == '\n'
    ensures Count(t[..i], '\n') < Count(t[..j], '\n')
  {
    CountPrefix(t, i, j);
    CountPositive(t[i..j], '\n');
    assert t[i..j][j - 1 - i] == '\n';
  }

  /**
   * Line starts depend only on the text before them: an edit at or after
   * the start of line r leaves that start where it was.
   */
  lemma {:induction false} LineStartStable(t: string, u: string, r: nat)
    requires r < LineCount(t)
    requires LineStart(t, r) <= |u| && u[..LineStart(t, r)] == t[..LineStart(t, r)]
    ensures r < LineCount(u) && LineStart(u, r) == LineStart(t, r)
  {
    var k := LineStart(t, r);
    CountPrefix(u, k, |u|);
    assert u[..|u|] == u;
    if r > 0 {
      assert u[k - 1] == u[..k][k - 1];
      LineStartUnique(u, r, k);
    }
  }

  /** Line starts are strictly increasing. */
  lemma {:induction false} LineStartLess(t: string, r: nat, s: nat)
    requires r < s < LineCount(t)
    ensures LineStart(t, r) < LineStart(t, s)
  {
    var a, b := LineStart(t, r), LineStart(t, s);
    if b <= a {
      CountPrefix(t, b, a);
    }
  }

  /** A '\n' at or after the start of line r means line r is not the last. */
  lemma {:induction false} NewlineAfterStart(t: string, r: nat, j: nat)
    requires r < LineCount(t) && LineStart(t, r) <= j < |t| && t[j] == '\n'
    ensures r + 1 < LineCount(t)
  {
    var k := LineStart(t, r);
    CountPrefix(t, k, |t|);
    CountPositive(t[k..], '\n');
    assert t[k..][j - k] == '\n';
    assert t[..|t|] == t;
  }

  /** `Rope::line(r)`: line r with its terminating '\n', if it has one. */
  function RopeLine(t: string, r: nat): (l: string)
    requires r < LineCount(t)
    ensures LineStart(t, r) + |l| <= |t|
  {
    if r + 1 < LineCount(t) then
      LineStartLess(t, r, r + 1);
      t[LineStart(t, r)..LineStart(t, r + 1)]
    else
      t[LineStart(t, r)..]
  }

  /** A rope line is the slice of the text at its line's start. */
  lemma {:induction false} RopeLineSlice(t: string, r: nat)
    requires r < LineCount(t)
    ensures RopeLine(t, r) == t[LineStart(t, r)..LineStart(t, r) + |RopeLine(t, r)|]
  {
    if r + 1 < LineCount(t) {
      LineStartLess(t, r, r + 1);
      var a, b := LineStart(t, r), LineStart(t, r + 1);
      assert t[a..b] == t[a..a + (b - a)];
    } else {
      TakeAll(t);
    }
  }

  /** A string whose single '\n' is its last character has none before it. */
  lemma {:induction false} OnlyLastNewline(l: string)
    requires |l| > 0 && l[|l| - 1] == '\n' && Count(l, '\n') == 1
    ensures forall j :: 0 <= j < |l| - 1 ==> l[j] != '\n'
  {
    var p := l[..|l| - 1];
    CountPositive(p, '\n');
    forall j | 0 <= j < |l| - 1
      ensures l[j] != '\n'
    {
      assert l[j] == p[j];
    }
  }

  /** The only '\n' in a rope line is its last character, present unless it is the last line. */
  lemma {:induction false} RopeLineNewlines(t: string, r: nat)
    requires r < LineCount(t)
    ensures var l := RopeLine(t, r);
      && (forall j :: 0 <= j < |l| - 1 ==> l[j] != '\n')
      && (r + 1 < LineCount(t) <==> (|l| > 0 && l[|l| - 1] == '\n'))
  {
    if r + 1 < LineCount(t) {
      InnerLineNewlines(t, r);
    } else {
      LastLineNewlines(t, r);
    }
  }

  lemma {:induction false} InnerLineNewlines(t: string, r: nat)
    requires r + 1 < LineCount(t)
    ensures var l := RopeLine(t, r);
      |l| > 0 && l[|l| - 1] == '\n' && forall j :: 0 <= j < |l| - 1 ==> l[j] != '\n'
  {
    var k, k1 := LineStart(t, r), LineStart(t, r + 1);
    LineStartLess(t, r, r + 1);
    CountPrefix(t, k, k1);
    var l := t[k..k1];
    assert l[|l| - 1] == t[k1 - 1];
    OnlyLastNewline(l);
  }

  lemma {:induction false} LastLineNewlines(t: string, r: nat)
    requires r + 1 == LineCount(t)
    ensures '\n' !in RopeLine(t, r)
  {
    var k := LineStart(t, r);
    CountPrefix(t, k, |t|);
    assert t[..|t|] == t;
    CountPositive(t[k..|t|], '\n');
    assert t[k..|t|] == t[k..];
  }

  /** What `line_text` strips: nothing, '\n', '\r' or "\r\n". */
  predicate IsLineEnding(e: string)
  {
    e == "" || e == "\n" || e == "\r" || e == "\r\n"
  }

  /** Drops one trailing '\n' and then one trailing '\r'. */
  function StripLineEnding(l: string): (s: string)
    ensures |s| <= |l|
  {
    var n1 := if |l| > 0 && l[|l| - 1] == '\n' then |l| - 1 else |l|;
    var n := if n1 > 0 && l[n1 - 1] == '\r' then n1 - 1 else n1;
    l[..n]
  }

  /**
   * What was stripped is a line ending, the rest is a prefix, and nothing
   * was stripped only when the line does not end in '\n' or '\r'.
   */
  lemma {:induction false} StripLineEndingSpec(l: string)
    ensures var s := StripLineEnding(l);
      && s == l[..|s|]
      && IsLineEnding(l[|s|..])
      && (|s| == |l| ==> |l| == 0 || (l[|l| - 1] != '\n' && l[|l| - 1] != '\r'))
  {
    var n1 := if |l| > 0 && l[|l| - 1] == '\n' then |l| - 1 else |l|;
    var n := if n1 > 0 && l[n1 - 1] == '\r' then n1 - 1 else n1;
    assert n1 < |l| ==> l[n1..] == "\n";
    assert n < n1 ==> l[n..] == "\r" + l[n1..];
  }

  /**
   * `Buffer::line_text`: the rope line without its '\n' and then without
   * one trailing '\r'.
   */
  function LineText(t: string, r: nat): (s: string)
    requires r < LineCount(t)
    ensures LineStart(t, r) + |s| <= |t|
  {
    StripLineEnding(RopeLine(t, r))
  }

  /** The text of every line, in order. */
  function AllLines(t: string): (r: seq<string>)
    ensures |r| == LineCount(t)
  {
    seq(LineCount(t), i requires 0 <= i < LineCount(t) => LineText(t, i))
  }

  /**
   * The line text is the rope line up to a line ending ("", "\n", "\r" or
   * "\r\n"), holds no '\n', and is the slice of the text at the line's start.
   */
  lemma {:induction false} LineTextSpec(t: string, r: nat)
    requires r < LineCount(t)
    ensures var l, s := RopeLine(t, r), LineText(t, r);
      && |s| <= |l| && s == l[..|s|]
      && '\n' !in s
      && IsLineEnding(l[|s|..])
      && s == t[LineStart(t, r)..LineStart(t, r) + |s|]
  {
    var l := RopeLine(t, r);
    var s := StripLineEnding(l);
    StripLineEndingSpec(l);
    RopeLineNewlines(t, r);
    NoNewlineInPrefix(l, s);
    LineTextSlice(t, r);
  }

  /** The line text is the slice of the text at the line's start. */
  lemma {:induction false} LineTextSlice(t: string, r: nat)
    requires r < LineCount(t)
    ensures LineText(t, r) == t[LineStart(t, r)..LineStart(t, r) + |LineText(t, r)|]
  {
    RopeLineSlice(t, r);
    SlicePrefix(t, LineStart(t, r), |RopeLine(t, r)|, |LineText(t, r)|);
  }

  lemma {:induction false} NoNewlineInPrefix(l: string, s: string)
    requires |s| <= |l| && s == l[..|s|]
    requires forall j :: 0 <= j < |l| - 1 ==> l[j] != '\n'
    requires |s| == |l| ==> |l| == 0 || l[|l| - 1] != '\n'
    ensures '\n' !in s
  {
    forall j | 0 <= j < |s|
      ensures s[j] != '\n'
    {
      assert s[j] == l[j];
    }
  }

  lemma {:induction false} SlicePrefix(t: string, a: nat, n: nat, m: nat)
    requires a + n <= |t| && m <= n
    ensures t[a..a + n][..m] == t[a..a + m]
  {
  }

  /** The text of a line that is not the last ends before the next line starts. */
  lemma {:induction false} LineTextBeforeNext(t: string, r: nat)
    requires r + 1 < LineCount(t)
    ensures LineStart(t, r) + |LineText(t, r)| < LineStart(t, r + 1)
  {
    RopeLineNewlines(t, r);
    LineTextSpec(t, r);
    LineStartLess(t, r, r + 1);
  }

  /** The same, seen from line `s`: the previous line's text ends before `s` starts. */
  lemma {:induction false} LineTextBeforeStart(t: string, s: nat)
    requires 0 < s < LineCount(t)
    ensures LineStart(t, s - 1) + |LineText(t, s - 1)| < LineStart(t, s)
  {
    var r := s - 1;
    LineTextBeforeNext(t, r);
  }

  /** In bytes, the previous line's text ends before the newline that ends it. */
  lemma {:induction false} LineTextEndByte(t: string, s: nat, j: nat)
    requires 0 < s < LineCount(t) && j + 1 == LineStart(t, s)
    ensures LineStart(t, s - 1) <= j
    ensures LineStartByte(t, s - 1) + ByteLen(LineText(t, s - 1)) <= ByteLen(t[..j])
  {
    var r := s - 1;
    var a, l := LineStart(t, r), LineText(t, r);
    LineTextBeforeStart(t, s);
    LineTextSlice(t, r);
    TakeSlice(t, j, a, a + |l|);
    PrefixByteLen(t[..j], a, l);
  }


  /** `Rope::line_to_byte`: the byte offset of the start of line r. */
  function LineStartByte(t: string, r: nat): (b: nat)
    requires r < LineCount(t)
    ensures b <= ByteLen(t)
  {
    var k := LineStart(t, r);
    assert t == t[..k] + t[k..];
    ByteLenAppend(t[..k], t[k..]);
    ByteLen(t[..k])
  }

  /**
   * The character index for byte offset `b`: the first index whose byte
   * prefix reaches `b`. On a character boundary that is the exact index;
   * inside a character it is the index just past that character.
   */
  function CharIndexAt(t: string, b: nat): (k: nat)
    requires b <= ByteLen(t)
    ensures k <= |t| && ByteLen(t[..k]) >= b
    ensures k > 0 ==> ByteLen(t[..k - 1]) < b
  {
    CharIndexFrom(t, b, 0)
  }

  /** The search behind `CharIndexAt`, from index `i` upwards. */
  function CharIndexFrom(t: string, b: nat, i: nat): (k: nat)
    requires b <= ByteLen(t) && i <= |t|
    requires i > 0 ==> ByteLen(t[..i - 1]) < b
    ensures i <= k <= |t| && ByteLen(t[..k]) >= b
    ensures k > 0 ==> ByteLen(t[..k - 1]) < b
    decreases |t| - i
  {
    TakeAll(t);
    if i == |t| || ByteLen(t[..i]) >= b then i else CharIndexFrom(t, b, i + 1)
  }

  /** Byte lengths of prefixes grow strictly with the prefix. */
  lemma {:induction false} ByteLenPrefixLess(t: string, i: nat, j: nat)
    requires i < j <= |t|
    ensures ByteLen(t[..i]) < ByteLen(t[..j])
  {
    assert t[..j] == t[..i] + t[i..j];
    ByteLenAppend(t[..i], t[i..j]);
  }

  /** On a character boundary the index is exact. */
  lemma {:induction false} CharIndexAtBoundary(t: string, j: nat)
    requires j <= |t|
    ensures ByteLen(t[..j]) <= ByteLen(t)
    ensures CharIndexAt(t, ByteLen(t[..j])) == j
  {
    ByteLenPrefixLe(t, j, |t|);
    assert t[..|t|] == t;
    var b := ByteLen(t[..j]);
    var k := CharIndexAt(t, b);
    if k < j {
      ByteLenPrefixLess(t, k, j);
    } else if j < k {
      ByteLenPrefixLe(t, j, k - 1);
    }
  }

  lemma {:induction false} ByteLenPrefixLe(t: string, i: nat, j: nat)
    requires i <= j <= |t|
    ensures ByteLen(t[..i]) <= ByteLen(t[..j])
  {
    if i < j {
      ByteLenPrefixLess(t, i, j);
    }
  }

  /** A byte offset at or past line r's start maps at or past its first character. */
  lemma {:induction false} CharIndexAtLineStart(t: string, r: nat, b: nat)
    requires r < LineCount(t) && LineStartByte(t, r) <= b <= ByteLen(t)
    ensures LineStart(t, r) <= CharIndexAt(t, b)
    ensures b > LineStartByte(t, r) ==> LineStart(t, r) < CharIndexAt(t, b)
  {
    var k := CharIndexAt(t, b);
    var s := LineStart(t, r);
    if k < s {
      ByteLenPrefixLess(t, k, s);
    }
  }
}
