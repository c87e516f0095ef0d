/**
 * String helpers shared by the editor model. A Rust `String` is modelled as
 * a sequence of Unicode scalar values; byte lengths, where the source uses
 * them, are recovered with `ByteLen`.
 */
module Text {

  /** Unicode White_Space: the set Rust's `char::is_whitespace` (and so `trim`) uses. */
  predicate IsWhitespace(c: char) {
    ('\t' <= c <= '\r') || c == ' ' || c == '\U{85}' || c == '\U{A0}' || c == '\U{1680}'
    || ('\U{2000}' <= c <= '\U{200A}') || c == '\U{2028}' || c == '\U{2029}'
    || c == '\U{202F}' || c == '\U{205F}' || c == '\U{3000}'
  }

  /** Number of whitespace characters at the start of `s`. */
  function LeadingSpace(s: string): (n: nat)
    ensures n <= |s|
    ensures forall i :: 0 <= i < n ==> IsWhitespace(s[i])
    ensures n < |s| ==> !IsWhitespace(s[n])
  {
    if s == [] || !IsWhitespace(s[0]) then 0 else 1 + LeadingSpace(s[1..])
  }

  /** Number of whitespace characters at the end of `s`. */
  function TrailingSpace(s: string): (n: nat)
    ensures n <= |s|
    ensures forall i :: |s| - n <= i < |s| ==> IsWhitespace(s[i])
    ensures n < |s| ==> !IsWhitespace(s[|s| - n - 1])
  {
    if s == [] || !IsWhitespace(s[|s| - 1]) then 0 else 1 + TrailingSpace(s[..|s| - 1])
  }

  /** `str::trim_start`. */
  function TrimStart(s: string): (r: string)
    ensures |r| <= |s| && r == s[|s| - |r|..]
    ensures r != [] ==> !IsWhitespace(r[0])
    ensures forall i :: 0 <= i < |s| - |r| ==> IsWhitespace(s[i])
  {
    s[LeadingSpace(s)..]
  }

  /** `str::trim_end`. */
  function TrimEnd(s: string): (r: string)
    ensures |r| <= |s| && r == s[..|r|]
    ensures r != [] ==> !IsWhitespace(r[|r| - 1])
    ensures forall i :: |r| <= i < |s| ==> IsWhitespace(s[i])
  {
    s[..|s| - TrailingSpace(s)]
  }

  /** `str::trim`: both ends. */
  function Trim(s: string): (r: string)
    ensures |r| <= |s|
    ensures r != [] ==> !IsWhitespace(r[0]) && !IsWhitespace(r[|r| - 1])
  {
    TrimEnd(TrimStart(s))
  }

  /** Trimming a string that contains no whitespace at all leaves it as it is. */
  lemma {:induction false} TrimNoSpace(s: string)
    requires forall i :: 0 <= i < |s| ==> !IsWhitespace(s[i])
    ensures Trim(s) == s
  {
    assert LeadingSpace(s) == 0;
    assert TrimStart(s) == s;
  }

  /** Every character of `Trim(s)` is a character of `s`. */
  lemma {:induction false} TrimSubset(s: string, c: char)
    requires c in Trim(s)
    ensures c in s
  {
    var t := TrimStart(s);
    assert c in t;
    assert t == s[|s| - |t|..];
  }

  predicate StartsWith(s: string, p: string) {
    |p| <= |s| && s[..|p|] == p
  }

  predicate EndsWith(s: string, p: string) {
    |p| <= |s| && s[|s| - |p|..] == p
  }

  /** `needle` occurs in `hay` at position `i`. */
  predicate OccursAt(hay: string, needle: string, i: int) {
    0 <= i && i + |needle| <= |hay| && hay[i..i + |needle|] == needle
  }

  /** `str::contains` with a string pattern. */
  predicate Contains(hay: string, needle: string) {
    exists i :: 0 <= i <= |hay| - |needle| && OccursAt(hay, needle, i)
  }

  /** ASCII lower-casing of one character. */
  function Lower(c: char): char {
    if 'A' <= c <= 'Z' then (c as int + 32) as char else c
  }

  function ToLower(s: string): (r: string)
    ensures |r| == |s|
    ensures forall i :: 0 <= i < |s| ==> r[i] == Lower(s[i])
  {
    seq(|s|, i requires 0 <= i < |s| => Lower(s[i]))
  }

  /** `str::eq_ignore_ascii_case`. */
  predicate EqIgnoreCase(a: string, b: string) {
    ToLower(a) == ToLower(b)
  }

  /** Rust's `Ord` on strings: lexicographic on code points (equal to byte order on UTF-8). */
  predicate LexLe(a: string, b: string) {
    if a == [] then true
    else if b == [] then false
    else if a[0] != b[0] then a[0] < b[0]
    else LexLe(a[1..], b[1..])
  }

  lemma {:induction false} LexLeTotal(a: string, b: string)
    ensures LexLe(a, b) || LexLe(b, a)
  {
    if a != [] && b != [] && a[0] == b[0] {
      LexLeTotal(a[1..], b[1..]);
    }
  }

  lemma {:induction false} LexLeTrans(a: string, b: string, c: string)
    requires LexLe(a, b) && LexLe(b, c)
    ensures LexLe(a, c)
  {
    if a != [] && b != [] && c != [] && a[0] == b[0] && b[0] == c[0] {
      LexLeTrans(a[1..], b[1..], c[1..]);
    }
  }

  lemma {:induction false} LexLeAntisym(a: string, b: string)
    requires LexLe(a, b) && LexLe(b, a)
    ensures a == b
  {
    if a != [] && b != [] {
      LexLeAntisym(a[1..], b[1..]);
      assert a == [a[0]] + a[1..];
      assert b == [b[0]] + b[1..];
    }
  }

  /** Length of the UTF-8 encoding of one scalar value (`char::len_utf8`). */
  function Utf8Len(c: char): (n: nat)
    ensures 1 <= n <= 4
    ensures n == 1 <==> c as int < 0x80
  {
    if c as int < 0x80 then 1
    else if c as int < 0x800 then 2
    else if c as int < 0x10000 then 3
    else 4
  }

  /** Length in bytes of the UTF-8 encoding of `s` (`str::len`). */
  function ByteLen(s: string): nat
  {
    if |s| == 0 then 0 else ByteLen(s[..|s| - 1]) + Utf8Len(s[|s| - 1])
  }

  /** Every character takes one to four bytes. */
  lemma {:induction false} ByteLenBounds(s: string)
    ensures |s| <= ByteLen(s) <= 4 * |s|
  {
    if |s| > 0 {
      ByteLenBounds(s[..|s| - 1]);
    }
  }

  lemma {:induction false} ByteLenAppend(a: string, b: string)
    ensures ByteLen(a + b) == ByteLen(a) + ByteLen(b)
    decreases |b|
  {
    if |b| == 0 {
      assert a + b == a;
    } else {
      assert (a + b)[..|a + b| - 1] == a + b[..|b| - 1];
      ByteLenAppend(a, b[..|b| - 1]);
    }
  }

  /** The whole string is its own longest prefix. */
  lemma {:induction false} TakeAll(s: string)
    ensures s[..|s|] == s
  {
  }

  /** Splitting at `k` and concatenating gives back the string. */
  lemma {:induction false} TakeDrop(s: string, k: nat)
    requires k <= |s|
    ensures s[..k] + s[k..] == s
  {
  }

  /** The string is the part before `k - 1`, the character at `k - 1` and the part from `k` on. */
  lemma {:induction false} SplitBefore(s: string, k: nat)
    requires 0 < k <= |s|
    ensures s == s[..k - 1] + [s[k - 1]] + s[k..]
  {
  }

  /** Two strings that agree up to `k` agree on every slice that ends by `k`. */
  lemma {:induction false} CommonSlice(t: string, u: string, k: nat, i: nat, j: nat)
    requires i <= j <= k <= |t| && k <= |u| && u[..k] == t[..k]
    ensures u[..j] == t[..j] && u[i..j] == t[i..j]
  {
    assert u[..j] == u[..k][..j];
    assert u[i..j] == u[..k][i..j];
  }

  /** Cutting after `j` and appending keeps the first `j` characters. */
  lemma {:induction false} EditPrefix(t: string, j: nat, b: string)
    requires j <= |t|
    ensures (t[..j] + b)[..j] == t[..j]
  {
  }

  /** The bytes of a prefix one character longer. */
  lemma {:induction false} ByteLenTakeLast(s: string, k: nat)
    requires 0 < k <= |s|
    ensures ByteLen(s[..k]) == ByteLen(s[..k - 1]) + Utf8Len(s[k - 1])
  {
    assert s[..k][..k - 1] == s[..k - 1];
  }

  /** A sequence with one character in the middle: its bytes plus those around it. */
  lemma {:induction false} ByteLenInsert(a: string, c: char, b: string)
    ensures ByteLen(a + [c] + b) == ByteLen(a) + Utf8Len(c) + ByteLen(b)
  {
    ByteLenAppend(a + [c], b);
    ByteLenAppend(a, [c]);
    assert [c][..0] == [];
  }

  /** A slice starting at `s` bounds the byte length of the whole. */
  lemma {:induction false} PrefixByteLen(u: string, s: nat, l: string)
    requires s + |l| <= |u| && u[s..s + |l|] == l
    ensures ByteLen(u[..s]) + ByteLen(l) <= ByteLen(u)
  {
    assert u[..s + |l|] == u[..s] + l;
    ByteLenAppend(u[..s], l);
    TakeDrop(u, s + |l|);
    ByteLenAppend(u[..s + |l|], u[s + |l|..]);
  }

  /** A string that starts with the first `j` characters of `t` has at least their bytes. */
  lemma {:induction false} ByteLenCommonPrefix(t: string, u: string, j: nat)
    requires j <= |t| && j <= |u| && u[..j] == t[..j]
    ensures ByteLen(t[..j]) <= ByteLen(u)
  {
    TakeDrop(u, j);
    ByteLenAppend(u[..j], u[j..]);
  }

  /** Slices of a prefix are slices of the whole. */
  lemma {:induction false} TakeSlice(t: string, j: nat, a: nat, b: nat)
    requires a <= b <= j <= |t|
    ensures t[..j][a..b] == t[a..b] && t[..j][..a] == t[..a]
  {
  }

  /** On ASCII text a byte count and a character count agree. */
  lemma {:induction false} ByteLenAscii(s: string)
    requires forall i :: 0 <= i < |s| ==> s[i] as int < 0x80
    ensures ByteLen(s) == |s|
  {
    if |s| > 0 {
      ByteLenAscii(s[..|s| - 1]);
    }
  }

  /** Joins the parts with `sep` between consecutive parts (`[T]::join`). */
  function Join(parts: seq<string>, sep: string): string {
    if |parts| == 0 then ""
    else if |parts| == 1 then parts[0]
    else parts[0] + sep + Join(parts[1..], sep)
  }

  /** Index of the first occurrence of `c` in `s`. */
  function IndexOf(s: string, c: char): (i: nat)
    requires c in s
    ensures i < |s| && s[i] == c && c !in s[..i]
  {
    if s[0] == c then 0 else 1 + IndexOf(s[1..], c)
  }

  /** `str::split` on one character: the pieces between occurrences of `c`. */
  function Split(s: string, c: char): (r: seq<string>)
    ensures |r| >= 1
    ensures forall i :: 0 <= i < |r| ==> c !in r[i]
    decreases |s|
  {
    if c !in s then [s]
    else
      var i := IndexOf(s, c);
      [s[..i]] + Split(s[i + 1..], c)
  }

  /** Joining the pieces of a split with the separator restores the string. */
  lemma {:induction false} JoinSplit(s: string, c: char)
    ensures Join(Split(s, c), [c]) == s
    decreases |s|
  {
    if c in s {
      var i := IndexOf(s, c);
      var rest := s[i + 1..];
      JoinSplit(rest, c);
      SplitAtFirst(s, c);
      JoinCons(s[..i], Split(rest, c), [c]);
      assert s == s[..i] + [c] + rest;
    }
  }

  /** Joining a non-empty tail after a first piece puts the separator between them. */
  lemma JoinCons(x: string, r: seq<string>, sep: string)
    requires |r| >= 1
    ensures Join([x] + r, sep) == x + sep + Join(r, sep)
  {
    assert ([x] + r)[1..] == r;
  }

  /** The first `c` in `a` is the first in anything `a` starts. */
  lemma {:induction false} IndexOfPrefix(a: string, t: string, c: char)
    requires c in a
    ensures c in a + t && IndexOf(a + t, c) == IndexOf(a, c)
    decreases |a|
  {
    assert (a + t)[0] == a[0];
    if a[0] != c {
      assert (a + t)[1..] == a[1..] + t;
      assert c in a[1..];
      IndexOfPrefix(a[1..], t, c);
    }
  }

  /** With no `c` in `a`, the first `c` of `a + [c] + b` is the one after `a`. */
  lemma {:induction false} IndexOfAfter(a: string, b: string, c: char)
    requires c !in a
    ensures c in a + [c] + b && IndexOf(a + [c] + b, c) == |a|
    decreases |a|
  {
    var s := a + [c] + b;
    assert s[|a|] == c;
    if a != [] {
      assert s[0] == a[0] && s[1..] == a[1..] + [c] + b;
      IndexOfAfter(a[1..], b, c);
    }
  }

  /** With no `c` in `a`, the first piece of `a + [c] + b` is `a` itself. */
  lemma SplitAtSeparator(a: string, b: string, c: char)
    requires c !in a
    ensures Split(a + [c] + b, c) == [a] + Split(b, c)
  {
    var s := a + [c] + b;
    IndexOfAfter(a, b, c);
    assert s[..|a|] == a && s[|a| + 1..] == b;
  }

  /** The first piece of `a + [c] + b` is the first piece of `a` when `a` holds `c`. */
  lemma SplitBeforeSeparator(a: string, b: string, c: char)
    requires c in a
    ensures var i := IndexOf(a, c);
      Split(a + [c] + b, c) == [a[..i]] + Split(a[i + 1..] + [c] + b, c)
  {
    var s := a + [c] + b;
    var i := IndexOf(a, c);
    IndexOfPrefix(a, [c] + b, c);
    assert a + ([c] + b) == s;
    SplitAtFirst(s, c);
    assert s[..i] == a[..i];
    assert s[i + 1..] == a[i + 1..] + [c] + b;
  }

  /** Sequence concatenation is associative (a named step for long chains). */
  lemma ConcatAssoc<T>(x: seq<T>, y: seq<T>, z: seq<T>)
    ensures x + (y + z) == (x + y) + z
  {
  }

  /** A string holding `c` splits into the text before its first `c` and the split of the rest. */
  lemma SplitAtFirst(a: string, c: char)
    requires c in a
    ensures var i := IndexOf(a, c);
      i < |a| && Split(a, c) == [a[..i]] + Split(a[i + 1..], c)
  {
  }

  /** The inductive step of SplitConcat: the first piece of `a` comes first. */
  lemma SplitConcatStep(a: string, b: string, c: char)
    requires c in a
    requires var rest := a[IndexOf(a, c) + 1..];
      Split(rest + [c] + b, c) == Split(rest, c) + Split(b, c)
    ensures Split(a + [c] + b, c) == Split(a, c) + Split(b, c)
  {
    var i := IndexOf(a, c);
    var rest := a[i + 1..];
    var head := [a[..i]];
    var pieces, tail := Split(rest, c), Split(b, c);
    SplitAtFirst(a, c);
    SplitBeforeSeparator(a, b, c);
    ConcatAssoc(head, pieces, tail);
  }

  /** Splitting at a separator placed between two strings splits each of them. */
  lemma {:induction false} SplitConcat(a: string, b: string, c: char)
    ensures Split(a + [c] + b, c) == Split(a, c) + Split(b, c)
    decreases |a|
  {
    if c !in a {
      SplitAtSeparator(a, b, c);
    } else {
      SplitConcat(a[IndexOf(a, c) + 1..], b, c);
      SplitConcatStep(a, b, c);
    }
  }

  /** Number of occurrences of `c` in `s`. */
  function Count(s: string, c: char): nat {
    if |s| == 0 then 0 else Count(s[..|s| - 1], c) + (if s[|s| - 1] == c then 1 else 0)
  }

  lemma {:induction false} CountAppend(a: string, b: string, c: char)
    ensures Count(a + b, c) == Count(a, c) + Count(b, c)
    decreases |b|
  {
    if b == [] {
      assert a + b == a;
    } else {
      assert (a + b)[..|a + b| - 1] == a + b[..|b| - 1];
      CountAppend(a, b[..|b| - 1], c);
    }
  }

  /** One character in the middle adds one to the count exactly when it is `c`. */
  lemma {:induction false} CountInsert(a: string, x: char, b: string, c: char)
    ensures Count(a + [x] + b, c) == Count(a, c) + Count(b, c) + (if x == c then 1 else 0)
  {
    CountAppend(a + [x], b, c);
    CountAppend(a, [x], c);
    assert [x][..0] == [];
  }

  /** `c` occurs in `s` exactly when its count is positive. */
  lemma {:induction false} CountPositive(s: string, c: char)
    ensures Count(s, c) > 0 <==> c in s
  {
    if s != [] {
      CountPositive(s[..|s| - 1], c);
      assert s == s[..|s| - 1] + [s[|s| - 1]];
    }
  }
}
