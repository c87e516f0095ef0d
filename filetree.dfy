/**
 * The sidebar's file tree: a directory listing flattened into rows, with
 * directories opened and closed by the user, and the rules that turn the
 * text typed at the "new note" prompt into a path.
 *
 * The file system is a parameter: a snapshot of the vault directory as a
 * tree of `Entry` values, in the order the directory walk yields them.
 */
module FileTrees {
  import opened Wrappers
  import opened Text
  import opened Paths
  import opened Sorting
  import Finder

  /** One entry of a directory listing; `children` is what a directory holds. */
  datatype Entry = Entry(name: string, isDir: bool, children: seq<Entry>)

  /** One visible row of the tree. */
  datatype FileNode = FileNode(path: Path, name: string, depth: nat, isDir: bool)

  /** The sort order within one directory: directories first, then names compared lower-cased. */
  predicate EntryLe(a: Entry, b: Entry) {
    if a.isDir != b.isDir then a.isDir
    else LexLe(ToLower(a.name), ToLower(b.name))
  }

  lemma EntryLeTotalPreorder()
    ensures TotalPreorder(EntryLe)
  {
    forall a: Entry, b: Entry ensures EntryLe(a, b) || EntryLe(b, a) {
      LexLeTotal(ToLower(a.name), ToLower(b.name));
    }
    forall a: Entry, b: Entry, c: Entry | EntryLe(a, b) && EntryLe(b, c) ensures EntryLe(a, c) {
      if a.isDir == b.isDir && b.isDir == c.isDir {
        LexLeTrans(ToLower(a.name), ToLower(b.name), ToLower(c.name));
      }
    }
  }

  /**
   * A directory's entries in display order: a permutation of the listing in
   * which no file precedes a directory, and each group is ordered by its
   * lower-cased names.
   */
  lemma SortedEntries(entries: seq<Entry>)
    ensures multiset(SortBy(entries, EntryLe)) == multiset(entries)
    ensures var s := SortBy(entries, EntryLe);
      forall i, j :: 0 <= i < j < |s| ==>
        (s[j].isDir ==> s[i].isDir) &&
        (s[i].isDir == s[j].isDir ==> LexLe(ToLower(s[i].name), ToLower(s[j].name)))
  {
    EntryLeTotalPreorder();
    SortBySorted(entries, EntryLe);
  }

  /** Every element of a permutation of `entries` is one of `entries`. */
  lemma SortedMembers(entries: seq<Entry>, sorted: seq<Entry>)
    requires multiset(sorted) == multiset(entries)
    ensures forall e :: e in sorted ==> e in entries
  {
    forall e | e in sorted ensures e in entries {
      assert e in multiset(sorted);
    }
  }

  /** The row an entry of `dir` gets at `depth`. */
  function NodeOf(dir: Path, e: Entry, depth: nat): FileNode {
    FileNode(dir + [e.name], e.name, depth, e.isDir)
  }

  /**
   * The rows that listing `dir` at `depth` yields: its entries in display
   * order, each followed by its own listing when it is an expanded directory.
   */
  function Listing(dir: Path, entries: seq<Entry>, depth: nat, expanded: set<Path>): seq<FileNode>
    decreases entries, 2
  {
    var sorted := SortBy(entries, EntryLe);
    SortedMembers(entries, sorted);
    Blocks(dir, sorted, depth, expanded, entries)
  }

  /** The rows of one entry: its own, then those of its listing if it is an expanded directory. */
  function Block(dir: Path, e: Entry, depth: nat, expanded: set<Path>): seq<FileNode>
    decreases e, 3
  {
    [NodeOf(dir, e, depth)] +
    (if e.isDir && dir + [e.name] in expanded then Listing(dir + [e.name], e.children, depth + 1, expanded) else [])
  }

  /** The blocks of `sorted`, one after the other; `parent` holds them all and bounds the recursion. */
  function Blocks(dir: Path, sorted: seq<Entry>, depth: nat, expanded: set<Path>, ghost parent: seq<Entry>): seq<FileNode>
    requires forall e :: e in sorted ==> e in parent
    decreases parent, 1, |sorted|
  {
    if sorted == [] then []
    else
      assert sorted[|sorted| - 1] in parent;
      Blocks(dir, sorted[..|sorted| - 1], depth, expanded, parent) + Block(dir, sorted[|sorted| - 1], depth, expanded)
  }

  /** One more entry adds its block at the end. */
  lemma BlocksStep(dir: Path, sorted: seq<Entry>, depth: nat, expanded: set<Path>, parent: seq<Entry>, i: nat, j: nat)
    requires forall e :: e in sorted ==> e in parent
    requires j == i + 1 && j <= |sorted|
    ensures forall e :: e in sorted[..i] ==> e in parent
    ensures forall e :: e in sorted[..j] ==> e in parent
    ensures Blocks(dir, sorted[..j], depth, expanded, parent) ==
      Blocks(dir, sorted[..i], depth, expanded, parent) + Block(dir, sorted[i], depth, expanded)
  {
    assert sorted[..j][..|sorted[..j]| - 1] == sorted[..i];
  }

  // ---------------------------------------------------------------------------
  // What a listing contains
  // ---------------------------------------------------------------------------

  /**
   * Row `n` belongs under `dir`, listed at `depth`: it is `depth` levels deeper
   * than its distance from `dir`, its path extends `dir`, its name is its last
   * component, and every directory between `dir` and it is expanded.
   */
  ghost predicate Under(n: FileNode, dir: Path, depth: nat, expanded: set<Path>) {
    && n.depth >= depth
    && |n.path| == |dir| + 1 + (n.depth - depth)
    && dir < n.path
    && n.name == n.path[|n.path| - 1]
    && forall m :: |dir| < m < |n.path| ==> n.path[..m] in expanded
  }

  /** A row under an expanded child directory of `dir` is also under `dir`. */
  lemma UnderLift(n: FileNode, dir: Path, name: string, depth: nat, expanded: set<Path>)
    requires dir + [name] in expanded
    requires Under(n, dir + [name], depth + 1, expanded)
    ensures Under(n, dir, depth, expanded)
  {
    var child := dir + [name];
    assert dir < child;
    forall m | |dir| < m < |n.path| ensures n.path[..m] in expanded {
      if m == |child| {
        assert n.path[..m] == child;
      }
    }
  }

  lemma {:induction false} ListingUnder(dir: Path, entries: seq<Entry>, depth: nat, expanded: set<Path>)
    ensures forall n :: n in Listing(dir, entries, depth, expanded) ==> Under(n, dir, depth, expanded)
    decreases entries, 2
  {
    var sorted := SortBy(entries, EntryLe);
    SortedMembers(entries, sorted);
    BlocksUnder(dir, sorted, depth, expanded, entries);
  }

  lemma {:induction false} BlockUnder(dir: Path, e: Entry, depth: nat, expanded: set<Path>)
    ensures forall n :: n in Block(dir, e, depth, expanded) ==> Under(n, dir, depth, expanded)
    decreases e, 3
  {
    var child := dir + [e.name];
    if e.isDir && child in expanded {
      ListingUnder(child, e.children, depth + 1, expanded);
      forall n | n in Listing(child, e.children, depth + 1, expanded) ensures Under(n, dir, depth, expanded) {
        UnderLift(n, dir, e.name, depth, expanded);
      }
    }
    assert dir < child;
  }

  lemma {:induction false} BlocksUnder(dir: Path, sorted: seq<Entry>, depth: nat, expanded: set<Path>, parent: seq<Entry>)
    requires forall e :: e in sorted ==> e in parent
    ensures forall n :: n in Blocks(dir, sorted, depth, expanded, parent) ==> Under(n, dir, depth, expanded)
    decreases parent, 1, |sorted|
  {
    if sorted != [] {
      assert sorted[|sorted| - 1] in parent;
      BlocksUnder(dir, sorted[..|sorted| - 1], depth, expanded, parent);
      BlockUnder(dir, sorted[|sorted| - 1], depth, expanded);
    }
  }

  /** Some directory row of `ns`, one level up, is the directory `n` sits in. */
  ghost predicate HasParentRow(ns: seq<FileNode>, n: FileNode) {
    exists m :: m in ns && m.isDir && m.depth + 1 == n.depth && m.path + [n.name] == n.path
  }

  /** Every row deeper than the listing's own level has its directory's row in the listing. */
  lemma {:induction false} ListingParents(dir: Path, entries: seq<Entry>, depth: nat, expanded: set<Path>)
    ensures var rows := Listing(dir, entries, depth, expanded);
      forall n :: n in rows && n.depth > depth ==> HasParentRow(rows, n)
    decreases entries, 2
  {
    var sorted := SortBy(entries, EntryLe);
    SortedMembers(entries, sorted);
    BlocksParents(dir, sorted, depth, expanded, entries);
  }

  lemma {:induction false} BlockParents(dir: Path, e: Entry, depth: nat, expanded: set<Path>)
    ensures var rows := Block(dir, e, depth, expanded);
      forall n :: n in rows && n.depth > depth ==> HasParentRow(rows, n)
    decreases e, 3
  {
    var child := dir + [e.name];
    var rows := Block(dir, e, depth, expanded);
    if e.isDir && child in expanded {
      var sub := Listing(child, e.children, depth + 1, expanded);
      var row := NodeOf(dir, e, depth);
      assert rows == [row] + sub;
      ListingParents(child, e.children, depth + 1, expanded);
      ListingUnder(child, e.children, depth + 1, expanded);
      forall n | n in rows && n.depth > depth ensures HasParentRow(rows, n) {
        assert n in sub;
        if n.depth == depth + 1 {
          assert n.path == child + [n.name];
          assert row in rows;
        } else {
          var m :| m in sub && m.isDir && m.depth + 1 == n.depth && m.path + [n.name] == n.path;
          assert m in rows;
        }
      }
    }
  }

  lemma {:induction false} BlocksParents(dir: Path, sorted: seq<Entry>, depth: nat, expanded: set<Path>, parent: seq<Entry>)
    requires forall e :: e in sorted ==> e in parent
    ensures var rows := Blocks(dir, sorted, depth, expanded, parent);
      forall n :: n in rows && n.depth > depth ==> HasParentRow(rows, n)
    decreases parent, 1, |sorted|
  {
    if sorted != [] {
      var e := sorted[|sorted| - 1];
      assert e in parent;
      var front := Blocks(dir, sorted[..|sorted| - 1], depth, expanded, parent);
      var last := Block(dir, e, depth, expanded);
      var rows := Blocks(dir, sorted, depth, expanded, parent);
      assert rows == front + last;
      BlocksParents(dir, sorted[..|sorted| - 1], depth, expanded, parent);
      BlockParents(dir, e, depth, expanded);
      forall n | n in rows && n.depth > depth ensures HasParentRow(rows, n) {
        if n in front {
          var m :| m in front && m.isDir && m.depth + 1 == n.depth && m.path + [n.name] == n.path;
          assert m in rows;
        } else {
          var m :| m in last && m.isDir && m.depth + 1 == n.depth && m.path + [n.name] == n.path;
          assert m in rows;
        }
      }
    }
  }

  /** `a` occurs as a contiguous run inside `b`. */
  ghost predicate Infix<T>(a: seq<T>, b: seq<T>) {
    exists k :: InfixAt(a, b, k)
  }

  /** `a` occurs inside `b` starting at position `k`. */
  ghost predicate InfixAt<T>(a: seq<T>, b: seq<T>, k: int) {
    0 <= k <= |b| - |a| && b[k..k + |a|] == a
  }

  lemma InfixLeft<T>(a: seq<T>, b: seq<T>, c: seq<T>)
    requires Infix(a, b)
    ensures Infix(a, b + c)
  {
    var k :| InfixAt(a, b, k);
    assert (b + c)[k..k + |a|] == a;
    assert InfixAt(a, b + c, k);
  }

  lemma BlocksHold(dir: Path, sorted: seq<Entry>, depth: nat, expanded: set<Path>, parent: seq<Entry>, i: nat)
    requires forall e :: e in sorted ==> e in parent
    requires i < |sorted|
    ensures Infix(Block(dir, sorted[i], depth, expanded), Blocks(dir, sorted, depth, expanded, parent))
    decreases |sorted|
  {
    var init := sorted[..|sorted| - 1];
    var front := Blocks(dir, init, depth, expanded, parent);
    var last := Block(dir, sorted[|sorted| - 1], depth, expanded);
    assert Blocks(dir, sorted, depth, expanded, parent) == front + last;
    if i == |sorted| - 1 {
      assert (front + last)[|front|..|front| + |last|] == last;
      assert InfixAt(last, front + last, |front|);
    } else {
      assert init[i] == sorted[i];
      BlocksHold(dir, init, depth, expanded, parent, i);
      InfixLeft(Block(dir, sorted[i], depth, expanded), front, last);
    }
  }

  /**
   * Every entry of the directory is listed, and an expanded directory's row
   * is immediately followed by the rows of its own listing, one level deeper.
   */
  lemma ListingShowsEntry(dir: Path, entries: seq<Entry>, depth: nat, expanded: set<Path>, e: Entry)
    requires e in entries
    ensures Infix(Block(dir, e, depth, expanded), Listing(dir, entries, depth, expanded))
  {
    var sorted := SortBy(entries, EntryLe);
    SortedMembers(entries, sorted);
    assert e in multiset(entries);
    var i :| 0 <= i < |sorted| && sorted[i] == e;
    BlocksHold(dir, sorted, depth, expanded, entries, i);
  }

  // ---------------------------------------------------------------------------
  // Sibling order
  // ---------------------------------------------------------------------------

  /** The rows of `ns` at exactly `depth`, in order. */
  function AtDepth(ns: seq<FileNode>, depth: nat): (r: seq<FileNode>)
    ensures forall n :: n in r <==> n in ns && n.depth == depth
  {
    if ns == [] then []
    else AtDepth(ns[..|ns| - 1], depth) + (if ns[|ns| - 1].depth == depth then [ns[|ns| - 1]] else [])
  }

  lemma {:induction false} AtDepthAppend(a: seq<FileNode>, b: seq<FileNode>, depth: nat)
    ensures AtDepth(a + b, depth) == AtDepth(a, depth) + AtDepth(b, depth)
    decreases |b|
  {
    if b != [] {
      var init, last := b[..|b| - 1], b[|b| - 1];
      var tail := if last.depth == depth then [last] else [];
      assert (a + b)[..|a + b| - 1] == a + init;
      assert (a + b)[|a + b| - 1] == last;
      AtDepthAppend(a, init, depth);
      calc {
        AtDepth(a + b, depth);
        AtDepth(a + init, depth) + tail;
        (AtDepth(a, depth) + AtDepth(init, depth)) + tail;
        AtDepth(a, depth) + (AtDepth(init, depth) + tail);
        AtDepth(a, depth) + AtDepth(b, depth);
      }
    } else {
      assert a + b == a;
    }
  }

  /** The rows of the entries themselves, in the given order. */
  function Rows(dir: Path, sorted: seq<Entry>, depth: nat): (r: seq<FileNode>)
    ensures |r| == |sorted|
    ensures forall i :: 0 <= i < |sorted| ==> r[i] == NodeOf(dir, sorted[i], depth)
  {
    if sorted == [] then [] else Rows(dir, sorted[..|sorted| - 1], depth) + [NodeOf(dir, sorted[|sorted| - 1], depth)]
  }

  lemma {:induction false} AtDepthDeeper(ns: seq<FileNode>, depth: nat)
    requires forall n :: n in ns ==> n.depth > depth
    ensures AtDepth(ns, depth) == []
  {
    if ns != [] {
      AtDepthDeeper(ns[..|ns| - 1], depth);
    }
  }

  /** Of one entry's block, only the entry's own row sits at its depth. */
  lemma BlockTop(dir: Path, e: Entry, depth: nat, expanded: set<Path>)
    ensures AtDepth(Block(dir, e, depth, expanded), depth) == [NodeOf(dir, e, depth)]
  {
    var child := dir + [e.name];
    var sub := if e.isDir && child in expanded then Listing(child, e.children, depth + 1, expanded) else [];
    AtDepthAppend([NodeOf(dir, e, depth)], sub, depth);
    if e.isDir && child in expanded {
      ListingUnder(child, e.children, depth + 1, expanded);
    }
    AtDepthDeeper(sub, depth);
    assert AtDepth([NodeOf(dir, e, depth)], depth) == [NodeOf(dir, e, depth)];
  }

  lemma {:induction false} BlocksTop(dir: Path, sorted: seq<Entry>, depth: nat, expanded: set<Path>, parent: seq<Entry>)
    requires forall e :: e in sorted ==> e in parent
    ensures AtDepth(Blocks(dir, sorted, depth, expanded, parent), depth) == Rows(dir, sorted, depth)
    decreases |sorted|
  {
    if sorted != [] {
      var e := sorted[|sorted| - 1];
      BlocksTop(dir, sorted[..|sorted| - 1], depth, expanded, parent);
      AtDepthAppend(Blocks(dir, sorted[..|sorted| - 1], depth, expanded, parent), Block(dir, e, depth, expanded), depth);
      BlockTop(dir, e, depth, expanded);
    }
  }

  /**
   * The rows a directory contributes at its own depth are its entries in
   * display order: directories before files, each group by lower-cased name,
   * and no entry left out or repeated.
   */
  lemma ListingSiblings(dir: Path, entries: seq<Entry>, depth: nat, expanded: set<Path>)
    ensures var top := AtDepth(Listing(dir, entries, depth, expanded), depth);
      && |top| == |entries|
      && (forall e :: e in entries ==> NodeOf(dir, e, depth) in top)
      && (forall i, j :: 0 <= i < j < |top| ==>
           (top[j].isDir ==> top[i].isDir) &&
           (top[i].isDir == top[j].isDir ==> LexLe(ToLower(top[i].name), ToLower(top[j].name))))
  {
    var sorted := SortBy(entries, EntryLe);
    SortedMembers(entries, sorted);
    BlocksTop(dir, sorted, depth, expanded, entries);
    SortedEntries(entries);
    forall e | e in entries ensures NodeOf(dir, e, depth) in Rows(dir, sorted, depth) {
      assert e in multiset(sorted);
      var i :| 0 <= i < |sorted| && sorted[i] == e;
    }
  }

  // ---------------------------------------------------------------------------
  // Files under a directory
  // ---------------------------------------------------------------------------

  /** Every file below `dir`, expanded or not, in walk order. */
  function AllFilePaths(dir: Path, entries: seq<Entry>): (r: seq<Path>)
    ensures forall p :: p in r ==> dir < p
    decreases entries
  {
    if entries == [] then []
    else
      var e := entries[|entries| - 1];
      var child := dir + [e.name];
      var here := if e.isDir then AllFilePaths(child, e.children) else [child];
      assert dir < child;
      AllFilePaths(dir, entries[..|entries| - 1]) + here
  }

  lemma {:induction false} FileEntryWalked(dir: Path, entries: seq<Entry>, e: Entry)
    requires e in entries
    ensures !e.isDir ==> dir + [e.name] in AllFilePaths(dir, entries)
    ensures e.isDir ==> forall p :: p in AllFilePaths(dir + [e.name], e.children) ==> p in AllFilePaths(dir, entries)
    decreases |entries|
  {
    if e != entries[|entries| - 1] {
      assert e in entries[..|entries| - 1] by {
        var i :| 0 <= i < |entries| && entries[i] == e;
        assert entries[..|entries| - 1][i] == e;
      }
      FileEntryWalked(dir, entries[..|entries| - 1], e);
    }
  }

  /** Every file row of a listing is one of the files the walk finds. */
  lemma {:induction false} ListedFilesWalked(dir: Path, entries: seq<Entry>, depth: nat, expanded: set<Path>)
    ensures forall n :: n in Listing(dir, entries, depth, expanded) && !n.isDir ==> n.path in AllFilePaths(dir, entries)
    decreases entries, 2
  {
    var sorted := SortBy(entries, EntryLe);
    SortedMembers(entries, sorted);
    BlocksWalked(dir, sorted, depth, expanded, entries);
  }

  lemma {:induction false} BlocksWalked(dir: Path, sorted: seq<Entry>, depth: nat, expanded: set<Path>, parent: seq<Entry>)
    requires forall e :: e in sorted ==> e in parent
    ensures forall n :: n in Blocks(dir, sorted, depth, expanded, parent) && !n.isDir ==> n.path in AllFilePaths(dir, parent)
    decreases parent, 1, |sorted|
  {
    if sorted != [] {
      var e := sorted[|sorted| - 1];
      var child := dir + [e.name];
      assert e in parent;
      BlocksWalked(dir, sorted[..|sorted| - 1], depth, expanded, parent);
      FileEntryWalked(dir, parent, e);
      if e.isDir && child in expanded {
        ListedFilesWalked(child, e.children, depth + 1, expanded);
      }
    }
  }

  // ---------------------------------------------------------------------------
  // Creating notes
  // ---------------------------------------------------------------------------

  /** The path a new note gets: `target`, with `.md` appended when it has no extension. */
  function NoteTarget(target: Path): (r: Path)
    ensures Extension(target).Some? ==> r == target
    ensures Extension(target).None? && FileName(target).Some? && FileName(target).value != "" ==>
      Extension(r) == Some("md") && FileStem(r) == FileStem(target) && Parent(r) == Parent(target)
  {
    if Extension(target).None? then WithExtension(target, "md") else target
  }

  /** The text a freshly created note starts with: a level-one heading naming it. */
  function NewNoteText(p: Path): (r: string)
    ensures |r| >= 4 && StartsWith(r, "# ") && EndsWith(r, "\n\n")
    ensures r[2..|r| - 2] == FileStem(p).GetOr("Untitled")
  {
    "# " + FileStem(p).GetOr("Untitled") + "\n\n"
  }

  /** The first position of a row whose path is `p`. */
  function FindPath(nodes: seq<FileNode>, p: Path): (r: Option<nat>)
    ensures r.Some? ==> r.value < |nodes| && nodes[r.value].path == p &&
                        forall k :: 0 <= k < r.value ==> nodes[k].path != p
    ensures r.None? ==> forall k :: 0 <= k < |nodes| ==> nodes[k].path != p
  {
    if nodes == [] then None
    else if nodes[0].path == p then Some(0)
    else match FindPath(nodes[1..], p)
      case None => None
      case Some(k) => Some(k + 1)
  }

  // ---------------------------------------------------------------------------
  // Creating entries on disk
  // ---------------------------------------------------------------------------

  /** The position of the first entry named `name`, or `|entries|` when none is. */
  function NameIndex(entries: seq<Entry>, name: string): (i: nat)
    ensures i <= |entries|
    ensures i < |entries| ==> entries[i].name == name
    ensures forall j :: 0 <= j < i ==> entries[j].name != name
  {
    if entries == [] then 0
    else if entries[0].name == name then 0
    else 1 + NameIndex(entries[1..], name)
  }

  /** A new entry at `rel`: the missing directories leading to it, then the entry itself. */
  function NewChain(rel: seq<string>, isDir: bool): (e: Entry)
    requires rel != []
    ensures e.name == rel[0]
    ensures |rel| == 1 ==> e.isDir == isDir && e.children == []
    ensures |rel| > 1 ==> e.isDir && e.children == [NewChain(rel[1..], isDir)]
    decreases |rel|
  {
    if |rel| == 1 then Entry(rel[0], isDir, [])
    else Entry(rel[0], true, [NewChain(rel[1..], isDir)])
  }

  /**
   * The listing once the entry at `rel` (names below the listed directory)
   * is created, with every missing directory before it, as `create_dir_all`
   * followed by `write` (or `create_dir_all` alone for a directory) leaves
   * it. An entry already there is kept; a file standing where a directory is
   * needed is kept too (the file system refuses that creation).
   */
  function WithEntry(entries: seq<Entry>, rel: seq<string>, isDir: bool): seq<Entry>
    decreases rel
  {
    if rel == [] then entries
    else
      var i := NameIndex(entries, rel[0]);
      if i == |entries| then entries + [NewChain(rel, isDir)]
      else if |rel| > 1 && entries[i].isDir then
        entries[i := entries[i].(children := WithEntry(entries[i].children, rel[1..], isDir))]
      else entries
  }

  /** No file of `entries` stands where `rel` needs a directory. */
  predicate Creatable(entries: seq<Entry>, rel: seq<string>)
    decreases rel
  {
    |rel| <= 1 ||
    var i := NameIndex(entries, rel[0]);
    i == |entries| || (entries[i].isDir && Creatable(entries[i].children, rel[1..]))
  }

  /** `p` lies strictly below `root`, reached by plain names (no `..` step and no second root). */
  predicate PlainBelow(root: Path, p: Path) {
    && root < p
    && forall c :: c in p[|root|..] ==> c != ".." && c != RootDir
  }

  /** The snapshot `fs` of `root` once `p` is created; a path that does not lie plainly below `root` leaves it as it is. */
  function TreeWith(root: Path, fs: seq<Entry>, p: Path, isDir: bool): seq<Entry> {
    if PlainBelow(root, p) then WithEntry(fs, p[|root|..], isDir) else fs
  }

  /**
   * Creating `p` in `fs` can be seen in the listing of `root`: `p` lies plainly
   * below `root`, every directory between them is expanded, and no file
   * stands in its way.
   */
  ghost predicate Reachable(root: Path, fs: seq<Entry>, p: Path, expanded: set<Path>) {
    && PlainBelow(root, p)
    && (forall m :: |root| < m < |p| ==> p[..m] in expanded)
    && Creatable(fs, p[|root|..])
  }

  /** A member of an infix is a member of the whole. */
  lemma InfixMember<T>(a: seq<T>, b: seq<T>, x: T)
    requires Infix(a, b) && x in a
    ensures x in b
  {
    var k :| InfixAt(a, b, k);
    var j :| 0 <= j < |a| && a[j] == x;
    assert b[k + j] == x;
  }

  /** A row of an entry's block is a row of its directory's listing. */
  lemma BlockListed(dir: Path, entries: seq<Entry>, depth: nat, expanded: set<Path>, e: Entry, n: FileNode)
    requires e in entries && n in Block(dir, e, depth, expanded)
    ensures n in Listing(dir, entries, depth, expanded)
  {
    ListingShowsEntry(dir, entries, depth, expanded, e);
    InfixMember(Block(dir, e, depth, expanded), Listing(dir, entries, depth, expanded), n);
  }

  /** An entry's own row opens its block. */
  lemma OwnRowInBlock(dir: Path, e: Entry, depth: nat, expanded: set<Path>)
    ensures NodeOf(dir, e, depth) in Block(dir, e, depth, expanded)
  {
  }

  /**
   * After creating `rel`, the entry named by its first component is present;
   * when more components follow, it is a directory whose children are some
   * `c` with the rest created.
   */
  lemma CreatedHead(entries: seq<Entry>, rel: seq<string>, isDir: bool) returns (e: Entry, c: seq<Entry>)
    requires rel != [] && Creatable(entries, rel)
    ensures e in WithEntry(entries, rel, isDir) && e.name == rel[0]
    ensures |rel| > 1 ==> e.isDir && Creatable(c, rel[1..]) && e.children == WithEntry(c, rel[1..], isDir)
  {
    var w := WithEntry(entries, rel, isDir);
    var i := NameIndex(entries, rel[0]);
    c := [];
    if i == |entries| {
      e := NewChain(rel, isDir);
      assert w[|entries|] == e;
      if |rel| > 1 {
        assert [] + [NewChain(rel[1..], isDir)] == [NewChain(rel[1..], isDir)];
      }
    } else {
      e := w[i];
      c := entries[i].children;
    }
  }

  /** The rows listed inside an expanded directory belong to its block. */
  lemma InnerRowInBlock(dir: Path, e: Entry, depth: nat, expanded: set<Path>, n: FileNode)
    requires e.isDir && dir + [e.name] in expanded
    requires n in Listing(dir + [e.name], e.children, depth + 1, expanded)
    ensures n in Block(dir, e, depth, expanded)
  {
  }

  /** The directories on the way to `rel[1..]` below `dir + [rel[0]]` are those on the way to `rel` below `dir`. */
  lemma PrefixesExpanded(dir: Path, rel: seq<string>, expanded: set<Path>)
    requires |rel| > 1
    requires forall m :: 0 < m < |rel| ==> dir + rel[..m] in expanded
    ensures dir + [rel[0]] in expanded
    ensures forall m :: 0 < m < |rel[1..]| ==> (dir + [rel[0]]) + rel[1..][..m] in expanded
  {
    assert rel[..1] == [rel[0]];
    forall m | 0 < m < |rel[1..]| ensures (dir + [rel[0]]) + rel[1..][..m] in expanded {
      assert (dir + [rel[0]]) + rel[1..][..m] == dir + rel[..m + 1];
    }
  }

  /** The path of `rel` below `dir` is that of `rel[1..]` below `dir + [rel[0]]`. */
  lemma ConsPath(dir: Path, rel: seq<string>)
    requires rel != []
    ensures (dir + [rel[0]]) + rel[1..] == dir + rel
  {
  }

  /** Once `rel` is created below `dir`, its row `n` is listed when every directory on the way is expanded. */
  lemma {:induction false} CreatedListed(dir: Path, entries: seq<Entry>, rel: seq<string>, isDir: bool,
                                          depth: nat, expanded: set<Path>) returns (n: FileNode)
    requires rel != [] && Creatable(entries, rel)
    requires forall m :: 0 < m < |rel| ==> dir + rel[..m] in expanded
    ensures n in Listing(dir, WithEntry(entries, rel, isDir), depth, expanded) && n.path == dir + rel
    decreases rel
  {
    var e, c := CreatedHead(entries, rel, isDir);
    if |rel| == 1 {
      n := NodeOf(dir, e, depth);
      OwnRowInBlock(dir, e, depth, expanded);
    } else {
      PrefixesExpanded(dir, rel, expanded);
      ConsPath(dir, rel);
      n := CreatedListed(dir + [rel[0]], c, rel[1..], isDir, depth + 1, expanded);
      InnerRowInBlock(dir, e, depth, expanded, n);
    }
    BlockListed(dir, WithEntry(entries, rel, isDir), depth, expanded, e, n);
  }

  /** A reachable created path has a row in the listing of `root` built from the new snapshot. */
  lemma CreatedShown(root: Path, fs: seq<Entry>, p: Path, isDir: bool, expanded: set<Path>)
    requires Reachable(root, fs, p, expanded)
    ensures exists k :: 0 <= k < |Listing(root, TreeWith(root, fs, p, isDir), 0, expanded)| &&
                        Listing(root, TreeWith(root, fs, p, isDir), 0, expanded)[k].path == p
  {
    var rel := p[|root|..];
    forall m | 0 < m < |rel| ensures root + rel[..m] in expanded {
      assert root + rel[..m] == p[..|root| + m];
    }
    var n := CreatedListed(root, fs, rel, isDir, 0, expanded);
    assert root + rel == p;
    var nodes := Listing(root, TreeWith(root, fs, p, isDir), 0, expanded);
    var k :| 0 <= k < |nodes| && nodes[k] == n;
  }

  // ---------------------------------------------------------------------------
  // The tree
  // ---------------------------------------------------------------------------

  class FileTree {
    const root: Path
    var nodes: seq<FileNode>
    var selected: nat
    var expanded: set<Path>
    var createInput: string
    /** The directory snapshot the rows were last built from. */
    ghost var snapshot: seq<Entry>

    ghost predicate Valid()
      reads this
    {
      && root in expanded
      && nodes == Listing(root, snapshot, 0, expanded)
      && (if nodes == [] then selected == 0 else selected < |nodes|)
    }

    /** Opens the tree at `root` with only `root` expanded. */
    constructor (root: Path, fs: seq<Entry>)
      ensures Valid()
      ensures this.root == root && expanded == {root} && createInput == "" && selected == 0
      ensures snapshot == fs && nodes == Listing(root, fs, 0, {root})
    {
      this.root := root;
      nodes := [];
      selected := 0;
      expanded := {root};
      createInput := "";
      snapshot := fs;
      new;
      PushChildren(root, fs, 0);
    }

    /** Rebuilds the rows from `fs` and pulls the selection back into range. */
    method Refresh(fs: seq<Entry>)
      requires root in expanded
      modifies this
      ensures Valid()
      ensures snapshot == fs && nodes == Listing(root, fs, 0, expanded)
      ensures selected == Finder.ClampSelection(old(selected), |nodes|)
      ensures expanded == old(expanded) && createInput == old(createInput)
    {
      nodes := [];
      snapshot := fs;
      PushChildren(root, fs, 0);
      if nodes == [] {
        selected := 0;
      } else if selected >= |nodes| {
        selected := |nodes| - 1;
      }
    }

    /** Appends the rows of `dir`'s listing at `depth`, descending into expanded directories. */
    method PushChildren(dir: Path, entries: seq<Entry>, depth: nat)
      modifies this
      ensures nodes == old(nodes) + Listing(dir, entries, depth, expanded)
      ensures expanded == old(expanded) && selected == old(selected)
      ensures createInput == old(createInput) && snapshot == old(snapshot)
      decreases entries, 2
    {
      var sorted := SortBy(entries, EntryLe);
      SortedMembers(entries, sorted);
      var i := 0;
      while i < |sorted|
        invariant 0 <= i <= |sorted|
        invariant nodes == old(nodes) + Blocks(dir, sorted[..i], depth, expanded, entries)
        invariant expanded == old(expanded) && selected == old(selected)
        invariant createInput == old(createInput) && snapshot == old(snapshot)
      {
        assert sorted[i] in entries;
        PushEntry(dir, sorted[i], depth);
        var j := i + 1;
        BlocksStep(dir, sorted, depth, expanded, entries, i, j);
        i := j;
      }
      assert sorted[..|sorted|] == sorted;
    }

    /** Appends the rows of one entry of `dir`: its own, then its listing when it is an expanded directory. */
    method PushEntry(dir: Path, e: Entry, depth: nat)
      modifies this
      ensures nodes == old(nodes) + Block(dir, e, depth, expanded)
      ensures expanded == old(expanded) && selected == old(selected)
      ensures createInput == old(createInput) && snapshot == old(snapshot)
      decreases e, 3
    {
      var path := dir + [e.name];
      nodes := nodes + [FileNode(path, e.name, depth, e.isDir)];
      if e.isDir && path in expanded {
        PushChildren(path, e.children, depth + 1);
      }
    }

    /** Moves the selection by `delta` rows, stopping at the first and the last row. */
    method MoveSelection(delta: int)
      requires Valid()
      modifies this
      ensures Valid()
      ensures nodes == [] ==> selected == 0
      ensures nodes != [] ==> selected < |nodes|
      ensures 0 <= old(selected) + delta < |nodes| ==> selected == old(selected) + delta
      ensures nodes != [] && old(selected) + delta < 0 ==> selected == 0
      ensures nodes != [] && old(selected) + delta >= |nodes| ==> selected == |nodes| - 1
      ensures nodes == old(nodes) && expanded == old(expanded)
      ensures createInput == old(createInput) && snapshot == old(snapshot)
    {
      if nodes == [] {
        selected := 0;
        return;
      }
      var max := |nodes| - 1;
      var next := selected + delta;
      if next < 0 {
        next := 0;
      } else if next > max {
        next := max;
      }
      selected := next;
    }

    /** The selected row, if the selection is on one. */
    function SelectedNode(): (r: Option<FileNode>)
      reads this
      ensures r.Some? <==> selected < |nodes|
      ensures r.Some? ==> r.value in nodes && r.value == nodes[selected]
    {
      if selected < |nodes| then Some(nodes[selected]) else None
    }

    predicate IsExpanded(p: Path)
      reads this
    {
      p in expanded
    }

    /** Under `Valid`, the selected row is strictly below the root. */
    lemma SelectedBelowRoot()
      requires Valid() && SelectedNode().Some?
      ensures root < SelectedNode().value.path
    {
      ListingUnder(root, snapshot, 0, expanded);
    }

    /** Opens or closes the selected directory; a file or an empty selection leaves everything as it is. */
    method ToggleSelectedDir(fs: seq<Entry>)
      requires Valid()
      modifies this
      ensures Valid()
      ensures old(SelectedNode()).None? || !old(SelectedNode()).value.isDir ==>
        nodes == old(nodes) && selected == old(selected) && expanded == old(expanded) && snapshot == old(snapshot)
      ensures old(SelectedNode()).Some? && old(SelectedNode()).value.isDir ==>
        var p := old(SelectedNode()).value.path;
        && (p in expanded <==> p !in old(expanded))
        && expanded - {p} == old(expanded) - {p}
        && snapshot == fs
        && selected == Finder.ClampSelection(old(selected), |nodes|)
      ensures createInput == old(createInput)
    {
      var node := SelectedNode();
      if node.None? || !node.value.isDir {
        return;
      }
      SelectedBelowRoot();
      var path := node.value.path;
      if path in expanded {
        expanded := expanded - {path};
      } else {
        expanded := expanded + {path};
      }
      Refresh(fs);
    }

    /**
     * Closes the selected directory if it is open; otherwise moves the
     * selection to the row of the selected entry's parent directory, when
     * that directory is listed.
     */
    method CollapseSelectedOrParent(fs: seq<Entry>)
      requires Valid()
      modifies this
      ensures Valid()
      ensures old(SelectedNode()).None? ==>
        nodes == old(nodes) && selected == old(selected) && expanded == old(expanded) && snapshot == old(snapshot)
      ensures old(SelectedNode()).Some? && old(SelectedNode()).value.isDir && old(SelectedNode()).value.path in old(expanded) ==>
        expanded == old(expanded) - {old(SelectedNode()).value.path} && snapshot == fs &&
        selected == Finder.ClampSelection(old(selected), |nodes|)
      ensures old(SelectedNode()).Some? && !(old(SelectedNode()).value.isDir && old(SelectedNode()).value.path in old(expanded)) ==>
        && nodes == old(nodes) && expanded == old(expanded) && snapshot == old(snapshot)
        && match Parent(old(SelectedNode()).value.path)
           case None => selected == old(selected)
           case Some(dir) =>
             match FindPath(nodes, dir)
             case None => selected == old(selected)
             case Some(k) => selected == k
      ensures createInput == old(createInput)
    {
      var node := SelectedNode();
      if node.None? {
        return;
      }
      var n := node.value;
      if n.isDir && n.path in expanded {
        SelectedBelowRoot();
        expanded := expanded - {n.path};
        Refresh(fs);
        return;
      }
      var parent := Parent(n.path);
      if parent.None? {
        return;
      }
      var idx := FindPath(nodes, parent.value);
      if idx.Some? {
        selected := idx.value;
      }
    }

    /** Starts the "new note" prompt with empty input. */
    method BeginCreate()
      requires Valid()
      modifies this
      ensures Valid()
      ensures createInput == ""
      ensures nodes == old(nodes) && selected == old(selected) && expanded == old(expanded) && snapshot == old(snapshot)
    {
      createInput := "";
    }

    /** Where a new entry goes: the selected directory, the selected file's directory, or the root. */
    function CreateTargetBaseDir(): (r: Path)
      reads this
      ensures SelectedNode().None? ==> r == root
      ensures SelectedNode().Some? && SelectedNode().value.isDir ==> r == SelectedNode().value.path
      ensures SelectedNode().Some? && !SelectedNode().value.isDir ==>
        (Parent(SelectedNode().value.path).Some? ==> r < SelectedNode().value.path && |r| + 1 == |SelectedNode().value.path|) &&
        (Parent(SelectedNode().value.path).None? ==> r == root)
    {
      match SelectedNode()
      case Some(node) =>
        if node.isDir then node.path
        else Parent(node.path).GetOr(root)
      case None => root
    }

    /** Under `Valid`, a new entry goes into the root or into a directory that has a row. */
    lemma CreateBaseIsDirectory()
      requires Valid()
      ensures CreateTargetBaseDir() == root ||
        exists k :: 0 <= k < |nodes| && nodes[k].isDir && nodes[k].path == CreateTargetBaseDir()
    {
      var r := CreateTargetBaseDir();
      if selected < |nodes| && !nodes[selected].isDir && Parent(nodes[selected].path).Some? {
        var n := nodes[selected];
        ListingUnder(root, snapshot, 0, expanded);
        assert Under(n, root, 0, expanded);
        assert n.path == r + [n.name];
        if n.depth > 0 {
          ListingParents(root, snapshot, 0, expanded);
          var m :| m in nodes && m.isDir && m.depth + 1 == n.depth && m.path + [n.name] == n.path;
          assert m.path == r;
          var k :| 0 <= k < |nodes| && nodes[k] == m;
        } else {
          assert n.path == root + [n.name];
        }
      }
    }

    /**
     * What `CommitCreate` leaves, given the prompt's text `input`, the base
     * directory `base`, the selection and expansion before, and the snapshot
     * `fs` before the creation. Blank input changes nothing. Otherwise the
     * prompt is cleared, the directory or note is created in the snapshot,
     * a new directory is expanded, the selection is clamped to the new rows,
     * and the created entry has a row when every directory above it is open.
     */
    ghost predicate CreateCommitted(input: string, base: Path, selected0: nat, expanded0: set<Path>,
                                    snapshot0: seq<Entry>, fs: seq<Entry>)
      reads this
    {
      var text := Trim(input);
      if text == "" then
        createInput == input && selected == selected0 && expanded == expanded0 && snapshot == snapshot0
      else
        var isDir := EndsWith(text, "/");
        var target := JoinStr(base, text);
        var made := if isDir then target else NoteTarget(target);
        && createInput == ""
        && snapshot == TreeWith(root, fs, made, isDir)
        && selected == Finder.ClampSelection(selected0, |nodes|)
        && expanded == (if isDir then expanded0 + {target} else expanded0)
        && (Reachable(root, fs, made, expanded) ==> exists k :: 0 <= k < |nodes| && nodes[k].path == made)
    }

    /**
     * Creates what the prompt names, relative to `CreateTargetBaseDir()`.
     * Blank input does nothing. Input ending in `/` names a directory, which
     * is created with its missing parents and expanded. Otherwise it names a
     * note: `.md` is added when the name has no extension, its missing parent
     * directories are created, a note that does not exist yet (not in
     * `existing`) gets `written` as its text, and the note's path is
     * returned. `fs` is the directory snapshot before the creation; the rows
     * are rebuilt from the snapshot after it.
     */
    method CommitCreate(existing: set<Path>, fs: seq<Entry>) returns (created: Option<Path>, written: Option<string>)
      requires Valid()
      modifies this
      ensures Valid()
      ensures CreateCommitted(old(createInput), old(CreateTargetBaseDir()), old(selected), old(expanded), old(snapshot), fs)
      ensures Trim(old(createInput)) == "" ==> created.None? && written.None? && nodes == old(nodes)
      ensures Trim(old(createInput)) != "" ==>
        var target := JoinStr(old(CreateTargetBaseDir()), Trim(old(createInput)));
        && (EndsWith(Trim(old(createInput)), "/") ==> created.None? && written.None?)
        && (!EndsWith(Trim(old(createInput)), "/") ==>
              && created == Some(NoteTarget(target))
              && written == (if NoteTarget(target) in existing then None else Some(NewNoteText(NoteTarget(target)))))
    {
      created, written := None, None;
      var input := Trim(createInput);
      if input == "" {
        return;
      }
      var base := CreateTargetBaseDir();
      var target := JoinStr(base, input);
      if EndsWith(input, "/") {
        expanded := expanded + {target};
        createInput := "";
        Refresh(TreeWith(root, fs, target, true));
        if Reachable(root, fs, target, expanded) {
          CreatedShown(root, fs, target, true, expanded);
        }
        return;
      }
      target := NoteTarget(target);
      if target !in existing {
        written := Some(NewNoteText(target));
      }
      createInput := "";
      Refresh(TreeWith(root, fs, target, false));
      if Reachable(root, fs, target, expanded) {
        CreatedShown(root, fs, target, false, expanded);
      }
      created := Some(target);
    }
  }
}
