/**
 * Paths as lists of components, the way `std::path::Path` compares and
 * decomposes them: `"/"` stands for the root directory and `".."` for a
 * parent step; every other component is a non-empty name without `/`.
 */
module Paths {
  import opened Wrappers
  import opened Text

  type Path = seq<string>

  const RootDir: string := "/"

  /** The pieces of `pieces` that name a component: empty pieces and `.` are dropped. */
  function NamedPieces(pieces: seq<string>): (r: seq<string>)
    ensures forall i :: 0 <= i < |r| ==> r[i] in pieces && r[i] != "" && r[i] != "."
  {
    if pieces == [] then []
    else
      var rest := NamedPieces(pieces[1..]);
      if pieces[0] == "" || pieces[0] == "." then rest else [pieces[0]] + rest
  }

  /** `Path::new(s).components()`. */
  function Components(s: string): (p: Path)
    ensures forall i :: 0 <= i < |p| ==> p[i] != "" && (p[i] == RootDir || '/' !in p[i])
  {
    var named := NamedPieces(Split(s, '/'));
    if StartsWith(s, "/") then [RootDir] + named else named
  }

  /** `base.join(rel)`: an absolute `rel` replaces `base`. */
  function JoinStr(base: Path, rel: string): Path {
    if StartsWith(rel, "/") then Components(rel) else base + Components(rel)
  }

  /** The named pieces of two lists of pieces, one after the other. */
  lemma {:induction false} NamedPiecesAppend(x: seq<string>, y: seq<string>)
    ensures NamedPieces(x + y) == NamedPieces(x) + NamedPieces(y)
  {
    if x != [] {
      assert (x + y)[1..] == x[1..] + y;
      NamedPiecesAppend(x[1..], y);
    } else {
      assert x + y == y;
    }
  }

  /**
   * A path held as text, the way a `PathBuf` holds what it was built from:
   * `display` prints it unchanged, including a leading `./`, a trailing `/`
   * or a doubled `/`.
   */
  type PathText = string

  /**
   * `PathBuf::join(rel)` on a path held as text: an absolute `rel` replaces
   * the base; otherwise a `/` goes between them unless the base is empty or
   * already ends in one.
   */
  function JoinText(base: PathText, rel: string): (r: PathText)
    ensures StartsWith(rel, "/") ==> r == rel
    ensures !StartsWith(rel, "/") ==> StartsWith(r, base) && EndsWith(r, rel)
  {
    if StartsWith(rel, "/") then rel
    else if base == "" || EndsWith(base, "/") then base + rel
    else base + "/" + rel
  }

  /** The named pieces around one `/` are those of each side. */
  lemma NamedAround(a: string, b: string)
    ensures NamedPieces(Split(a + ['/'] + b, '/')) == NamedPieces(Split(a, '/')) + NamedPieces(Split(b, '/'))
  {
    SplitConcat(a, b, '/');
    NamedPiecesAppend(Split(a, '/'), Split(b, '/'));
  }

  /** The empty text has no components. */
  lemma ComponentsEmpty()
    ensures Components("") == []
  {
    assert Split("", '/') == [""];
    assert NamedPieces([""]) == [];
  }

  /** A trailing `/` adds no component. */
  lemma NamedTrailingSlash(b: string)
    ensures NamedPieces(Split(b + ['/'], '/')) == NamedPieces(Split(b, '/'))
  {
    NamedAround(b, "");
    assert b + ['/'] + "" == b + ['/'];
    ComponentsEmpty();
  }

  /** A text with a first character starts with `/` exactly when its extensions do. */
  lemma StartsWithSlashPrefix(a: string, b: string)
    requires a != []
    ensures StartsWith(a + b, "/") <==> StartsWith(a, "/")
  {
    assert (a + b)[..1] == a[..1];
  }

  /** The components around one `/` after a non-empty text: those of the text, then the named pieces after it. */
  lemma ComponentsAround(a: string, b: string)
    requires a != []
    ensures Components(a + ['/'] + b) == Components(a) + NamedPieces(Split(b, '/'))
  {
    StartsWithSlashPrefix(a, ['/'] + b);
    assert a + ['/'] + b == a + (['/'] + b);
    NamedAround(a, b);
  }

  /** `base + sep + rel`, with `rel` relative, has the components of `base` and then those of `rel`. */
  lemma ComponentsJoined(base: string, sep: string, rel: string)
    requires base != [] && !StartsWith(rel, "/")
    requires sep == "/" || (sep == "" && EndsWith(base, "/"))
    ensures Components(base + sep + rel) == Components(base) + Components(rel)
  {
    if sep == "" {
      ComponentsTrailingJoined(base, rel);
    } else {
      assert base + sep + rel == base + ['/'] + rel;
      ComponentsAround(base, rel);
    }
  }

  /** The root alone is one component. */
  lemma ComponentsRoot()
    ensures Components("/") == [RootDir]
  {
    NamedTrailingSlash("");
    ComponentsEmpty();
    assert "" + ['/'] == "/";
  }

  /** The root followed by a relative text: the root, then the named pieces of the text. */
  lemma ComponentsRootJoined(rel: string)
    ensures Components("/" + rel) == [RootDir] + NamedPieces(Split(rel, '/'))
  {
    NamedAround("", rel);
    ComponentsEmpty();
    assert "" + ['/'] + rel == "/" + rel;
  }

  /** The `sep == ""` case of ComponentsJoined: `base` already ends in `/`. */
  lemma ComponentsTrailingJoined(base: string, rel: string)
    requires EndsWith(base, "/") && !StartsWith(rel, "/")
    ensures Components(base + "" + rel) == Components(base) + Components(rel)
  {
    var b := base[..|base| - 1];
    assert base == b + ['/'];
    assert base + "" + rel == b + ['/'] + rel;
    if b == [] {
      ComponentsRootJoined(rel);
      ComponentsRoot();
    } else {
      ComponentsAround(b, rel);
      NamedTrailingSlash(b);
      StartsWithSlashPrefix(b, ['/']);
    }
  }

  /** Joining as text names the same components as joining the components. */
  lemma JoinTextComponents(base: PathText, rel: string)
    ensures Components(JoinText(base, rel)) == JoinStr(Components(base), rel)
  {
    if StartsWith(rel, "/") {
    } else if base == "" {
      ComponentsEmpty();
      assert JoinText(base, rel) == rel;
    } else if EndsWith(base, "/") {
      ComponentsJoined(base, "", rel);
      assert JoinText(base, rel) == base + "" + rel;
    } else {
      ComponentsJoined(base, "/", rel);
    }
  }

  /** `Path::parent`: everything but the last component, unless that is the root. */
  function Parent(p: Path): (r: Option<Path>)
    ensures r.Some? <==> p != [] && p[|p| - 1] != RootDir
    ensures r.Some? ==> p == r.value + [p[|p| - 1]]
  {
    if p == [] || p[|p| - 1] == RootDir then None else Some(p[..|p| - 1])
  }

  /** `Path::file_name`: the last component when it is a name. */
  function FileName(p: Path): (r: Option<string>)
    ensures r.Some? <==> p != [] && p[|p| - 1] != RootDir && p[|p| - 1] != ".."
    ensures r.Some? ==> r.value == p[|p| - 1]
  {
    if p == [] || p[|p| - 1] == RootDir || p[|p| - 1] == ".." then None else Some(p[|p| - 1])
  }

  /** Index of the last `.` in `name`. */
  function LastDot(name: string): (i: nat)
    requires '.' in name
    ensures i < |name| && name[i] == '.' && '.' !in name[i + 1..]
  {
    if name[|name| - 1] == '.' then |name| - 1
    else
      assert name == name[..|name| - 1] + [name[|name| - 1]];
      LastDot(name[..|name| - 1])
  }

  /** The text after the last dot of a file name, unless that dot leads the name. */
  function NameExtension(name: string): (r: Option<string>)
    ensures r.Some? ==> '.' !in r.value && EndsWith(name, "." + r.value)
    ensures '.' !in name ==> r == None
  {
    if '.' !in name then None
    else
      var i := LastDot(name);
      if i == 0 then None else Some(name[i + 1..])
  }

  /** `Path::extension`. */
  function Extension(p: Path): Option<string> {
    match FileName(p)
    case None => None
    case Some(name) => NameExtension(name)
  }

  /** The file name without its extension (the whole name when there is none). */
  function NameStem(name: string): (r: string)
    ensures NameExtension(name).None? ==> r == name
    ensures NameExtension(name).Some? ==> name == r + "." + NameExtension(name).value
  {
    if '.' !in name then name
    else
      var i := LastDot(name);
      if i == 0 then name
      else
        assert name == name[..i] + "." + name[i + 1..];
        name[..i]
  }

  /** `Path::file_stem`. */
  function FileStem(p: Path): Option<string> {
    match FileName(p)
    case None => None
    case Some(name) => Some(NameStem(name))
  }

  /** Appending `.ext` to a stem makes `ext` the extension and keeps the stem. */
  lemma {:induction false} StemDotExt(stem: string, ext: string)
    requires ext != "" && '.' !in ext && stem != ""
    ensures NameStem(stem + "." + ext) == stem
    ensures NameExtension(stem + "." + ext) == Some(ext)
  {
    var newName := stem + "." + ext;
    var j := LastDot(newName);
    forall k | j < k < |newName| ensures newName[k] != '.' {
      assert newName[k] == newName[j + 1..][k - j - 1];
    }
    forall k | |stem| < k < |newName| ensures newName[k] != '.' {
      assert newName[k] == ext[k - |stem| - 1];
    }
    assert newName[|stem|] == '.';
    assert j == |stem|;
    assert newName[|stem| + 1..] == ext;
  }

  /** `PathBuf::set_extension(ext)` for a non-empty `ext` without dots: the stem followed by `.ext`. */
  function WithExtension(p: Path, ext: string): (r: Path)
    requires ext != "" && '.' !in ext
    ensures FileName(p).None? ==> r == p
    ensures FileName(p).Some? ==> Parent(r) == Parent(p)
    ensures FileName(p).Some? && FileName(p).value != "" ==>
      FileStem(r) == FileStem(p) && Extension(r) == Some(ext)
  {
    match FileName(p)
    case None => p
    case Some(name) =>
      var stem := NameStem(name);
      var r := p[..|p| - 1] + [stem + "." + ext];
      assert r[|r| - 1] == stem + "." + ext;
      if name != "" then
        StemDotExt(stem, ext);
        r
      else r
  }

  /** `Path::display` for a path built from components. */
  function Display(p: Path): string {
    if p != [] && p[0] == RootDir then "/" + Join(p[1..], "/") else Join(p, "/")
  }

  /** `Component`'s order: the root directory, then `..`, then names in string order. */
  function ComponentRank(c: string): nat {
    if c == RootDir then 0 else if c == ".." then 1 else 2
  }

  predicate ComponentLe(a: string, b: string) {
    if ComponentRank(a) != ComponentRank(b) then ComponentRank(a) < ComponentRank(b)
    else ComponentRank(a) < 2 || LexLe(a, b)
  }

  /** `Ord for Path`: lexicographic over the components. */
  predicate PathLe(p: Path, q: Path) {
    if p == [] then true
    else if q == [] then false
    else if p[0] != q[0] then ComponentLe(p[0], q[0])
    else PathLe(p[1..], q[1..])
  }

  lemma {:induction false} ComponentLeTotal(a: string, b: string)
    ensures ComponentLe(a, b) || ComponentLe(b, a)
  {
    LexLeTotal(a, b);
  }

  lemma {:induction false} ComponentLeTrans(a: string, b: string, c: string)
    requires ComponentLe(a, b) && ComponentLe(b, c)
    ensures ComponentLe(a, c)
  {
    if ComponentRank(a) == 2 && ComponentRank(b) == 2 && ComponentRank(c) == 2 {
      LexLeTrans(a, b, c);
    }
  }

  lemma {:induction false} ComponentLeAntisym(a: string, b: string)
    requires ComponentLe(a, b) && ComponentLe(b, a)
    ensures a == b
  {
    if ComponentRank(a) == 2 {
      LexLeAntisym(a, b);
    }
  }

  lemma {:induction false} PathLeTotal(p: Path, q: Path)
    ensures PathLe(p, q) || PathLe(q, p)
  {
    if p != [] && q != [] {
      if p[0] == q[0] { PathLeTotal(p[1..], q[1..]); } else { ComponentLeTotal(p[0], q[0]); }
    }
  }

  lemma {:induction false} PathLeTrans(p: Path, q: Path, r: Path)
    requires PathLe(p, q) && PathLe(q, r)
    ensures PathLe(p, r)
  {
    if p != [] && q != [] && r != [] {
      if p[0] == q[0] && q[0] == r[0] {
        PathLeTrans(p[1..], q[1..], r[1..]);
      } else if p[0] == q[0] {
      } else if q[0] == r[0] {
      } else {
        ComponentLeTrans(p[0], q[0], r[0]);
        if p[0] == r[0] { ComponentLeAntisym(p[0], q[0]); }
      }
    }
  }

  lemma {:induction false} PathLeAntisym(p: Path, q: Path)
    requires PathLe(p, q) && PathLe(q, p)
    ensures p == q
  {
    if p != [] && q != [] {
      if p[0] == q[0] {
        PathLeAntisym(p[1..], q[1..]);
        assert p == [p[0]] + p[1..] && q == [q[0]] + q[1..];
      } else {
        ComponentLeAntisym(p[0], q[0]);
      }
    }
  }
}
