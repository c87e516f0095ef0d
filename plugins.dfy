/**
 * The plugin registry: one runtime per configured plugin, each found through
 * its `plugin.toml` manifest and loaded on first use, and the manager that
 * builds the runtimes from the configuration, dispatches commands to them and
 * reports on them.
 *
 * The file system is a parameter: what reading a plugin's manifest yields
 * (`read`), and the set of files that exist (`files`).
 */
module Plugins {
  import opened Wrappers
  import opened Text
  import opened Paths
  import opened Sorting
  import Finder

  datatype CommandDef = CommandDef(name: string, description: Option<string>)

  /** The fields of `plugin.toml` the editor reads. */
  datatype Manifest = Manifest(name: string, version: string, entry: string, commands: seq<CommandDef>)

  datatype PluginStatus = Discovered | Loaded | Error(message: string)

  /** One `[[plugins]]` entry of the configuration. */
  datatype PluginConfig = PluginConfig(enabled: bool, path: Option<string>, repo: Option<string>)

  /** What the manager reports about one runtime. */
  datatype RuntimeInfo = RuntimeInfo(id: string, rootDir: PathText, manifest: Option<Manifest>, status: PluginStatus)

  /** `root_dir.join("plugin.toml")`. */
  function ManifestPath(rootDir: PathText): PathText {
    JoinText(rootDir, "plugin.toml")
  }

  /** The error a runtime records when its manifest cannot be read or parsed. */
  function ManifestError(rootDir: PathText, err: string): string {
    ManifestPath(rootDir) + ": " + err
  }

  /** `PluginRuntime::display_name`: the manifest's name, else the plugin's id. */
  function DisplayName(id: string, manifest: Option<Manifest>): (r: string)
    ensures manifest.Some? ==> r == manifest.value.name
    ensures manifest.None? ==> r == id
  {
    match manifest
    case Some(m) => m.name
    case None => id
  }

  /** `PluginRuntime::supports_command`: the manifest declares a command of exactly that name. */
  predicate Supports(manifest: Option<Manifest>, command: string) {
    manifest.Some? && exists i :: 0 <= i < |manifest.value.commands| && manifest.value.commands[i].name == command
  }

  function HandledMessage(name: string, command: string): string {
    "plugin " + name + " handled command: " + command
  }

  /** The message of a successful command names the plugin and the command. */
  lemma HandledMessageNames(name: string, command: string)
    ensures Contains(HandledMessage(name, command), name)
    ensures Contains(HandledMessage(name, command), command)
  {
    var m := HandledMessage(name, command);
    var k := |"plugin "|;
    assert m[k..k + |name|] == name;
    assert OccursAt(m, name, k);
    var j := |m| - |command|;
    assert m[j..j + |command|] == command;
    assert OccursAt(m, command, j);
  }

  function MissingWasm(wasm: PathText): string {
    "missing wasm entry: " + wasm
  }

  const MissingManifest: string := "missing plugin manifest"

  class PluginRuntime {
    const id: string
    const rootDir: PathText
    const manifest: Option<Manifest>
    var status: PluginStatus

    /** Reads the manifest under `rootDir`; `read` is what reading and parsing it yields. */
    constructor Discover(id: string, rootDir: PathText, read: Result<Manifest, string>)
      ensures this.id == id && this.rootDir == rootDir
      ensures read.Ok? ==> manifest == Some(read.value) && status == Discovered
      ensures read.Err? ==> manifest == None && status == Error(ManifestError(rootDir, read.error))
    {
      this.id := id;
      this.rootDir := rootDir;
      match read
      case Ok(m) =>
        manifest := Some(m);
        status := Discovered;
      case Err(e) =>
        manifest := None;
        status := Error(ManifestError(rootDir, e));
    }

    function Info(): RuntimeInfo
      reads this
    {
      RuntimeInfo(id, rootDir, manifest, status)
    }

    /**
     * Loads the plugin unless it is loaded already. Without a manifest that
     * fails and leaves the status alone; without the wasm entry file it fails
     * and records the same error in the status.
     */
    method EnsureLoaded(files: set<Path>) returns (r: Result<Unit, string>)
      modifies this
      ensures old(status) == Loaded ==> r.Ok? && status == Loaded
      ensures old(status) != Loaded && manifest.None? ==> r == Err(MissingManifest) && status == old(status)
      ensures old(status) != Loaded && manifest.Some? ==>
        var wasm := JoinText(rootDir, manifest.value.entry);
        && (Components(wasm) in files ==> r.Ok? && status == Loaded)
        && (Components(wasm) !in files ==> r == Err(MissingWasm(wasm)) && status == Error(r.error))
    {
      if status == Loaded {
        return Ok(Unit);
      }
      if manifest.None? {
        return Err(MissingManifest);
      }
      var wasm := JoinText(rootDir, manifest.value.entry);
      if Components(wasm) !in files {
        var err := MissingWasm(wasm);
        status := Error(err);
        return Err(err);
      }
      status := Loaded;
      return Ok(Unit);
    }

    /**
     * Runs `command`: nothing for a command the manifest does not declare,
     * otherwise loads the plugin and reports that it handled the command.
     */
    method ExecuteCommand(command: string, files: set<Path>) returns (r: Result<Option<string>, string>)
      modifies this
      ensures !Supports(manifest, command) ==> r == Ok(None) && status == old(status)
      ensures Supports(manifest, command) ==>
        && (r.Ok? <==> status == Loaded)
        && (r.Ok? ==> r.value == Some(HandledMessage(DisplayName(id, manifest), command)))
        && (r.Err? ==> status == Error(r.error))
        && (status == Loaded <==> old(status) == Loaded || Components(JoinText(rootDir, manifest.value.entry)) in files)
    {
      if !Supports(manifest, command) {
        return Ok(None);
      }
      var loaded := EnsureLoaded(files);
      if loaded.Err? {
        return Err(loaded.error);
      }
      return Ok(Some(HandledMessage(DisplayName(id, manifest), command)));
    }
  }

  // ---------------------------------------------------------------------------
  // From configuration to runtimes
  // ---------------------------------------------------------------------------

  /** `expand_tilde`: a leading `~` becomes the home directory, when there is one. */
  function ExpandTilde(path: string, home: Option<string>): (r: string)
    ensures !StartsWith(path, "~") || home.None? ==> r == path
    ensures StartsWith(path, "~") && home.Some? ==> r == home.value + path[1..]
  {
    if !StartsWith(path, "~") then path
    else match home
      case None => path
      case Some(h) => h + path[1..]
  }

  /** All trailing `c` removed (`trim_end_matches(c)`). */
  function TrimEndChar(s: string, c: char): (r: string)
    ensures r <= s
    ensures r != [] ==> r[|r| - 1] != c
    ensures forall i :: |r| <= i < |s| ==> s[i] == c
  {
    if s != [] && s[|s| - 1] == c then TrimEndChar(s[..|s| - 1], c) else s
  }

  /** All trailing `.git` removed (`trim_end_matches(".git")`). */
  function TrimEndGit(s: string): (r: string)
    ensures r <= s && !EndsWith(r, ".git")
    decreases |s|
  {
    if EndsWith(s, ".git") then TrimEndGit(s[..|s| - 4]) else s
  }

  /** The text after the last `/` (`rsplit('/').next()`). */
  function LastSegment(s: string): (r: string)
    ensures |r| <= |s| && r == s[|s| - |r|..] && '/' !in r
    ensures |r| < |s| ==> s[|s| - |r| - 1] == '/'
  {
    if s == [] || s[|s| - 1] == '/' then []
    else LastSegment(s[..|s| - 1]) + [s[|s| - 1]]
  }

  /** `repo_slug`: the repository's name, used as its directory under the plugin base directory. */
  function RepoSlug(repo: string): (r: string)
    ensures r != "" && '/' !in r
  {
    var segment := LastSegment(TrimEndGit(TrimEndChar(repo, '/')));
    if segment == "" then "plugin" else segment
  }

  /** `n` copies of `s`. */
  function Rep(s: string, n: nat): string {
    if n == 0 then "" else Rep(s, n - 1) + s
  }

  lemma {:induction false} TrimEndCharRep(x: string, c: char, n: nat)
    requires x == [] || x[|x| - 1] != c
    ensures TrimEndChar(x + Rep([c], n), c) == x
  {
    if n == 0 {
      assert x + Rep([c], n) == x;
    } else {
      assert x + Rep([c], n) == (x + Rep([c], n - 1)) + [c];
      assert (x + Rep([c], n))[..|x + Rep([c], n)| - 1] == x + Rep([c], n - 1);
      TrimEndCharRep(x, c, n - 1);
    }
  }

  lemma {:induction false} TrimEndGitRep(y: string, n: nat)
    requires !EndsWith(y, ".git")
    ensures TrimEndGit(y + Rep(".git", n)) == y
  {
    if n == 0 {
      assert y + Rep(".git", n) == y;
    } else {
      var z := y + Rep(".git", n);
      assert z == (y + Rep(".git", n - 1)) + ".git";
      assert z[|z| - 4..] == ".git";
      assert z[..|z| - 4] == y + Rep(".git", n - 1);
      TrimEndGitRep(y, n - 1);
    }
  }

  lemma {:induction false} LastSegmentAfterSlash(prefix: string, name: string)
    requires '/' !in name
    ensures LastSegment(prefix + "/" + name) == name
    decreases |name|
  {
    var s := prefix + "/" + name;
    if name == [] {
      assert s[|s| - 1] == '/';
    } else {
      var init := name[..|name| - 1];
      assert s[..|s| - 1] == prefix + "/" + init;
      assert s[|s| - 1] == name[|name| - 1] && name[|name| - 1] in name;
      assert '/' !in init by {
        forall q | 0 <= q < |init| ensures init[q] != '/' {
          assert init[q] == name[q];
        }
      }
      LastSegmentAfterSlash(prefix, init);
      assert init + [name[|name| - 1]] == name;
    }
  }

  /**
   * The slug of a repository URL is its last path segment, whatever number of
   * `.git` suffixes and trailing slashes follow it.
   */
  lemma RepoSlugOfUrl(prefix: string, name: string, gits: nat, slashes: nat)
    requires name != "" && '/' !in name && !EndsWith(name, ".git")
    ensures RepoSlug(prefix + "/" + name + Rep(".git", gits) + Rep("/", slashes)) == name
  {
    var y := prefix + "/" + name;
    var x := y + Rep(".git", gits);
    assert x[|x| - 1] != '/' by {
      if gits > 0 {
        assert x == (y + Rep(".git", gits - 1)) + ".git";
      } else {
        assert x[|x| - 1] == name[|name| - 1] && name[|name| - 1] in name;
      }
    }
    TrimEndCharRep(x, '/', slashes);
    assert !EndsWith(y, ".git") by {
      if |name| >= 4 {
        assert y[|y| - 4..] == name[|name| - 4..];
      } else if |y| >= 4 {
        assert y[|y| - |name| - 1] == '/';
        assert y[|y| - 4..][3 - |name|] == '/';
        assert forall q :: 0 <= q < 4 ==> ".git"[q] != '/';
      }
    }
    TrimEndGitRep(y, gits);
    LastSegmentAfterSlash(prefix, name);
  }

  /** `resolve_plugin_root`: the configured path, else the repository's slug under `base`. */
  function ResolvePluginRoot(config: PluginConfig, home: Option<string>, base: PathText): (r: Option<PathText>)
    ensures r.Some? <==> config.path.Some? || config.repo.Some?
    ensures config.path.Some? ==> r == Some(ExpandTilde(config.path.value, home))
    ensures config.path.None? && config.repo.Some? ==>
      && r.Some? && EndsWith(r.value, RepoSlug(config.repo.value))
      && Components(r.value) == JoinStr(Components(base), RepoSlug(config.repo.value))
  {
    match config.path
    case Some(p) => Some(ExpandTilde(p, home))
    case None =>
      match config.repo
      case Some(repo) =>
        JoinTextComponents(base, RepoSlug(repo));
        Some(JoinText(base, RepoSlug(repo)))
      case None => None
  }

  /** `plugin_key`: the repository, else the expanded path, else the root directory. */
  function PluginKey(config: PluginConfig, home: Option<string>, rootDir: PathText): (r: string)
    ensures |r| >= 5 && (r[..5] == "repo:" <==> config.repo.Some?)
  {
    match config.repo
    case Some(repo) => "repo:" + repo
    case None =>
      match config.path
      case Some(p) => "path:" + ExpandTilde(p, home)
      case None => "path:" + rootDir
  }

  /**
   * Keys tell configurations apart: two repository configurations share a
   * key exactly when they name the same repository, and a repository
   * configuration never shares one with a path configuration.
   */
  lemma PluginKeyDistinguishes(a: PluginConfig, b: PluginConfig, home: Option<string>, ra: PathText, rb: PathText)
    ensures a.repo.Some? && b.repo.Some? ==>
      (PluginKey(a, home, ra) == PluginKey(b, home, rb) <==> a.repo.value == b.repo.value)
    ensures a.repo.Some? && b.repo.None? ==> PluginKey(a, home, ra) != PluginKey(b, home, rb)
  {
    if a.repo.Some? && b.repo.Some? && PluginKey(a, home, ra) == PluginKey(b, home, rb) {
      var ka, kb := PluginKey(a, home, ra), PluginKey(b, home, rb);
      assert a.repo.value == ka[5..] == kb[5..] == b.repo.value;
    }
    if a.repo.Some? && b.repo.None? {
      assert PluginKey(a, home, ra)[0] == 'r';
      assert PluginKey(b, home, rb)[0] == 'p';
    }
  }

  /** The (key, root) pair a configuration contributes: only when it is enabled and has a root. */
  function Candidate(c: PluginConfig, home: Option<string>, base: PathText): seq<(string, PathText)> {
    var root := ResolvePluginRoot(c, home, base);
    if c.enabled && root.Some? then [(PluginKey(c, home, root.value), root.value)] else []
  }

  /** The (key, root) pair of every usable configuration, in order. */
  function Candidates(configs: seq<PluginConfig>, home: Option<string>, base: PathText): (r: seq<(string, PathText)>)
    ensures |r| <= |configs|
  {
    if configs == [] then []
    else Candidates(configs[..|configs| - 1], home, base) + Candidate(configs[|configs| - 1], home, base)
  }

  lemma CandidatesStep(configs: seq<PluginConfig>, home: Option<string>, base: PathText, i: nat, j: nat)
    requires j == i + 1 && j <= |configs|
    ensures Candidates(configs[..j], home, base) == Candidates(configs[..i], home, base) + Candidate(configs[i], home, base)
  {
    assert configs[..j][..i] == configs[..i];
  }

  function Keys(cands: seq<(string, PathText)>): (r: seq<string>)
    ensures |r| == |cands| && forall i :: 0 <= i < |cands| ==> r[i] == cands[i].0
  {
    if cands == [] then [] else Keys(cands[..|cands| - 1]) + [cands[|cands| - 1].0]
  }

  /**
   * The root each key gets: candidates are taken in order and a key already
   * present keeps its root (`entry(key).or_insert_with(..)`).
   */
  function Firsts(cands: seq<(string, PathText)>): (r: map<string, PathText>)
    ensures forall k :: k in r <==> k in Keys(cands)
  {
    if cands == [] then map[]
    else
      var m := Firsts(cands[..|cands| - 1]);
      var (k, root) := cands[|cands| - 1];
      if k in m then m else m[k := root]
  }

  /** `i` is the first candidate with key `k`. */
  ghost predicate FirstWith(cands: seq<(string, PathText)>, k: string, i: int) {
    0 <= i < |cands| && cands[i].0 == k && forall j :: 0 <= j < i ==> cands[j].0 != k
  }

  /** The root a key gets is the root of the first candidate with that key. */
  lemma {:induction false} FirstsSpec(cands: seq<(string, PathText)>, k: string)
    requires k in Keys(cands)
    ensures exists i :: FirstWith(cands, k, i) && Firsts(cands)[k] == cands[i].1
  {
    var init := cands[..|cands| - 1];
    if k in Keys(init) {
      FirstsSpec(init, k);
      var i :| FirstWith(init, k, i) && Firsts(init)[k] == init[i].1;
      FirstWithPrefix(cands, init, k, i);
    } else {
      FirstsLast(cands, init, k);
    }
  }

  lemma FirstWithPrefix(cands: seq<(string, PathText)>, init: seq<(string, PathText)>, k: string, i: int)
    requires cands != [] && init == cands[..|cands| - 1]
    requires FirstWith(init, k, i) && k in Keys(init) && Firsts(init)[k] == init[i].1
    ensures FirstWith(cands, k, i) && k in Firsts(cands) && Firsts(cands)[k] == cands[i].1
  {
    var last := cands[|cands| - 1];
    assert cands == init + [last];
    FirstsStep(init, last.0, last.1);
    forall j | 0 <= j <= i ensures cands[j] == init[j] {
    }
  }

  lemma FirstsLast(cands: seq<(string, PathText)>, init: seq<(string, PathText)>, k: string)
    requires cands != [] && init == cands[..|cands| - 1]
    requires k in Keys(cands) && k !in Keys(init)
    ensures FirstWith(cands, k, |cands| - 1) && Firsts(cands)[k] == cands[|cands| - 1].1
  {
    forall j | 0 <= j < |init| ensures cands[j].0 != k {
      assert Keys(init)[j] == cands[j].0;
    }
    assert Keys(cands) == Keys(init) + [cands[|cands| - 1].0];
  }

  /** One more candidate adds its key and root, unless the key is already there. */
  lemma FirstsStep(cands: seq<(string, PathText)>, key: string, root: PathText)
    ensures Keys(cands + [(key, root)]) == Keys(cands) + [key]
    ensures Firsts(cands + [(key, root)]) == if key in Firsts(cands) then Firsts(cands) else Firsts(cands)[key := root]
  {
    var more := cands + [(key, root)];
    assert more[..|more| - 1] == cands;
    assert Keys(more) == Keys(cands) + [key];
  }

  /** Keeping first occurrences, one more element is added only if it is new. */
  lemma DedupStep<T(!new)>(s: seq<T>, x: T)
    ensures Dedup(s + [x]) == if x in s then Dedup(s) else Dedup(s) + [x]
  {
    assert (s + [x])[..|s|] == s;
  }

  /** What `Discover` records for a runtime whose manifest read gave `read`. */
  function DiscoveredStatus(rootDir: PathText, read: Result<Manifest, string>): PluginStatus {
    match read
    case Ok(_) => Discovered
    case Err(e) => Error(ManifestError(rootDir, e))
  }

  function DiscoveredManifest(read: Result<Manifest, string>): Option<Manifest> {
    match read
    case Ok(m) => Some(m)
    case Err(_) => None
  }

  /** `rt` is a runtime for key `k` at `root`. */
  ghost predicate Spawned(rt: PluginRuntime, k: string, root: PathText) {
    rt.id == k && rt.rootDir == root
  }

  /** `rt` holds what `Discover` recorded for its root: the manifest read there, or the error. */
  ghost predicate AsDiscovered(rt: PluginRuntime, read: PathText -> Result<Manifest, string>)
    reads rt
  {
    && rt.manifest == DiscoveredManifest(read(rt.rootDir))
    && rt.status == DiscoveredStatus(rt.rootDir, read(rt.rootDir))
  }

  ghost predicate AllDiscovered(rts: map<string, PluginRuntime>, read: PathText -> Result<Manifest, string>)
    reads rts.Values
  {
    forall k :: k in rts ==> AsDiscovered(rts[k], read)
  }

  /**
   * `rts` and `ord` hold one runtime per distinct key of `cands`, in the
   * order the keys first appear, each at its key's first root.
   */
  ghost predicate Registry(rts: map<string, PluginRuntime>, ord: seq<string>, cands: seq<(string, PathText)>) {
    && ord == Dedup(Keys(cands))
    && (forall k :: k in rts <==> k in Firsts(cands))
    && (forall k :: k in rts ==> Spawned(rts[k], k, Firsts(cands)[k]))
  }

  lemma RegistryAdd(rts: map<string, PluginRuntime>, ord: seq<string>, cands: seq<(string, PathText)>,
                    key: string, root: PathText, rt: PluginRuntime)
    requires Registry(rts, ord, cands) && key !in rts && Spawned(rt, key, root)
    ensures Registry(rts[key := rt], ord + [key], cands + [(key, root)])
  {
    FirstsStep(cands, key, root);
    DedupStep(Keys(cands), key);
    var rts' := rts[key := rt];
    forall k | k in rts' ensures Spawned(rts'[k], k, Firsts(cands + [(key, root)])[k]) {
      if k != key {
        assert rts'[k] == rts[k];
      }
    }
  }

  lemma RegistryKeep(rts: map<string, PluginRuntime>, ord: seq<string>, cands: seq<(string, PathText)>,
                     key: string, root: PathText)
    requires Registry(rts, ord, cands) && key in rts
    ensures Registry(rts, ord, cands + [(key, root)])
  {
    FirstsStep(cands, key, root);
    DedupStep(Keys(cands), key);
  }

  /** The `entry(key).or_insert_with(discover)` step: a runtime is made only for a new key. */
  method Register(rts: map<string, PluginRuntime>, ord: seq<string>, ghost cands: seq<(string, PathText)>,
                  key: string, root: PathText, read: PathText -> Result<Manifest, string>)
    returns (rts': map<string, PluginRuntime>, ord': seq<string>)
    requires Registry(rts, ord, cands) && AllDiscovered(rts, read)
    ensures Registry(rts', ord', cands + [(key, root)]) && AllDiscovered(rts', read)
    ensures key in rts ==> rts' == rts && ord' == ord
  {
    if key in rts {
      RegistryKeep(rts, ord, cands, key, root);
      return rts, ord;
    }
    var rt := new PluginRuntime.Discover(key, root, read(root));
    RegistryAdd(rts, ord, cands, key, root, rt);
    rts' := rts[key := rt];
    ord' := ord + [key];
    assert AsDiscovered(rt, read);
  }

  /** `ord` lists the keys of `rts` once each, and each runtime sits under its own id. */
  ghost predicate WellKeyed(rts: map<string, PluginRuntime>, ord: seq<string>) {
    && NoDup(ord)
    && (forall k :: k in ord <==> k in rts)
    && (forall k :: k in rts ==> rts[k].id == k)
  }

  /** A registry holds distinct keys, the same keys as its map, each runtime under its own id. */
  lemma RegistryValid(rts: map<string, PluginRuntime>, ord: seq<string>, cands: seq<(string, PathText)>)
    requires Registry(rts, ord, cands)
    ensures WellKeyed(rts, ord)
  {
    forall k ensures k in ord <==> k in rts {
      assert k in ord <==> k in Keys(cands);
    }
    forall k | k in rts ensures rts[k].id == k {
      assert Spawned(rts[k], k, Firsts(cands)[k]);
    }
  }

  /**
   * The manager's discovery loop: one runtime per distinct key among the
   * enabled configurations that name a path or a repository; for a key given
   * twice, the first configuration wins.
   */
  method DiscoverAll(configs: seq<PluginConfig>, home: Option<string>, base: PathText, read: PathText -> Result<Manifest, string>)
    returns (rts: map<string, PluginRuntime>, ord: seq<string>)
    ensures Registry(rts, ord, Candidates(configs, home, base)) && AllDiscovered(rts, read)
  {
    rts, ord := map[], [];
    ghost var cands: seq<(string, PathText)> := [];
    var i := 0;
    while i < |configs|
      invariant 0 <= i <= |configs|
      invariant cands == Candidates(configs[..i], home, base)
      invariant Registry(rts, ord, cands) && AllDiscovered(rts, read)
    {
      var c := configs[i];
      var root := ResolvePluginRoot(c, home, base);
      var j := i + 1;
      CandidatesStep(configs, home, base, i, j);
      if c.enabled && root.Some? {
        var key := PluginKey(c, home, root.value);
        rts, ord := Register(rts, ord, cands, key, root.value, read);
        cands := cands + [(key, root.value)];
      }
      i := j;
    }
    assert configs[..|configs|] == configs;
  }

  // ---------------------------------------------------------------------------
  // The manager
  // ---------------------------------------------------------------------------

  /**
   * The runtimes by key. The map's iteration order is not fixed; `order`
   * holds the keys in the order the runtimes were created, and stands for it.
   */
  class PluginManager {
    var runtimes: map<string, PluginRuntime>
    var order: seq<string>

    ghost predicate Valid()
      reads this
    {
      WellKeyed(runtimes, order)
    }

    /**
     * One runtime per distinct key among the enabled configurations that name
     * a path or a repository; for a key given twice, the first configuration wins.
     */
    constructor (configs: seq<PluginConfig>, home: Option<string>, base: PathText, read: PathText -> Result<Manifest, string>)
      ensures Valid()
      ensures Registry(runtimes, order, Candidates(configs, home, base)) && AllDiscovered(runtimes, read)
    {
      runtimes := map[];
      order := [];
      new;
      Rebuild(configs, home, base, read);
    }

    /** The runtimes discarded and discovered afresh from `configs`, as a new manager would hold them. */
    method Rebuild(configs: seq<PluginConfig>, home: Option<string>, base: PathText, read: PathText -> Result<Manifest, string>)
      modifies this
      ensures Valid()
      ensures Registry(runtimes, order, Candidates(configs, home, base)) && AllDiscovered(runtimes, read)
    {
      var rts, ord := DiscoverAll(configs, home, base, read);
      RegistryValid(rts, ord, Candidates(configs, home, base));
      runtimes := rts;
      order := ord;
    }

    /** The runtimes under `keys`, as the manager reports them. */
    function InfosOf(keys: seq<string>): (r: seq<RuntimeInfo>)
      reads this, runtimes.Values
      requires forall k :: k in keys ==> k in runtimes
      ensures |r| == |keys| && forall i :: 0 <= i < |keys| ==> r[i] == runtimes[keys[i]].Info()
    {
      if keys == [] then []
      else
        assert keys[|keys| - 1] in keys;
        InfosOf(keys[..|keys| - 1]) + [runtimes[keys[|keys| - 1]].Info()]
    }

    function Infos(): seq<RuntimeInfo>
      reads this, runtimes.Values
      requires Valid()
    {
      InfosOf(order)
    }

    /** The keys, in order, of the runtimes that support `command`. */
    function SupportingIn(keys: seq<string>, command: string): (r: seq<string>)
      reads this, runtimes.Values
      requires forall k :: k in keys ==> k in runtimes
      ensures forall k :: k in r <==> k in keys && Supports(runtimes[k].manifest, command)
      ensures |r| <= |keys|
    {
      if keys == [] then []
      else
        var k := keys[|keys| - 1];
        assert k in keys;
        SupportingIn(keys[..|keys| - 1], command) + (if Supports(runtimes[k].manifest, command) then [k] else [])
    }

    function Supporting(command: string): seq<string>
      reads this, runtimes.Values
      requires Valid()
    {
      SupportingIn(order, command)
    }

    /**
     * Runs `command` on the one runtime that supports it. None supporting it
     * reports "not found" and two or more report "ambiguous"; both run nothing.
     */
    method ExecuteCommand(command: string, files: set<Path>) returns (notes: seq<string>)
      requires Valid()
      modifies runtimes.Values
      ensures Valid()
      ensures |old(Supporting(command))| != 1 ==>
        forall k :: k in runtimes ==> runtimes[k].status == old(runtimes[k].status)
      ensures |old(Supporting(command))| == 0 ==> notes == [NotFound(command)]
      ensures |old(Supporting(command))| >= 2 ==> notes == [Ambiguous(command)]
      ensures |old(Supporting(command))| == 1 ==>
        var k := old(Supporting(command))[0];
        var rt := runtimes[k];
        && (forall k' :: k' in runtimes && k' != k ==> runtimes[k'].status == old(runtimes[k'].status))
        && (rt.status == Loaded <==> old(rt.status) == Loaded || Components(JoinText(rt.rootDir, rt.manifest.value.entry)) in files)
        && (rt.status == Loaded ==> notes == [HandledMessage(DisplayName(k, rt.manifest), command)])
        && (rt.status != Loaded ==>
              rt.status.Error? && notes == ["plugin " + DisplayName(k, rt.manifest) + ": " + rt.status.message])
    {
      var matching := Supporting(command);
      if |matching| == 0 {
        return [NotFound(command)];
      }
      if |matching| >= 2 {
        return [Ambiguous(command)];
      }
      var k := matching[0];
      assert k in matching;
      var rt := runtimes[k];
      var r := rt.ExecuteCommand(command, files);
      match r
      case Ok(Some(message)) =>
        notes := [message];
      case Ok(None) =>
        notes := [NotFound(command)];
      case Err(e) =>
        notes := ["plugin " + DisplayName(rt.id, rt.manifest) + ": " + e];
    }
  }

  function NotFound(command: string): string {
    "plugin command not found: " + command
  }

  function Ambiguous(command: string): string {
    "plugin command is ambiguous: " + command + " (multiple plugins)"
  }

  // ---------------------------------------------------------------------------
  // Notifications
  // ---------------------------------------------------------------------------

  /** The number of runtimes whose status is an error. */
  function ErrorCount(infos: seq<RuntimeInfo>): (n: nat)
    ensures n <= |infos|
  {
    if infos == [] then 0
    else ErrorCount(infos[..|infos| - 1]) + (if infos[|infos| - 1].status.Error? then 1 else 0)
  }

  function ErrorLine(info: RuntimeInfo): string
    requires info.status.Error?
  {
    "plugin " + DisplayName(info.id, info.manifest) + " (" + info.rootDir + "): " + info.status.message
  }

  /** One line per runtime in error, in order. */
  function ErrorNotifications(infos: seq<RuntimeInfo>): (r: seq<string>)
    ensures |r| == ErrorCount(infos)
  {
    if infos == [] then []
    else
      var last := infos[|infos| - 1];
      ErrorNotifications(infos[..|infos| - 1]) + (if last.status.Error? then [ErrorLine(last)] else [])
  }

  function SummaryLine(discovered: nat, errors: nat): string {
    "plugins: " + Finder.Decimal(discovered) + " discovered, " + Finder.Decimal(errors) + " errors"
  }

  /**
   * `plugins: D discovered, E errors`, where D is the runtimes not in error
   * (the count never saturates) and E the error lines reported after it.
   */
  function SummaryNotification(infos: seq<RuntimeInfo>): (r: string)
    ensures r == SummaryLine(|infos| - |ErrorNotifications(infos)|, |ErrorNotifications(infos)|)
  {
    var errors := ErrorCount(infos);
    var discovered := if |infos| >= errors then |infos| - errors else 0;
    SummaryLine(discovered, errors)
  }

  /** Nothing with no plugins; otherwise the summary, then each error. */
  function StartupNotifications(infos: seq<RuntimeInfo>): (r: seq<string>)
    ensures r == [] <==> infos == []
    ensures infos != [] ==>
      |r| == 1 + ErrorCount(infos) && r[0] == SummaryNotification(infos) && r[1..] == ErrorNotifications(infos)
  {
    if infos == [] then [] else [SummaryNotification(infos)] + ErrorNotifications(infos)
  }

  function StatusText(s: PluginStatus): string {
    match s
    case Discovered => "discovered"
    case Loaded => "loaded"
    case Error(e) => "error: " + e
  }

  function ListRow(info: RuntimeInfo): string {
    "plugin " + DisplayName(info.id, info.manifest) + " [" + StatusText(info.status) + "] (" + info.rootDir + ")"
  }

  /** One row per runtime, in the manager's order. */
  function ListRows(infos: seq<RuntimeInfo>): seq<string> {
    seq(|infos|, i requires 0 <= i < |infos| => ListRow(infos[i]))
  }

  const NoneConfigured: string := "plugins: none configured"

  function ListNotifications(infos: seq<RuntimeInfo>): seq<string> {
    if infos == [] then [NoneConfigured] else SortBy(ListRows(infos), LexLe)
  }

  lemma LexLeTotalPreorder()
    ensures TotalPreorder(LexLe)
  {
    forall a: string, b: string ensures LexLe(a, b) || LexLe(b, a) {
      LexLeTotal(a, b);
    }
    forall a: string, b: string, c: string | LexLe(a, b) && LexLe(b, c) ensures LexLe(a, c) {
      LexLeTrans(a, b, c);
    }
  }

  /** The `plugins.list` (or `pl.list`) command: the single "none configured" line, or one row per runtime in sorted order. */
  lemma ListNotificationsSpec(infos: seq<RuntimeInfo>)
    ensures infos == [] ==> ListNotifications(infos) == [NoneConfigured]
    ensures infos != [] ==>
      var r := ListNotifications(infos);
      && Sorted(r, LexLe)
      && multiset(r) == multiset(ListRows(infos))
      && |r| == |infos|
  {
    if infos != [] {
      LexLeTotalPreorder();
      SortBySorted(ListRows(infos), LexLe);
    }
  }

  /** Every command name the manifests declare, with repeats, in order. */
  function CommandNames(infos: seq<RuntimeInfo>): seq<string> {
    if infos == [] then []
    else
      var last := infos[|infos| - 1];
      CommandNames(infos[..|infos| - 1]) +
      (match last.manifest
       case None => []
       case Some(m) => NamesOf(m.commands))
  }

  function NamesOf(commands: seq<CommandDef>): (r: seq<string>)
    ensures |r| == |commands| && forall i :: 0 <= i < |commands| ==> r[i] == commands[i].name
  {
    if commands == [] then [] else NamesOf(commands[..|commands| - 1]) + [commands[|commands| - 1].name]
  }

  /** A runtime that supports a command has that command among the listed names. */
  lemma {:induction false} SupportedCommandListed(infos: seq<RuntimeInfo>, i: nat, command: string)
    requires i < |infos| && Supports(infos[i].manifest, command)
    ensures command in CommandNames(infos)
  {
    var init := infos[..|infos| - 1];
    if i < |infos| - 1 {
      assert init[i] == infos[i];
      SupportedCommandListed(init, i, command);
    } else {
      var cmds := infos[i].manifest.value.commands;
      var j :| 0 <= j < |cmds| && cmds[j].name == command;
      assert NamesOf(cmds)[j] == command;
    }
  }

  const NoCommands: string := "plugin commands: none discovered"

  /** The distinct command names, sorted. */
  function SortedCommands(infos: seq<RuntimeInfo>): seq<string> {
    SortBy(Dedup(CommandNames(infos)), LexLe)
  }

  function CommandNotifications(infos: seq<RuntimeInfo>): seq<string> {
    var names := SortedCommands(infos);
    if names == [] then [NoCommands] else ["plugin commands: " + Join(names, ", ")]
  }

  /** The plugin section of `help` lists each declared command name exactly once, in sorted order. */
  lemma CommandNotificationsSpec(infos: seq<RuntimeInfo>)
    ensures var names := SortedCommands(infos);
      && NoDup(names)
      && Sorted(names, LexLe)
      && (forall c :: c in names <==> c in CommandNames(infos))
  {
    var d := Dedup(CommandNames(infos));
    var names := SortedCommands(infos);
    LexLeTotalPreorder();
    SortBySorted(d, LexLe);
    NoDupPermutation(d, names);
    forall c ensures c in names <==> c in d {
      assert c in names <==> c in multiset(names);
      assert c in d <==> c in multiset(d);
    }
  }

  /** The "none discovered" line appears exactly when no manifest declares a command. */
  lemma CommandNotificationsEmpty(infos: seq<RuntimeInfo>)
    ensures CommandNames(infos) == [] ==> CommandNotifications(infos) == [NoCommands]
    ensures CommandNames(infos) != [] ==>
      CommandNotifications(infos) == ["plugin commands: " + Join(SortedCommands(infos), ", ")] &&
      SortedCommands(infos) != []
  {
    if CommandNames(infos) != [] {
      assert CommandNames(infos)[0] in Dedup(CommandNames(infos));
    }
  }
}
