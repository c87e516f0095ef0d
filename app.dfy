/**
 * The editor session: one active buffer, the other open tabs, the file
 * tree, the finder and backlinks panels, the plugin manager and the
 * status-bar notifications, changed one message at a time by `Update`.
 *
 * The outside world is explicit: `now` is the clock in milliseconds, a
 * `Disk` is what the file system holds when a message is handled, writes
 * go to ghost logs, and messages sent to the event channel go to `outbox`.
 */
module Editor {
  import opened Wrappers
  import opened Text
  import TextLines
  import opened Paths
  import opened Cursors
  import opened Modes
  import opened Buffers
  import Markdown
  import Links
  import Finder
  import opened FileTrees
  import Plugins
  import CommandLine
  import opened Events
  import opened Sorting

  /** The status bar keeps at most this many notifications. */
  const NotificationCap: nat := 8
  /** A first `q` with unsaved work arms the quit latch for this long. */
  const QuitConfirmMs: nat := 2000
  /** A change event this soon after our own save of the same file is ignored. */
  const RecentSaveMs: nat := 1200

  /**
   * The settings the session reads: the vault and scratch note, the
   * auto-save delay, the scroll margin, the result cap of the finder and the
   * plugin settings (configured plugins, home directory, plugin base directory).
   */
  datatype Config = Config(
    vault: Path,
    scratch: Path,
    autoSaveDebounceMs: nat,
    scrollOff: nat,
    maxResults: nat,
    plugins: seq<Plugins.PluginConfig>,
    home: Option<string>,
    pluginBase: PathText)

  /**
   * The file system as a message finds it: the vault's directory tree (as
   * it stands once a note the message creates is written), the paths that exist, the text of every readable file, the canonical form of
   * paths that can be canonicalised, and what reading a plugin manifest gives.
   */
  datatype Disk = Disk(
    tree: seq<Entry>,
    existing: set<Path>,
    contents: map<Path, string>,
    canon: map<Path, Path>,
    manifests: PathText -> Result<Plugins.Manifest, string>)

  /** Why a message could not be handled: a file that could not be read. */
  datatype Failure = ReadFailed(path: Path)

  type Outcome = Result<Unit, Failure>

  /** The rendered editor lines for the window `top..bottom`, and whether they are stale. */
  datatype RenderCache = RenderCache(top: nat, bottom: nat, lines: seq<Markdown.RenderedLine>, dirty: bool)

  // ---------------------------------------------------------------------
  // Notifications

  /** The queue after dropping from its front until at most `NotificationCap` remain. */
  function Capped(q: seq<string>): (r: seq<string>)
    ensures |r| == Min(|q|, NotificationCap)
    ensures r == q[|q| - |r|..]
  {
    if |q| > NotificationCap then q[|q| - NotificationCap..] else q
  }

  /** Pushing each of `notes` in turn. */
  function PushedAll(q: seq<string>, notes: seq<string>): (r: seq<string>)
    decreases |notes|
  {
    if notes == [] then q else PushedAll(Capped(q + [notes[0]]), notes[1..])
  }

  /** Pushing one note onto a queue within the cap keeps it within the cap and ends with that note. */
  lemma CappedPushLast(q: seq<string>, note: string)
    requires |q| <= NotificationCap
    ensures 1 <= |Capped(q + [note])| <= NotificationCap
    ensures Capped(q + [note])[|Capped(q + [note])| - 1] == note
  {
    var r := Capped(q + [note]);
    assert r[|r| - 1] == (q + [note])[|q|];
  }

  /**
   * After pushing a non-empty list onto a queue already within the cap, the
   * queue is within the cap and ends with the last note pushed.
   */
  lemma {:induction false} PushedAllNewest(q: seq<string>, notes: seq<string>)
    requires |q| <= NotificationCap && notes != []
    ensures 1 <= |PushedAll(q, notes)| <= NotificationCap
    ensures PushedAll(q, notes)[|PushedAll(q, notes)| - 1] == notes[|notes| - 1]
    decreases |notes|
  {
    var next := Capped(q + [notes[0]]);
    var rest := notes[1..];
    CappedPushLast(q, notes[0]);
    assert PushedAll(q, notes) == PushedAll(next, rest);
    if rest != [] {
      PushedAllNewest(next, rest);
      assert rest[|rest| - 1] == notes[|notes| - 1];
    } else {
      assert PushedAll(next, rest) == next;
    }
  }
  // ---------------------------------------------------------------------
  // Built-in commands

  const UsageLine: string := "usage: plugin <command> (alias: p <command>)"
  const NoErrorsLine: string := "plugins: no errors"
  const ReloadedLine: string := "plugins: reloaded"

  /** The fixed part of the `help` answer, before the plugin commands. */
  const HelpLines: seq<string> := [
    "built-ins:",
    "  help",
    "  plugin <command> (alias: p <command>)",
    "    examples: plugin word_count | plugin \"word count\"",
    "  plugins (alias: pl)",
    "  plugins.list (alias: pl.list)",
    "  plugins.errors (alias: pl.errors)",
    "  plugins.reload (alias: pl.reload)"]

  /** The routes answered from the manager's report alone, without running or rebuilding anything. */
  predicate IsReport(route: CommandLine.Route) {
    route in {CommandLine.Usage, CommandLine.Help, CommandLine.Summary, CommandLine.ListPlugins, CommandLine.Errors}
  }

  /**
   * The notifications a report route answers with, given the runtimes'
   * report. Every report answers with at least one line, and `plugins.errors`
   * says "no errors" exactly when no runtime is in error.
   */
  function ReportNotes(route: CommandLine.Route, infos: seq<Plugins.RuntimeInfo>): (r: seq<string>)
    requires IsReport(route)
    ensures r != []
    ensures route == CommandLine.Help ==> |r| == |HelpLines| + 1 && r[..|HelpLines|] == HelpLines
    ensures route == CommandLine.Errors ==> (r == [NoErrorsLine] <==> Plugins.ErrorCount(infos) == 0)
    ensures route == CommandLine.Errors && Plugins.ErrorCount(infos) > 0 ==> |r| == Plugins.ErrorCount(infos)
  {
    match route
    case Usage => [UsageLine]
    case Help =>
      assert |Plugins.CommandNotifications(infos)| == 1;
      HelpLines + Plugins.CommandNotifications(infos)
    case Summary => [Plugins.SummaryNotification(infos)]
    case ListPlugins =>
      Plugins.ListNotificationsSpec(infos);
      Plugins.ListNotifications(infos)
    case Errors =>
      var errors := Plugins.ErrorNotifications(infos);
      if errors == [] then [NoErrorsLine]
      else
        ErrorLinesPrefixed(infos);
        assert errors[0][..7] == "plugin " && errors[0][6] == ' ';
        assert NoErrorsLine[6] == 's';
        errors
  }

  /** Every error line names its plugin first. */
  lemma {:induction false} ErrorLinesPrefixed(infos: seq<Plugins.RuntimeInfo>)
    ensures forall i :: 0 <= i < |Plugins.ErrorNotifications(infos)| ==>
      |Plugins.ErrorNotifications(infos)[i]| >= 7 && Plugins.ErrorNotifications(infos)[i][..7] == "plugin "
  {
    if infos != [] {
      ErrorLinesPrefixed(infos[..|infos| - 1]);
    }
  }

  /** `plugins.reload`: the reload line, the new summary, then each error. */
  function ReloadNotes(infos: seq<Plugins.RuntimeInfo>): (r: seq<string>)
    ensures |r| == 2 + Plugins.ErrorCount(infos) && r[0] == ReloadedLine
    ensures infos != [] ==> r[1..] == Plugins.StartupNotifications(infos)
  {
    [ReloadedLine, Plugins.SummaryNotification(infos)] + Plugins.ErrorNotifications(infos)
  }


  // ---------------------------------------------------------------------
  // Saving

  /** A buffer right after it was handed to the writer. */
  function Saved(b: BufferState): (s: BufferState)
    ensures !s.Pending() && s.text == b.text && s.path == b.path && s.cursor == b.cursor
  {
    b.(dirty := false, saveDebounce := None)
  }

  /** The inactive buffers with unsaved work (`pending_write_count`'s filter). */
  function PendingPaths(m: map<Path, BufferState>): (r: set<Path>)
    ensures forall p :: p in r <==> p in m && m[p].Pending()
  {
    set p | p in m && m[p].Pending()
  }

  /** The inactive buffers whose auto-save deadline has come (`handle_tick`'s filter). */
  function DuePaths(m: map<Path, BufferState>, now: int): (r: set<Path>)
    ensures forall p :: p in r <==> p in m && m[p].saveDebounce.Some? && now >= m[p].saveDebounce.value
  {
    set p | p in m && m[p].saveDebounce.Some? && now >= m[p].saveDebounce.value
  }

  /** `m` after saving the buffers in `done`. */
  function SaveEach(m: map<Path, BufferState>, done: set<Path>): map<Path, BufferState> {
    map p | p in m :: if p in done then Saved(m[p]) else m[p]
  }

  /** The texts handed to the writer when saving the buffers in `done`. */
  function Written(m: map<Path, BufferState>, done: set<Path>): map<Path, string> {
    map p | p in m && p in done :: m[p].text
  }

  /** Saving every pending buffer leaves none pending. */
  lemma SaveEachClears(m: map<Path, BufferState>)
    ensures PendingPaths(SaveEach(m, PendingPaths(m))) == {}
  {
    var s := SaveEach(m, PendingPaths(m));
    forall p | p in s
      ensures !s[p].Pending()
    {
    }
  }

  /** Every inactive tab sits under its own path and has a valid cursor. */
  ghost predicate TabsValid(m: map<Path, BufferState>) {
    forall p :: p in m ==> m[p].path == Some(p) && m[p].Valid()
  }

  /** Saving leaves the tabs valid. */
  lemma SaveEachValid(m: map<Path, BufferState>, done: set<Path>)
    requires TabsValid(m)
    ensures TabsValid(SaveEach(m, done))
  {
    forall p | p in SaveEach(m, done)
      ensures SaveEach(m, done)[p].path == Some(p) && SaveEach(m, done)[p].Valid()
    {
      assert SaveEach(m, done)[p].text == m[p].text && SaveEach(m, done)[p].cursor == m[p].cursor;
    }
  }

  /** Saving one more buffer. */
  lemma SaveEachStep(m: map<Path, BufferState>, done: set<Path>, p: Path, log: map<Path, string>)
    requires p in m
    ensures SaveEach(m, done + {p}) == SaveEach(m, done)[p := Saved(m[p])]
    ensures log + Written(m, done + {p}) == (log + Written(m, done))[p := m[p].text]
  {
  }

  /** Saving keeps every buffer under its own path. */
  lemma SaveEachPaths(m: map<Path, BufferState>, done: set<Path>)
    requires forall p :: p in m ==> m[p].path == Some(p)
    ensures forall p :: p in SaveEach(m, done) ==> SaveEach(m, done)[p].path == Some(p)
  {
  }

  // ---------------------------------------------------------------------
  // Small steps

  /** `String::pop`: the text without its last character. */
  function Pop(s: string): (r: string)
    ensures s != [] ==> s == r + [s[|s| - 1]]
    ensures s == [] ==> r == []
  {
    if s == [] then [] else s[..|s| - 1]
  }

  /** `(current + delta).rem_euclid(len)`: the tab `delta` steps away, wrapping around. */
  function WrapIndex(current: nat, delta: int, len: nat): (i: nat)
    requires len > 0
    ensures i < len
    ensures 0 <= current + delta < len ==> i == current + delta
  {
    (current + delta) % len
  }

  /** One step forward from the last tab is the first, one back from the first is the last. */
  lemma WrapIndexEnds(len: nat)
    requires len > 0
    ensures WrapIndex(len - 1, 1, len) == 0
    ensures WrapIndex(0, -1, len) == len - 1
  {
  }

  /** The open tabs without the ones that name the same file as `path`. */
  function Without(tabs: seq<Path>, path: Path, canon: map<Path, Path>): (r: seq<Path>)
    ensures forall t :: t in r <==> t in tabs && !Links.SameFilePath(t, path, canon)
    ensures |r| <= |tabs|
  {
    if tabs == [] then []
    else
      var rest := Without(tabs[1..], path, canon);
      assert forall t :: t in tabs <==> t == tabs[0] || t in tabs[1..];
      if Links.SameFilePath(tabs[0], path, canon) then rest else [tabs[0]] + rest
  }

  /** Closing tabs keeps the tab list free of duplicates. */
  lemma {:induction false} WithoutNoDup(tabs: seq<Path>, path: Path, canon: map<Path, Path>)
    requires NoDup(tabs)
    ensures NoDup(Without(tabs, path, canon))
  {
    if tabs != [] {
      assert NoDup(tabs[1..]) by {
        forall i, j | 0 <= i < j < |tabs[1..]|
          ensures tabs[1..][i] != tabs[1..][j]
        {
          assert tabs[1..][i] == tabs[i + 1] && tabs[1..][j] == tabs[j + 1];
        }
      }
      WithoutNoDup(tabs[1..], path, canon);
      var rest := Without(tabs[1..], path, canon);
      if !Links.SameFilePath(tabs[0], path, canon) {
        assert tabs[0] !in tabs[1..] by {
          forall i | 0 <= i < |tabs[1..]|
            ensures tabs[1..][i] != tabs[0]
          {
            assert tabs[1..][i] == tabs[i + 1];
          }
        }
        NoDupCons(tabs[0], rest);
      }
    }
  }

  lemma NoDupCons(x: Path, s: seq<Path>)
    requires NoDup(s) && x !in s
    ensures NoDup([x] + s)
  {
    forall i, j | 0 <= i < j < |[x] + s|
      ensures ([x] + s)[i] != ([x] + s)[j]
    {
      if i > 0 {
        assert ([x] + s)[i] == s[i - 1];
      }
      assert ([x] + s)[j] == s[j - 1];
    }
  }

  /** Adding a path that is not there keeps the list free of duplicates. */
  lemma NoDupSnoc(s: seq<Path>, x: Path)
    requires NoDup(s) && x !in s
    ensures NoDup(s + [x])
  {
  }

  // ---------------------------------------------------------------------
  // Tabs

  /** A buffer with no file: what `Buffer::new` leaves in the active slot. */
  const EmptyState := BufferState("", None, false, DefaultCursor, DefaultViewport, None)

  /** A buffer just read from `p`. */
  function FileState(p: Path, contents: string): (b: BufferState)
    ensures b.path == Some(p) && b.text == contents && !b.Pending() && b.Valid()
  {
    TextLines.SingleLine(contents);
    BufferState(contents, Some(p), false, DefaultCursor, DefaultViewport, None)
  }

  /** A tab coming back into the active slot takes the configured scroll margin. */
  function Reopened(b: BufferState, scrollOff: nat): (r: BufferState)
    ensures r.text == b.text && r.path == b.path && r.cursor == b.cursor && r.dirty == b.dirty
    ensures r.saveDebounce == b.saveDebounce && r.viewport.topLine == b.viewport.topLine
    ensures r.viewport.scrollOff == scrollOff && r.Valid() == b.Valid()
  {
    b.(viewport := b.viewport.(scrollOff := scrollOff))
  }

  /** The inactive tabs after the active buffer moves out: kept under its path, dropped without one. */
  function Stashed(m: map<Path, BufferState>, active: BufferState): (r: map<Path, BufferState>)
    ensures active.path.Some? ==> r == m[active.path.value := active]
    ensures active.path.None? ==> r == m
  {
    if active.path.Some? then m[active.path.value := active] else m
  }

  /** The position of the first tab naming the same file as `p`. */
  function TabIndex(tabs: seq<Path>, p: Path, canon: map<Path, Path>): (r: Option<nat>)
    ensures r.Some? ==> r.value < |tabs| && Links.SameFilePath(tabs[r.value], p, canon)
    ensures r.Some? ==> forall k :: 0 <= k < r.value ==> !Links.SameFilePath(tabs[k], p, canon)
    ensures r.None? <==> forall t :: t in tabs ==> !Links.SameFilePath(t, p, canon)
  {
    if tabs == [] then None
    else if Links.SameFilePath(tabs[0], p, canon) then Some(0)
    else
      assert forall t :: t in tabs <==> t == tabs[0] || t in tabs[1..];
      match TabIndex(tabs[1..], p, canon)
      case None => None
      case Some(i) => Some(i + 1)
  }

  /** The tab list after opening `p`: `p` is added at the end unless a tab already names that file. */
  function AddedTab(tabs: seq<Path>, p: Path, canon: map<Path, Path>): (r: seq<Path>)
    ensures p in tabs ==> r == tabs
  {
    if TabIndex(tabs, p, canon).Some? then tabs else tabs + [p]
  }

  /** Opening a tab keeps the list free of duplicates, and afterwards a tab names the opened file. */
  lemma AddedTabNoDup(tabs: seq<Path>, p: Path, canon: map<Path, Path>)
    requires NoDup(tabs)
    ensures NoDup(AddedTab(tabs, p, canon))
    ensures TabIndex(AddedTab(tabs, p, canon), p, canon).Some?
  {
    if TabIndex(tabs, p, canon).None? {
      assert p !in tabs by {
        if p in tabs {
          assert Links.SameFilePath(p, p, canon);
        }
      }
      NoDupSnoc(tabs, p);
      assert AddedTab(tabs, p, canon)[|tabs|] == p;
      assert Links.SameFilePath(p, p, canon);
    }
  }

  /**
   * Switching from tab `q` to an inactive tab `p` and back again gives `q`
   * its buffer back, and leaves `p` inactive as it was when it left.
   */
  lemma {:induction false} SwitchBackRestores(m: map<Path, BufferState>, active: BufferState, p: Path, scrollOff: nat)
    requires active.path.Some? && active.path.value != p && p in m
    requires m[p].path == Some(p) && m[p].viewport.scrollOff == scrollOff
    requires active.viewport.scrollOff == scrollOff
    ensures var q := active.path.value;
      var there := Stashed(m, active) - {p};
      var next := Reopened(Stashed(m, active)[p], scrollOff);
      && q in Stashed(there, next)
      && Reopened(Stashed(there, next)[q], scrollOff) == active
      && Stashed(there, next) - {q} == m - {q}
  {
    var q := active.path.value;
    var there := Stashed(m, active) - {p};
    var next := Reopened(Stashed(m, active)[p], scrollOff);
    assert next == m[p];
    assert Stashed(there, next) == there[p := m[p]];
    assert Stashed(there, next) - {q} == m - {q};
  }

  // ---------------------------------------------------------------------
  // External changes

  /** The inactive tabs that do not name the same file as `path`. */
  function DropStale(m: map<Path, BufferState>, path: Path, canon: map<Path, Path>): (r: map<Path, BufferState>)
    ensures forall p :: p in r <==> p in m && !Links.SameFilePath(p, path, canon)
    ensures forall p :: p in r ==> r[p] == m[p]
  {
    map p | p in m && !Links.SameFilePath(p, path, canon) :: m[p]
  }

  /**
   * The active buffer after its file changed on disk: the new text, clean,
   * with the old cursor clamped into it and the old window (with the
   * configured margin) scrolled to the cursor.
   */
  function Reloaded(path: Path, contents: string, cursor: CursorState, viewport: Viewport, scrollOff: nat): (b: BufferState)
    ensures b.text == contents && b.path == Some(path) && !b.Pending() && b.Valid()
    ensures b.cursor == Clamp(contents, cursor)
    ensures b.viewport.topLine <= b.cursor.row
  {
    var c := Clamp(contents, cursor);
    var vp := viewport.(scrollOff := scrollOff);
    InLineOffset(contents, c.row, c.col);
    BufferState(contents, Some(path), false, c, vp.(topLine := ScrollTop(c.row, vp)), None)
  }

  // ---------------------------------------------------------------------
  // Finder

  /**
   * The results `refresh_finder_results` computes over the vault's files:
   * file mode lists the files (first `limit`) or ranks the fuzzy matches;
   * content mode finds nothing for an empty query and otherwise the matching lines.
   */
  function FinderResults(mode: Finder.FinderMode, files: seq<Path>, contents: map<Path, string>,
                         query: string, score: Finder.Scorer, limit: nat): (r: seq<Finder.FinderResult>)
    ensures forall i :: 0 <= i < |r| ==> (r[i].line.Some? <==> mode == Finder.Content)
  {
    match mode
    case Files =>
      if query == [] then Finder.ListFiles(files, limit)
      else
        Finder.FuzzyFilesRanked(files, query, score, limit);
        Finder.FuzzyFiles(files, query, score, limit)
    case Content =>
      Finder.ContentResultsLines(files, contents, query, limit);
      Finder.ContentResults(files, contents, query, limit)
  }

  /** File mode stays within the cap; content mode stays within it too, except that a cap of 0 can still give one hit. */
  lemma FinderResultsCapped(mode: Finder.FinderMode, files: seq<Path>, contents: map<Path, string>,
                            query: string, score: Finder.Scorer, limit: nat)
    ensures mode == Finder.Files ==> |FinderResults(mode, files, contents, query, score, limit)| <= limit
    ensures mode == Finder.Content ==>
      |FinderResults(mode, files, contents, query, score, limit)| <= (if limit == 0 then 1 else limit)
    ensures query == [] && mode == Finder.Content ==> FinderResults(mode, files, contents, query, score, limit) == []
  {
    if mode == Finder.Files && query != [] {
      Finder.FuzzyFilesRanked(files, query, score, limit);
    }
  }

  /**
   * The disk once note `p` is created in the vault: its missing parent
   * directories are made and it joins the vault's snapshot, and `text` is
   * written to it unless it already exists.
   */
  function WithNote(disk: Disk, vault: Path, p: Path, text: string): (d: Disk)
    ensures p in d.existing && d.canon == disk.canon
    ensures d.tree == TreeWith(vault, disk.tree, p, false)
    ensures p !in disk.existing ==> p in d.contents && d.contents[p] == text
    ensures p in disk.existing ==> d.existing == disk.existing && d.contents == disk.contents
    ensures forall q :: q != p ==> (q in d.contents <==> q in disk.contents) && (q in d.existing <==> q in disk.existing)
    ensures forall q :: q != p && q in disk.contents ==> d.contents[q] == disk.contents[q]
  {
    var placed := disk.(tree := TreeWith(vault, disk.tree, p, false));
    if p in disk.existing then placed
    else placed.(existing := disk.existing + {p}, contents := disk.contents[p := text])
  }

  /** The creation log once note `p` is created: its heading text is logged unless `p` already exists. */
  function LogCreated(log: map<Path, string>, p: Path, existing: set<Path>): map<Path, string> {
    if p in existing then log else log[p := NewNoteText(p)]
  }

  // ---------------------------------------------------------------------
  // WikiLinks

  /** The target of the WikiLink under the cursor at (`row`, `col`) of `text`, if any. */
  ghost function LinkAtCursor(text: string, row: nat, col: nat): Option<string> {
    if row >= TextLines.LineCount(text) then None
    else
      var line := TextLines.LineText(text, row);
      Links.CoveringTarget(line, Links.WikiTokens(line), col)
  }

  /** Where `confirm_create_wikilink` puts a note for an unresolved link: `<link>.md` in the vault. */
  function NewNotePath(vault: Path, link: string): Path {
    JoinStr(vault, link + ".md")
  }

  // ---------------------------------------------------------------------
  // Normal-mode keys

  /** What a key does in Normal mode. */
  datatype NormalAct =
    | FollowLinkKey
    | ToggleSidebarKey
    | ToggleBacklinksKey
    | LeaderKey
    | QuitKey
    | ForceQuitKey
    | InsertKey
    | CommandKey
    | TabKey(delta: int)
    | FindKey(searchMode: Finder.FinderMode)
    | MoveKey(dir: Direction)
    | SaveKey
    | NoKey

  /**
   * `handle_key_normal`'s dispatch, given the pending leader key: `g` then
   * `d` follows the link under the cursor, Ctrl+e and Ctrl+b toggle the
   * panels, and the rest are matched in the source's order.
   */
  function NormalAction(key: KeyEvent, pending: Option<char>): (a: NormalAct)
    ensures pending == Some('g') && key.code == Char('d') ==> a == FollowLinkKey
    ensures a == FollowLinkKey ==> pending == Some('g') && key.code == Char('d')
    ensures a.MoveKey? ==> key.code in {Char('h'), Char('j'), Char('k'), Char('l'), Char('0'), Char('$'),
                                        ArrowLeft, ArrowDown, ArrowUp, ArrowRight}
    ensures a in {ToggleSidebarKey, ToggleBacklinksKey, SaveKey} || a.TabKey? ==> key.mods.control
    ensures a == LeaderKey ==> key.code == Char('g') && key.mods.None()
  {
    if pending == Some('g') && key.code == Char('d') then FollowLinkKey
    else if key.IsCtrl('e') then ToggleSidebarKey
    else if key.IsCtrl('b') then ToggleBacklinksKey
    else
      match key.code
      case Char(c) =>
        if c == 'g' && key.mods.None() then LeaderKey
        else if c == 'q' then QuitKey
        else if c == 'Q' then ForceQuitKey
        else if c == 'i' then InsertKey
        else if c == ':' then CommandKey
        else if c == 'n' && key.mods.control then TabKey(1)
        else if c == 'p' && key.mods.control then TabKey(-1)
        else if c == '/' then FindKey(Finder.Files)
        else if (c == 'F' || c == 'f') && key.mods.control && key.mods.shift then FindKey(Finder.Content)
        else if c == 'h' then MoveKey(Left)
        else if c == 'j' then MoveKey(Down)
        else if c == 'k' then MoveKey(Up)
        else if c == 'l' then MoveKey(Right)
        else if c == '0' then MoveKey(LineStart)
        else if c == '$' then MoveKey(LineEnd)
        else if c == 's' && key.mods.control then SaveKey
        else NoKey
      case ArrowLeft => MoveKey(Left)
      case ArrowDown => MoveKey(Down)
      case ArrowUp => MoveKey(Up)
      case ArrowRight => MoveKey(Right)
      case _ => NoKey
  }

  /** Vim motions: `h`/`j`/`k`/`l` do what the arrow keys do, whatever else is pending. */
  lemma MotionKeys(mods: Modifiers, pending: Option<char>)
    ensures NormalAction(KeyEvent(Char('h'), mods), pending) == NormalAction(KeyEvent(ArrowLeft, mods), pending) == MoveKey(Left)
    ensures NormalAction(KeyEvent(Char('j'), mods), pending) == NormalAction(KeyEvent(ArrowDown, mods), pending) == MoveKey(Down)
    ensures NormalAction(KeyEvent(Char('k'), mods), pending) == NormalAction(KeyEvent(ArrowUp, mods), pending) == MoveKey(Up)
    ensures NormalAction(KeyEvent(Char('l'), mods), pending) == NormalAction(KeyEvent(ArrowRight, mods), pending) == MoveKey(Right)
  {
  }

  /** Without the leader pending, `d` does nothing in Normal mode; after `g` it follows the link. */
  lemma LeaderThenD(mods: Modifiers)
    ensures NormalAction(KeyEvent(Char('d'), mods), None) == NoKey
    ensures NormalAction(KeyEvent(Char('d'), mods), Some('g')) == FollowLinkKey
  {
  }

  // ---------------------------------------------------------------------
  // Cursor moves

  /**
   * `move_cursor` before clamping: Up/Down change the row by one when there
   * is a line that way and go back to the sticky column; Left/Right step one
   * byte within the line and make the new column sticky; LineStart/LineEnd
   * jump to column 0 or `lineLen`, the byte length of the cursor's line.
   */
  function MoveStep(c: CursorState, dir: Direction, lineCount: nat, lineLen: nat): (d: CursorState)
    ensures d.selection == c.selection
  {
    match dir
    case Up => if c.row > 0 then c.(row := c.row - 1, col := c.desiredCol) else c
    case Down => if c.row < SatSub(lineCount, 1) then c.(row := c.row + 1, col := c.desiredCol) else c
    case Left => if c.col > 0 then c.(col := c.col - 1, desiredCol := c.col - 1) else c
    case Right => if c.col < lineLen then c.(col := c.col + 1, desiredCol := c.col + 1) else c
    case LineStart => c.(col := 0, desiredCol := 0)
    case LineEnd => c.(col := lineLen, desiredCol := lineLen)
  }

  /**
   * Horizontal moves stay on the line and inside it, so clamping does not
   * change them; vertical moves change the row by exactly one unless the
   * cursor is already on the first or last line.
   */
  lemma {:induction false} MoveStepInLine(c: CursorState, dir: Direction, lineCount: nat, lineLen: nat)
    requires c.row < lineCount && c.col <= lineLen
    ensures dir.Left? || dir.Right? || dir.LineStart? || dir.LineEnd? ==>
      MoveStep(c, dir, lineCount, lineLen).row == c.row && MoveStep(c, dir, lineCount, lineLen).col <= lineLen
    ensures dir.Up? ==> MoveStep(c, dir, lineCount, lineLen).row == SatSub(c.row, 1)
    ensures dir.Down? ==> MoveStep(c, dir, lineCount, lineLen).row == Min(c.row + 1, lineCount - 1)
  {
  }

  /** Right after Left comes back to the same column, which becomes the sticky one. */
  lemma {:induction false} LeftThenRight(c: CursorState, lineCount: nat, lineLen: nat)
    requires 0 < c.col <= lineLen
    ensures MoveStep(MoveStep(c, Left, lineCount, lineLen), Right, lineCount, lineLen) == c.(desiredCol := c.col)
  {
  }

  /** The row a jump to the 1-based `line` lands on: that line, or the last one. */
  function JumpRow(line: nat, lineCount: nat): (row: nat)
    ensures lineCount > 0 ==> row < lineCount
    ensures 1 <= line <= lineCount ==> row == line - 1
  {
    Min(SatSub(line, 1), SatSub(lineCount, 1))
  }

  // ---------------------------------------------------------------------
  // The session

  class App {
    const config: Config
    /** The fuzzy matcher of the finder. */
    const score: Finder.Scorer
    const fileTree: FileTree

    var mode: Mode
    var buffer: Buffer
    /** The open tabs other than the active one, held by value under their paths. */
    var inactive: map<Path, BufferState>
    var openTabs: seq<Path>
    var sidebarVisible: bool
    var finderMode: Finder.FinderMode
    var finderQuery: string
    var finderResults: seq<Finder.FinderResult>
    var finderSelected: nat
    var commandInput: string
    const pluginManager: Plugins.PluginManager
    var shouldQuit: bool
    /** Messages sent to the event channel, oldest first. */
    var outbox: seq<Msg>
    var notifications: seq<string>
    var renderCache: RenderCache
    var lastSaved: Option<(Path, int)>
    var quitArmed: bool
    var quitUntil: Option<int>
    var pendingKey: Option<char>
    var pendingCreate: Option<Path>
    var backlinksVisible: bool
    var backlinks: seq<Links.BacklinkEntry>
    var backlinksSelected: nat
    /** The last text handed to the writer for each path. */
    ghost var saved: map<Path, string>
    /** Notes created on disk, with the text they were created with. */
    ghost var created: map<Path, string>

    /**
     * Every inactive tab sits under its own path with a valid cursor, the
     * active buffer's path is not among them, no tab is listed twice, the
     * tree shows the vault, both panels select an existing row (or 0 when
     * empty) and the quit latch is armed exactly when it has a deadline.
     * The tree's and the plugin manager's own invariants are kept apart, as
     * `fileTree.Valid()` and `pluginManager.Valid()`, by the members that
     * use them.
     */
    ghost predicate Valid()
      reads this, buffer
    {
      && buffer.Valid()
      && TabsValid(inactive)
      && (buffer.path.Some? ==> buffer.path.value !in inactive)
      && NoDup(openTabs)
      && fileTree.root == config.vault
      && (if finderResults == [] then finderSelected == 0 else finderSelected < |finderResults|)
      && (if backlinks == [] then backlinksSelected == 0 else backlinksSelected < |backlinks|)
      && (quitArmed <==> quitUntil.Some?)
    }

    /** Buffers with unsaved work: the active one and the inactive ones. */
    function PendingWriteCount(): (n: nat)
      reads this, buffer
      ensures n == 0 <==> !buffer.State().Pending() && PendingPaths(inactive) == {}
    {
      (if buffer.dirty || buffer.saveDebounce.Some? then 1 else 0) + |PendingPaths(inactive)|
    }

    /**
     * `App::new`, given the scratch note's buffer, the tree opened at the
     * vault and the plugin manager: Normal mode, no panel open, the
     * plugins' startup messages (`startup`) as the notifications and the scratch note
     * as the only tab.
     */
    constructor (config: Config, score: Finder.Scorer, scratch: Buffer, tree: FileTree, manager: Plugins.PluginManager, startup: seq<string>)
      requires scratch.Valid() && scratch.path == Some(config.scratch)
      requires tree.Valid() && tree.root == config.vault && manager.Valid()
      ensures Valid() && fileTree.Valid() && pluginManager.Valid()
      ensures this.config == config && this.score == score && buffer == scratch
      ensures fileTree == tree && pluginManager == manager
      ensures mode == Normal && inactive == map[] && openTabs == [config.scratch]
      ensures !sidebarVisible && !backlinksVisible && !shouldQuit && !quitArmed
      ensures finderMode == Finder.Files && finderQuery == "" && finderResults == [] && commandInput == ""
      ensures outbox == [] && renderCache.dirty && pendingKey == None && pendingCreate == None
      ensures notifications == startup
      ensures saved == map[] && created == map[]
    {
      this.config := config;
      this.score := score;
      fileTree := tree;
      mode := Normal;
      buffer := scratch;
      inactive := map[];
      openTabs := [config.scratch];
      sidebarVisible := false;
      finderMode := Finder.Files;
      finderQuery := "";
      finderResults := [];
      finderSelected := 0;
      commandInput := "";
      pluginManager := manager;
      shouldQuit := false;
      outbox := [];
      notifications := startup;
      renderCache := RenderCache(0, 0, [], true);
      lastSaved := None;
      quitArmed := false;
      quitUntil := None;
      pendingKey := None;
      pendingCreate := None;
      backlinksVisible := false;
      backlinks := [];
      backlinksSelected := 0;
      saved := map[];
      created := map[];
    }

    // -------------------------------------------------------------------
    // Notifications

    /** `push_notification`: append, then drop the oldest beyond the cap. */
    method PushNotification(message: string)
      modifies this`notifications
      ensures notifications == Capped(old(notifications) + [message])
    {
      var q := notifications + [message];
      ghost var all := q;
      while |q| > NotificationCap
        invariant q == all[|all| - |q|..]
        invariant |all| > NotificationCap ==> |q| >= NotificationCap
        invariant |all| <= NotificationCap ==> q == all
        decreases |q|
      {
        q := q[1..];
      }
      notifications := q;
    }

    /** Pushes each of `notes` in order. */
    method PushAll(notes: seq<string>)
      modifies this`notifications
      ensures notifications == PushedAll(old(notifications), notes)
    {
      var i := 0;
      while i < |notes|
        invariant i <= |notes|
        invariant PushedAll(old(notifications), notes) == PushedAll(notifications, notes[i..])
      {
        var j := i + 1;
        assert notes[i..][1..] == notes[j..];
        PushNotification(notes[i]);
        i := j;
      }
    }

    /** `notes` pushed in order, each past the cap dropping the oldest. */
    method PushNotes(notes: seq<string>)
      requires Valid()
      modifies this`notifications
      ensures Valid() && notifications == PushedAll(old(notifications), notes)
    {
      PushAll(notes);
    }

    // -------------------------------------------------------------------
    // Plugin commands and events

    /** A plugin command run by the manager; its answer is pushed. */
    method RunPluginCommand(name: string, disk: Disk)
      requires Valid() && pluginManager.Valid()
      modifies this`notifications, pluginManager.runtimes.Values
      ensures Valid() && pluginManager.Valid()
      ensures |old(pluginManager.Supporting(name))| == 0 ==>
        notifications == PushedAll(old(notifications), [Plugins.NotFound(name)])
      ensures |old(pluginManager.Supporting(name))| >= 2 ==>
        notifications == PushedAll(old(notifications), [Plugins.Ambiguous(name)])
      ensures |old(pluginManager.Supporting(name))| != 1 ==>
        forall k :: k in pluginManager.runtimes ==> pluginManager.runtimes[k].status == old(pluginManager.runtimes[k].status)
      ensures |old(pluginManager.Supporting(name))| == 1 ==>
        var k := old(pluginManager.Supporting(name))[0];
        var rt := pluginManager.runtimes[k];
        && (forall k' :: k' in pluginManager.runtimes && k' != k ==>
              pluginManager.runtimes[k'].status == old(pluginManager.runtimes[k'].status))
        && (rt.status == Plugins.Loaded <==>
              old(rt.status) == Plugins.Loaded || Components(JoinText(rt.rootDir, rt.manifest.value.entry)) in disk.existing)
        && (rt.status == Plugins.Loaded ==>
              notifications == PushedAll(old(notifications), [Plugins.HandledMessage(Plugins.DisplayName(k, rt.manifest), name)]))
        && (rt.status != Plugins.Loaded ==>
              && rt.status.Error?
              && notifications == PushedAll(old(notifications),
                   ["plugin " + Plugins.DisplayName(k, rt.manifest) + ": " + rt.status.message]))
    {
      var notes := pluginManager.ExecuteCommand(name, disk.existing);
      PushNotes(notes);
    }

    /**
     * `plugins.reload`: a new manager built from the configuration, as at
     * start-up, then its summary and errors after the reload line.
     */
    method ReloadPlugins(disk: Disk)
      requires Valid()
      modifies pluginManager, this`notifications
      ensures Valid() && pluginManager.Valid()
      ensures BuiltFrom(pluginManager, config, disk.manifests)
      ensures notifications == PushedAll(old(notifications), ReloadNotes(pluginManager.Infos()))
    {
      pluginManager.Rebuild(config.plugins, config.home, config.pluginBase, disk.manifests);
      ReportReload();
    }

    /** The reload line, then the manager's summary and errors. */
    method ReportReload()
      requires Valid() && pluginManager.Valid()
      modifies this`notifications
      ensures Valid() && notifications == PushedAll(old(notifications), ReloadNotes(pluginManager.Infos()))
    {
      PushNotes(ReloadNotes(pluginManager.Infos()));
    }

    /**
     * `handle_plugin_command`, routed by `CommandLine.RouteCommand`: a blank
     * line does nothing, the reports answer from the manager's state,
     * `plugins.reload` rebuilds the manager and anything else runs as a
     * plugin command.
     */
    method HandlePluginCommand(command: string, disk: Disk)
      requires Valid() && pluginManager.Valid()
      modifies this`notifications, pluginManager, pluginManager.runtimes.Values
      ensures Valid() && pluginManager.Valid()
      ensures var route := CommandLine.RouteCommand(command);
        route == CommandLine.Ignore ==> notifications == old(notifications) && unchanged(pluginManager)
      ensures var route := CommandLine.RouteCommand(command);
        IsReport(route) ==>
          unchanged(pluginManager)
          && notifications == PushedAll(old(notifications), ReportNotes(route, old(pluginManager.Infos())))
      ensures var route := CommandLine.RouteCommand(command);
        route.RunPlugin? ==>
          && unchanged(pluginManager)
          && (|old(pluginManager.Supporting(route.command))| == 0 ==>
                notifications == PushedAll(old(notifications), [Plugins.NotFound(route.command)]))
          && (|old(pluginManager.Supporting(route.command))| >= 2 ==>
                notifications == PushedAll(old(notifications), [Plugins.Ambiguous(route.command)]))
          && (|old(pluginManager.Supporting(route.command))| != 1 ==>
                forall k :: k in pluginManager.runtimes ==>
                  pluginManager.runtimes[k].status == old(pluginManager.runtimes[k].status))
          && (|old(pluginManager.Supporting(route.command))| == 1 ==>
                var k := old(pluginManager.Supporting(route.command))[0];
                var rt := pluginManager.runtimes[k];
                && (forall k' :: k' in pluginManager.runtimes && k' != k ==>
                      pluginManager.runtimes[k'].status == old(pluginManager.runtimes[k'].status))
                && (rt.status == Plugins.Loaded <==>
                      old(rt.status) == Plugins.Loaded || Components(JoinText(rt.rootDir, rt.manifest.value.entry)) in disk.existing)
                && (rt.status == Plugins.Loaded ==>
                      notifications == PushedAll(old(notifications),
                        [Plugins.HandledMessage(Plugins.DisplayName(k, rt.manifest), route.command)]))
                && (rt.status != Plugins.Loaded ==>
                      && rt.status.Error?
                      && notifications == PushedAll(old(notifications),
                           ["plugin " + Plugins.DisplayName(k, rt.manifest) + ": " + rt.status.message])))
      ensures CommandLine.RouteCommand(command) == CommandLine.Reload ==>
        && BuiltFrom(pluginManager, config, disk.manifests)
        && notifications == PushedAll(old(notifications), ReloadNotes(pluginManager.Infos()))
    {
      var route := CommandLine.RouteCommand(command);
      if route == CommandLine.Ignore {
      } else if IsReport(route) {
        PushNotes(ReportNotes(route, pluginManager.Infos()));
      } else if route.RunPlugin? {
        RunPluginCommand(route.command, disk);
      } else {
        ReloadPlugins(disk);
      }
    }

    /** `handle_plugin_event`: a plugin's notice is pushed, or the render is marked stale. */
    method HandlePluginEvent(action: PluginAction)
      requires Valid()
      modifies this`notifications, this`renderCache
      ensures Valid()
      ensures action.Notify? ==>
        notifications == Capped(old(notifications) + [action.message]) && renderCache == old(renderCache)
      ensures action.RequestRedraw? ==> notifications == old(notifications) && renderCache.dirty
    {
      match action
      case Notify(message) => PushNotes([message]);
      case RequestRedraw => MarkRenderDirty();
    }

    // -------------------------------------------------------------------
    // Rendering the editor

    /** The first line of the editor window. */
    function WindowTop(): nat
      reads this, buffer
    {
      buffer.viewport.topLine
    }

    /** One past the last line of a window `areaHeight` rows tall, cut at the end of the text. */
    function WindowBottom(areaHeight: nat): (bottom: nat)
      reads this, buffer
      ensures bottom <= buffer.LineCount() && bottom <= WindowTop() + areaHeight
    {
      Min(WindowTop() + areaHeight, buffer.LineCount())
    }

    /** The cached lines are stale, or were built for another window. */
    predicate NeedsRebuild(areaHeight: nat)
      reads this, buffer
    {
      renderCache.dirty || renderCache.top != WindowTop() || renderCache.bottom != WindowBottom(areaHeight)
    }

    /**
     * `render_editor`'s cache: when stale or built for another window, the
     * window is rendered afresh, each line exactly as a pass over the whole
     * note from its first line would render it; otherwise the cache is
     * reused as it is. Either way the cache then fits the window, so a
     * second call with nothing changed in between rebuilds nothing.
     */
    method RenderEditor(areaHeight: nat) returns (lines: seq<Markdown.RenderedLine>)
      requires Valid()
      modifies this`renderCache
      ensures Valid() && !NeedsRebuild(areaHeight) && lines == renderCache.lines
      ensures !old(NeedsRebuild(areaHeight)) ==> renderCache == old(renderCache)
      ensures old(NeedsRebuild(areaHeight)) ==> WindowRendered(lines, buffer.text, WindowTop(), WindowBottom(areaHeight))
    {
      var top := WindowTop();
      var bottom := WindowBottom(areaHeight);
      if NeedsRebuild(areaHeight) {
        var rendered := RenderWindowOf(buffer.text, top, bottom);
        SetRenderCache(RenderCache(top, bottom, rendered, false));
      }
      lines := renderCache.lines;
    }

    /** The render cache replaced by `c`. */
    method SetRenderCache(c: RenderCache)
      requires Valid()
      modifies this`renderCache
      ensures Valid() && renderCache == c
    {
      renderCache := c;
    }

    // -------------------------------------------------------------------
    // Saving

    /** `schedule_auto_save`: (re)start the active buffer's auto-save countdown. */
    method ScheduleAutoSave(now: int)
      modifies buffer`saveDebounce
      ensures buffer.saveDebounce == Some(now + config.autoSaveDebounceMs)
    {
      buffer.saveDebounce := Some(now + config.autoSaveDebounceMs);
    }

    /** `save_active_buffer_at_path`: clears the active buffer's flags and writes its text to `path`. */
    method SaveActiveAtPath(path: Path, now: int)
      modifies buffer`saveDebounce, buffer`dirty, this`lastSaved, this`saved
      ensures !buffer.dirty && buffer.saveDebounce == None
      ensures saved == old(saved)[path := buffer.text] && lastSaved == Some((path, now))
    {
      buffer.saveDebounce := None;
      buffer.dirty := false;
      lastSaved := Some((path, now));
      saved := saved[path := buffer.text];
    }

    /** `save_buffer`: saves the active buffer when it has a path. */
    method SaveBuffer(now: int)
      modifies buffer`saveDebounce, buffer`dirty, this`lastSaved, this`saved
      ensures buffer.path.None? ==> unchanged(buffer) && unchanged(this)
      ensures buffer.path.Some? ==>
        !buffer.dirty && buffer.saveDebounce == None
        && saved == old(saved)[buffer.path.value := buffer.text] && lastSaved == Some((buffer.path.value, now))
    {
      if buffer.path.None? {
        return;
      }
      SaveActiveAtPath(buffer.path.value, now);
    }

    /** `save_inactive_buffer`: clears the flags of the tab under `path` and writes its text. */
    method SaveInactive(path: Path)
      requires forall p :: p in inactive ==> inactive[p].path == Some(p)
      modifies this`inactive, this`saved
      ensures path in old(inactive) ==>
        inactive == old(inactive)[path := Saved(old(inactive)[path])]
        && saved == old(saved)[path := old(inactive)[path].text]
      ensures path !in old(inactive) ==> inactive == old(inactive) && saved == old(saved)
    {
      if path !in inactive {
        return;
      }
      var b := inactive[path];
      if b.path.None? {
        return;
      }
      inactive := inactive[path := Saved(b)];
      saved := saved[b.path.value := b.text];
    }

    /** Saves the inactive tabs under `due`, in whatever order the map hands them out. */
    method SaveInactiveSet(due: set<Path>)
      requires forall p :: p in inactive ==> inactive[p].path == Some(p)
      requires due <= inactive.Keys
      modifies this`inactive, this`saved
      ensures inactive == SaveEach(old(inactive), due)
      ensures saved == old(saved) + Written(old(inactive), due)
    {
      var todo := due;
      ghost var m := inactive;
      ghost var log := saved;
      assert SaveEach(m, {}) == m;
      assert log + Written(m, {}) == log;
      while todo != {}
        invariant todo <= due
        invariant inactive == SaveEach(m, due - todo)
        invariant forall p :: p in inactive ==> inactive[p].path == Some(p)
        invariant saved == log + Written(m, due - todo)
        decreases |todo|
      {
        var p :| p in todo;
        ghost var done := due - todo;
        SaveEachStep(m, done, p, log);
        assert due - (todo - {p}) == done + {p};
        SaveInactive(p);
        SaveEachPaths(m, done + {p});
        todo := todo - {p};
      }
    }
  
    /**
     * What `save_all_buffers` leaves, given the active buffer's state
     * `before`, the stored buffers and the logs before: the active buffer is
     * saved when it has a path and unsaved work, every stored buffer with
     * unsaved work is saved, their texts join the `saved` log, and only a
     * pathless active buffer can still be pending.
     */
    ghost predicate AllSaved(now: int, before: BufferState, inactive0: map<Path, BufferState>,
                             saved0: map<Path, string>, lastSaved0: Option<(Path, int)>)
      reads this, buffer
    {
      var active := before.path.Some? && before.Pending();
      var stored := PendingPaths(inactive0);
      && inactive == SaveEach(inactive0, stored)
      && buffer.State() == (if active then Saved(before) else before)
      && saved == (if active then saved0[before.path.value := before.text] else saved0) + Written(inactive0, stored)
      && lastSaved == (if active then Some((before.path.value, now)) else lastSaved0)
      && PendingWriteCount() == (if buffer.path.None? && buffer.State().Pending() then 1 else 0)
    }

    /**
     * `save_all_buffers`: saves the active buffer when it has a path and
     * unsaved work, then every inactive tab with unsaved work; afterwards
     * only a pathless active buffer can still be pending.
     */
    method SaveAllBuffers(now: int)
      requires Valid()
      modifies buffer`saveDebounce, buffer`dirty, this`lastSaved, this`saved, this`inactive
      ensures Valid()
      ensures inactive == SaveEach(old(inactive), PendingPaths(old(inactive)))
      ensures old(buffer.path.Some? && buffer.State().Pending()) ==>
        !buffer.dirty && buffer.saveDebounce == None
        && saved == old(saved)[buffer.path.value := buffer.text] + Written(old(inactive), PendingPaths(old(inactive)))
      ensures !old(buffer.path.Some? && buffer.State().Pending()) ==>
        unchanged(buffer) && saved == old(saved) + Written(old(inactive), PendingPaths(old(inactive)))
      ensures PendingWriteCount() == (if buffer.path.None? && buffer.State().Pending() then 1 else 0)
      ensures AllSaved(now, old(buffer.State()), old(inactive), old(saved), old(lastSaved))
    {
      if buffer.path.Some? && (buffer.dirty || buffer.saveDebounce.Some?) {
        SaveActiveAtPath(buffer.path.value, now);
      }
      SaveEachClears(inactive);
      SaveEachValid(inactive, PendingPaths(inactive));
      SaveInactiveSet(PendingPaths(inactive));
    }

    /** The quit latch lapses once its deadline has come. */
    method ExpireQuitLatch(now: int)
      modifies this`quitArmed, this`quitUntil
      ensures old(quitUntil).Some? && now >= old(quitUntil).value ==> !quitArmed && quitUntil == None
      ensures !(old(quitUntil).Some? && now >= old(quitUntil).value) ==>
        quitArmed == old(quitArmed) && quitUntil == old(quitUntil)
    {
      if quitUntil.Some? && now >= quitUntil.value {
        quitArmed := false;
        quitUntil := None;
      }
    }

    /** The active buffer is saved once its auto-save deadline has come, if it has a path. */
    method SaveActiveIfDue(now: int)
      modifies buffer`saveDebounce, buffer`dirty, this`lastSaved, this`saved
      ensures var due := old(buffer.saveDebounce).Some? && now >= old(buffer.saveDebounce).value && buffer.path.Some?;
        && (due ==> && !buffer.dirty && buffer.saveDebounce == None && saved == old(saved)[buffer.path.value := buffer.text]
                    && lastSaved == Some((buffer.path.value, now)))
        && (!due ==> unchanged(buffer) && saved == old(saved) && lastSaved == old(lastSaved))
      ensures var due := old(buffer.saveDebounce).Some? && now >= old(buffer.saveDebounce).value && buffer.path.Some?;
        buffer.State() == (if due then Saved(old(buffer.State())) else old(buffer.State()))
    {
      if buffer.saveDebounce.Some? && now >= buffer.saveDebounce.value {
        SaveBuffer(now);
      }
    }

    /**
     * What `handle_tick` leaves, given the active buffer's state `before`,
     * the stored buffers, the logs and the quit latch before: the latch
     * lapses at its deadline and is kept before it; the active buffer is
     * saved when its deadline has come and it has a path; every stored
     * buffer whose deadline has come is saved; their texts join the log.
     */
    ghost predicate TickDone(now: int, before: BufferState, inactive0: map<Path, BufferState>,
                             saved0: map<Path, string>, lastSaved0: Option<(Path, int)>,
                             armed0: bool, until0: Option<int>)
      reads this, buffer
    {
      var lapsed := until0.Some? && now >= until0.value;
      var due := before.saveDebounce.Some? && now >= before.saveDebounce.value && before.path.Some?;
      var stored := DuePaths(inactive0, now);
      && (lapsed ==> !quitArmed && quitUntil == None)
      && (!lapsed ==> quitArmed == armed0 && quitUntil == until0)
      && buffer.State() == (if due then Saved(before) else before)
      && inactive == SaveEach(inactive0, stored)
      && saved == (if due then saved0[before.path.value := before.text] else saved0) + Written(inactive0, stored)
      && lastSaved == (if due then Some((before.path.value, now)) else lastSaved0)
    }

    /**
     * `handle_tick`: the quit latch expires at its deadline, and every
     * buffer whose auto-save deadline has come is saved.
     */
    method HandleTick(now: int)
      requires Valid()
      modifies buffer`saveDebounce, buffer`dirty, this`lastSaved, this`saved, this`inactive
      modifies this`quitArmed, this`quitUntil
      ensures Valid()
      ensures old(quitUntil).Some? && now >= old(quitUntil).value ==> !quitArmed && quitUntil == None
      ensures var due := old(buffer.saveDebounce).Some? && now >= old(buffer.saveDebounce).value && buffer.path.Some?;
        && (due ==> !buffer.dirty && buffer.saveDebounce == None)
        && (!due ==> unchanged(buffer))
      ensures inactive == SaveEach(old(inactive), DuePaths(old(inactive), now))
      ensures TickDone(now, old(buffer.State()), old(inactive), old(saved), old(lastSaved), old(quitArmed), old(quitUntil))
    {
      ExpireQuitLatch(now);
      SaveActiveIfDue(now);
      ghost var active := buffer.State();
      SaveEachValid(inactive, DuePaths(inactive, now));
      SaveInactiveSet(DuePaths(inactive, now));
      assert buffer.State() == active;
    }

    /** The first `q` with unsaved work arms the latch for two seconds. */
    method ArmQuit(now: int)
      requires Valid()
      modifies this`quitArmed, this`quitUntil
      ensures Valid() && quitArmed && quitUntil == Some(now + QuitConfirmMs)
    {
      quitArmed := true;
      quitUntil := Some(now + QuitConfirmMs);
    }

    /** A `q` while armed saves everything, quits and disarms. */
    method ConfirmQuit(now: int)
      requires Valid()
      modifies buffer`saveDebounce, buffer`dirty, this`lastSaved, this`saved, this`inactive
      modifies this`quitArmed, this`quitUntil, this`shouldQuit
      ensures Valid() && shouldQuit && !quitArmed && quitUntil == None
      ensures AllSaved(now, old(buffer.State()), old(inactive), old(saved), old(lastSaved))
    {
      SaveAllBuffers(now);
      shouldQuit := true;
      quitArmed := false;
      quitUntil := None;
    }

    /**
     * `q` in Normal mode: quits at once with nothing unsaved; otherwise the
     * first press arms the latch for two seconds and a press while armed
     * saves everything, quits and disarms.
     */
    method PressQuit(now: int)
      requires Valid()
      modifies buffer`saveDebounce, buffer`dirty, this`lastSaved, this`saved, this`inactive
      modifies this`quitArmed, this`quitUntil, this`shouldQuit
      ensures Valid()
      ensures old(PendingWriteCount()) == 0 ==>
        shouldQuit && unchanged(this`quitArmed, this`quitUntil, this`saved, this`inactive) && unchanged(buffer)
      ensures old(PendingWriteCount()) > 0 && old(quitArmed) ==>
        && shouldQuit && !quitArmed && quitUntil == None
        && AllSaved(now, old(buffer.State()), old(inactive), old(saved), old(lastSaved))
      ensures old(PendingWriteCount()) > 0 && !old(quitArmed) ==>
        && shouldQuit == old(shouldQuit) && quitArmed && quitUntil == Some(now + QuitConfirmMs)
        && unchanged(this`saved, this`inactive) && unchanged(buffer)
    {
      var pending := PendingWriteCount();
      if pending == 0 {
        shouldQuit := true;
      } else if quitArmed {
        ConfirmQuit(now);
      } else {
        ArmQuit(now);
      }
    }

    // -------------------------------------------------------------------
    // Editing and cursor moves

    /** `mark_render_dirty`. */
    method MarkRenderDirty()
      requires Valid()
      modifies this`renderCache
      ensures Valid()
      ensures renderCache == old(renderCache).(dirty := true)
    {
      renderCache := renderCache.(dirty := true);
    }

    /**
     * The bookkeeping of every edit (`mark_render_dirty`, `schedule_auto_save`):
     * the render is stale and the next save is due `autoSaveDebounceMs` after
     * `now`; the buffer's path and window stay those of `before`.
     */
    ghost predicate EditBooked(now: int, before: BufferState)
      reads this, buffer
    {
      && renderCache.dirty && buffer.saveDebounce == Some(now + config.autoSaveDebounceMs)
      && buffer.path == before.path && buffer.viewport == before.viewport
    }

    /**
     * `move_cursor(dir)` from the buffer `before`, whose line count and
     * cursor-line length were `lines0` and `lineLen0`: the step, clamped,
     * scrolled into view; text, path, dirty flag and save deadline kept; the
     * render marked stale exactly when it was or the window moved.
     */
    ghost predicate CursorMoved(dir: Direction, before: BufferState, lines0: nat, lineLen0: nat, render0: bool)
      reads this, buffer
    {
      && buffer.text == before.text && buffer.path == before.path
      && buffer.dirty == before.dirty && buffer.saveDebounce == before.saveDebounce
      && buffer.cursor == Clamp(buffer.text, MoveStep(before.cursor, dir, lines0, lineLen0))
      && buffer.viewport == before.viewport.(topLine := ScrollTop(buffer.cursor.row, before.viewport))
      && renderCache.dirty == (render0 || buffer.viewport.topLine != before.viewport.topLine)
    }

    /**
     * The effect of an edit, move or resize message on the buffer `before`,
     * whose cursor sits at character index `k` and whose line count and
     * cursor-line length were `lines0` and `lineLen0`, with the render flag
     * `render0`: the same edits and bookkeeping as the Insert-mode keys, the
     * same motion as `move_cursor`, and a resize that sets the height to three
     * rows less than the terminal's.
     */
    ghost predicate BufferMsgDone(msg: Msg, now: int, k: nat, before: BufferState, lines0: nat, lineLen0: nat, render0: bool)
      reads this, buffer
      requires before.Valid() && k <= |before.text|
    {
      && buffer.path == before.path
      && (msg.InsertChar? ==>
            && buffer.text == before.text[..k] + [msg.ch] + before.text[k..]
            && buffer.cursor == before.cursor.(col := before.cursor.col + Utf8Len(msg.ch))
            && buffer.dirty && PendingWriteCount() > 0 && EditBooked(now, before))
      && (msg.DeleteChar? ==>
            && (buffer.text, buffer.cursor) == Buffers.Backspace(before.text, before.cursor)
            && buffer.dirty == (before.dirty || before.cursor.row > 0 || before.cursor.col > 0)
            && PendingWriteCount() > 0 && EditBooked(now, before))
      && (msg.NewLine? ==>
            && buffer.text == before.text[..k] + ['\n'] + before.text[k..]
            && buffer.cursor == before.cursor.(row := before.cursor.row + 1, col := 0, desiredCol := 0)
            && buffer.LineCount() == lines0 + 1
            && buffer.dirty && PendingWriteCount() > 0 && EditBooked(now, before))
      && (msg.MoveCursor? ==> CursorMoved(msg.dir, before, lines0, lineLen0, render0))
      && (msg.Resize? ==>
            && buffer.viewport == before.viewport.(height := SatSub(msg.height, 3)) && renderCache.dirty
            && buffer.text == before.text && buffer.cursor == before.cursor
            && buffer.dirty == before.dirty && buffer.saveDebounce == before.saveDebounce)
    }

    /** `mark_render_dirty` then `schedule_auto_save`, run after every edit; the text and cursor stay as they are. */
    method BookEdit(now: int)
      requires Valid()
      modifies buffer`saveDebounce, this`renderCache
      ensures Valid()
      ensures EditBooked(now, old(buffer.State())) && PendingWriteCount() > 0
    {
      MarkRenderDirty();
      ScheduleAutoSave(now);
    }

    /** Typing a character: inserted at the cursor, then the render and the auto-save are refreshed. */
    method TypeChar(ch: char, now: int)
      requires Valid()
      modifies buffer, this`renderCache
      ensures Valid()
      ensures var k := TextLines.CharIndexAt(old(buffer.text), old(buffer.CursorByteOffset()));
        BufferMsgDone(InsertChar(ch), now, k, old(buffer.State()), old(buffer.LineCount()), old(CursorLineLen()), old(renderCache.dirty))
    {
      buffer.InsertChar(ch);
      BookEdit(now);
    }

    /** Enter in Insert mode: a line break at the cursor, then the render and the auto-save are refreshed. */
    method TypeNewline(now: int)
      requires Valid()
      modifies buffer, this`renderCache
      ensures Valid()
      ensures var k := TextLines.CharIndexAt(old(buffer.text), old(buffer.CursorByteOffset()));
        BufferMsgDone(NewLine, now, k, old(buffer.State()), old(buffer.LineCount()), old(CursorLineLen()), old(renderCache.dirty))
    {
      ghost var before := buffer.State();
      buffer.InsertNewline();
      assert buffer.cursor == before.cursor.(row := before.cursor.row + 1, col := 0, desiredCol := 0);
      BookEdit(now);
    }

    /**
     * Backspace: see `Buffers.Backspace` for the edit. The auto-save is scheduled even
     * when nothing was deleted, so there is always work pending afterwards.
     */
    method TypeBackspace(now: int)
      requires Valid()
      modifies buffer, this`renderCache
      ensures Valid()
      ensures var k := TextLines.CharIndexAt(old(buffer.text), old(buffer.CursorByteOffset()));
        BufferMsgDone(DeleteChar, now, k, old(buffer.State()), old(buffer.LineCount()), old(CursorLineLen()), old(renderCache.dirty))
    {
      buffer.DeleteCharBefore();
      BookEdit(now);
    }

    /** The byte length of the cursor's line (`line_text(row).map(len).unwrap_or(0)`). */
    function CursorLineLen(): (n: nat)
      reads this, buffer
    {
      match buffer.LineText(buffer.cursor.row)
      case Some(line) => ByteLen(line)
      case None => 0
    }

    /**
     * `move_cursor`: one step, then clamp and scroll; the render is marked
     * stale only when the window moved. The cursor always ends inside its
     * line and inside the window.
     */
    method MoveCursor(dir: Direction)
      requires Valid()
      modifies buffer, this`renderCache
      ensures Valid()
      ensures buffer.cursor == Clamp(buffer.text, MoveStep(old(buffer.cursor), dir, old(buffer.LineCount()), old(CursorLineLen())))
      ensures buffer.cursor.col <= ByteLen(TextLines.LineText(buffer.text, buffer.cursor.row))
      ensures buffer.viewport == old(buffer.viewport).(topLine := ScrollTop(buffer.cursor.row, old(buffer.viewport)))
      ensures buffer.text == old(buffer.text) && buffer.path == old(buffer.path) && buffer.dirty == old(buffer.dirty)
      ensures buffer.saveDebounce == old(buffer.saveDebounce)
      ensures renderCache.dirty == (old(renderCache.dirty) || buffer.viewport.topLine != old(buffer.viewport.topLine))
      ensures CursorMoved(dir, old(buffer.State()), old(buffer.LineCount()), old(CursorLineLen()), old(renderCache.dirty))
    {
      var prevTop := buffer.viewport.topLine;
      buffer.cursor := MoveStep(buffer.cursor, dir, buffer.LineCount(), CursorLineLen());
      buffer.ClampCursor();
      buffer.ScrollToCursor();
      if buffer.viewport.topLine != prevTop {
        MarkRenderDirty();
      }
    }

    /**
     * The jump after opening a backlink or a content hit: the 1-based `line`
     * (or the last line), column 0, scrolled into view.
     */
    method JumpToLine(line: nat)
      requires buffer.Valid()
      modifies buffer
      ensures buffer.Valid()
      ensures buffer.text == old(buffer.text) && buffer.path == old(buffer.path) && buffer.dirty == old(buffer.dirty)
      ensures buffer.saveDebounce == old(buffer.saveDebounce)
      ensures buffer.cursor == old(buffer.cursor).(row := JumpRow(line, buffer.LineCount()), col := 0, desiredCol := 0)
      ensures buffer.viewport == old(buffer.viewport).(topLine := ScrollTop(buffer.cursor.row, old(buffer.viewport)))
    {
      var row := JumpRow(line, buffer.LineCount());
      InLineOffset(buffer.text, row, 0);
      buffer.cursor := buffer.cursor.(row := row, col := 0, desiredCol := 0);
      buffer.ScrollToCursor();
    }

    // -------------------------------------------------------------------
    // Tabs

    /** The position of the active buffer's tab (`active_tab_index`). */
    function ActiveTabIndex(canon: map<Path, Path>): (r: Option<nat>)
      reads this, buffer
      ensures buffer.path.None? ==> r.None?
      ensures buffer.path.Some? ==> r == TabIndex(openTabs, buffer.path.value, canon)
    {
      if buffer.path.None? then None else TabIndex(openTabs, buffer.path.value, canon)
    }

    /** `activate_tab`, first step: a buffer with a file moves into the inactive tabs under its path. */
    method StashActive()
      requires Valid()
      modifies this`buffer, this`inactive
      ensures inactive == Stashed(old(inactive), old(buffer.State()))
      ensures old(buffer.path).Some? ==> fresh(buffer) && buffer.State() == EmptyState
      ensures old(buffer.path).None? ==> buffer == old(buffer)
      ensures Valid() && buffer.path.None?
    {
      if buffer.path.Some? {
        inactive := inactive[buffer.path.value := buffer.State()];
        buffer := new Buffer();
      }
    }

    /**
     * `activate_tab`, second step: the tab comes out of the inactive map, or
     * else is read from disk; a file that cannot be read leaves the active
     * slot as it is and fails.
     */
    method TakeTab(path: Path, disk: Disk) returns (r: Outcome)
      requires Valid() && buffer.path.None?
      modifies this`buffer, this`inactive
      ensures Valid()
      ensures path in old(inactive) ==>
        r.Ok? && fresh(buffer) && buffer.State() == Reopened(old(inactive)[path], config.scrollOff)
        && inactive == old(inactive) - {path}
      ensures path !in old(inactive) && path in disk.contents ==>
        r.Ok? && fresh(buffer) && buffer.State() == Reopened(FileState(path, disk.contents[path]), config.scrollOff)
        && inactive == old(inactive)
      ensures path !in old(inactive) && path !in disk.contents ==>
        r == Err(ReadFailed(path)) && buffer == old(buffer) && inactive == old(inactive)
    {
      var next: BufferState;
      if path in inactive {
        next := inactive[path];
        inactive := inactive - {path};
      } else if path in disk.contents {
        next := FileState(path, disk.contents[path]);
      } else {
        return Err(ReadFailed(path));
      }
      buffer := new Buffer.FromState(Reopened(next, config.scrollOff));
      return Ok(Unit);
    }

    /** `activate_tab`, third step: a tab is added unless one already names the file. */
    method AddTab(path: Path, canon: map<Path, Path>)
      requires NoDup(openTabs)
      modifies this`openTabs
      ensures openTabs == AddedTab(old(openTabs), path, canon) && NoDup(openTabs)
    {
      AddedTabNoDup(openTabs, path, canon);
      if TabIndex(openTabs, path, canon).None? {
        openTabs := openTabs + [path];
      }
    }

    /**
     * `refresh_backlinks`: the entries of every other note in the vault that
     * link to the active note, sorted; the selection goes back to the top.
     */
    method RefreshBacklinks(disk: Disk)
      modifies this`backlinks, this`backlinksSelected
      ensures backlinks == Links.Backlinks(buffer.path, AllFilePaths(config.vault, disk.tree), disk.contents, disk.canon)
      ensures backlinksSelected == 0
    {
      backlinks := [];
      backlinksSelected := 0;
      if buffer.path.None? {
        return;
      }
      var active := buffer.path.value;
      var stem := FileStem(active);
      if stem.None? {
        return;
      }
      var found := Links.ScanBacklinks(AllFilePaths(config.vault, disk.tree), disk.contents, disk.canon, active, stem.value);
      backlinks := SortBy(found, Links.BacklinkLe);
    }

    /** The panels that follow the active note: the backlinks when shown, and the render. */
    method AfterActivate(disk: Disk)
      requires Valid()
      modifies this`backlinks, this`backlinksSelected, this`renderCache
      ensures Valid() && renderCache.dirty
      ensures backlinksVisible ==>
        backlinksSelected == 0 &&
        backlinks == Links.Backlinks(buffer.path, AllFilePaths(config.vault, disk.tree), disk.contents, disk.canon)
      ensures !backlinksVisible ==> backlinks == old(backlinks) && backlinksSelected == old(backlinksSelected)
    {
      if backlinksVisible {
        RefreshBacklinks(disk);
      }
      MarkRenderDirty();
    }

    /** The buffer exchange of `activate_tab`: `StashActive`, then `TakeTab`. */
    method SwapIn(path: Path, disk: Disk) returns (r: Outcome)
      requires Valid()
      modifies this`buffer, this`inactive
      ensures Valid()
      ensures fresh(buffer) || buffer == old(buffer)
      ensures var m := Stashed(old(inactive), old(buffer.State()));
        && (path in m ==> r.Ok? && buffer.State() == Reopened(m[path], config.scrollOff) && inactive == m - {path})
        && (path !in m && path in disk.contents ==>
              r.Ok? && buffer.State() == Reopened(FileState(path, disk.contents[path]), config.scrollOff) && inactive == m)
        && (path !in m && path !in disk.contents ==> r == Err(ReadFailed(path)) && buffer.path.None? && inactive == m)
    {
      StashActive();
      r := TakeTab(path, disk);
    }

    /**
     * `activate_tab`: the active buffer (when it has a file) moves into the
     * inactive tabs, and `path` comes out of them or is read from disk with
     * the configured scroll margin. On a read failure the active slot is left
     * empty (or as it was, without a file) and nothing else changes.
     */
    method ActivateTab(path: Path, disk: Disk) returns (r: Outcome)
      requires Valid()
      modifies this`buffer, this`inactive, this`openTabs, this`backlinks, this`backlinksSelected, this`renderCache
      ensures Valid()
      ensures fresh(buffer) || buffer == old(buffer)
      ensures var m := Stashed(old(inactive), old(buffer.State()));
        && (path in m ==> r.Ok? && buffer.State() == Reopened(m[path], config.scrollOff) && inactive == m - {path})
        && (path !in m && path in disk.contents ==>
              r.Ok? && buffer.State() == Reopened(FileState(path, disk.contents[path]), config.scrollOff) && inactive == m)
        && (path !in m && path !in disk.contents ==> r == Err(ReadFailed(path)) && buffer.path.None? && inactive == m)
      ensures r.Ok? ==> openTabs == AddedTab(old(openTabs), path, disk.canon) && renderCache.dirty
      ensures r.Err? ==> openTabs == old(openTabs) && renderCache == old(renderCache) && backlinks == old(backlinks)
    {
      r := SwapIn(path, disk);
      if r.Err? {
        return;
      }
      AddTab(path, disk.canon);
      AfterActivate(disk);
    }

    /**
     * `switch_tab_relative`: with two or more tabs and the active buffer
     * among them, activates the tab `delta` places away, wrapping around;
     * otherwise nothing happens.
     */
    method SwitchTabRelative(delta: int, disk: Disk) returns (r: Outcome)
      requires Valid()
      modifies this`buffer, this`inactive, this`openTabs, this`backlinks, this`backlinksSelected, this`renderCache
      ensures Valid()
      ensures |old(openTabs)| <= 1 || old(ActiveTabIndex(disk.canon)).None? ==>
        r.Ok? && buffer == old(buffer) && inactive == old(inactive) && openTabs == old(openTabs)
        && renderCache == old(renderCache)
      ensures |old(openTabs)| > 1 && old(ActiveTabIndex(disk.canon)).Some? ==>
        var target := old(openTabs)[WrapIndex(old(ActiveTabIndex(disk.canon)).value, delta, |old(openTabs)|)];
        && openTabs == old(openTabs)
        && (r.Ok? ==> buffer.path == Some(target))
        && (r.Err? ==> r == Err(ReadFailed(target)))
    {
      if |openTabs| <= 1 {
        return Ok(Unit);
      }
      var current := ActiveTabIndex(disk.canon);
      if current.None? {
        return Ok(Unit);
      }
      var target := openTabs[WrapIndex(current.value, delta, |openTabs|)];
      r := ActivateTab(target, disk);
      assert openTabs == old(openTabs) by {
        if r.Ok? {
          assert Links.SameFilePath(target, target, disk.canon);
        }
      }
    }

    /** `open_file`'s save: the active buffer is saved first when it has unsaved edits. */
    method SaveIfDirty(now: int)
      requires Valid()
      modifies buffer`saveDebounce, buffer`dirty, this`lastSaved, this`saved
      ensures Valid()
      ensures old(buffer.dirty) && buffer.path.Some? ==>
        !buffer.dirty && buffer.saveDebounce == None && saved == old(saved)[buffer.path.value := buffer.text]
      ensures !(old(buffer.dirty) && buffer.path.Some?) ==> unchanged(buffer) && saved == old(saved)
    {
      if buffer.dirty {
        SaveBuffer(now);
      }
    }

    /**
     * `open_file` for a file other than the active one: save if dirty, then
     * activate. (`open_file` refreshes the backlinks once more after
     * `activate_tab` has; with the same disk and the same active file the
     * second refresh computes the same panel, so it is not repeated here.)
     */
    method OpenOther(path: Path, disk: Disk, now: int) returns (r: Outcome)
      requires Valid()
      modifies buffer`saveDebounce, buffer`dirty, this`lastSaved, this`saved
      modifies this`buffer, this`inactive, this`openTabs, this`backlinks, this`backlinksSelected, this`renderCache
      ensures Valid()
      ensures fresh(buffer) || buffer == old(buffer)
      ensures saved == if old(buffer.dirty) && old(buffer.path).Some? then old(saved)[old(buffer.path).value := old(buffer.text)] else old(saved)
      ensures r.Ok? ==> buffer.path == Some(path) && openTabs == AddedTab(old(openTabs), path, disk.canon)
      ensures r.Err? ==> r == Err(ReadFailed(path)) && openTabs == old(openTabs)
    {
      SaveIfDirty(now);
      r := ActivateTab(path, disk);
    }

    /**
     * `open_file`: nothing to do when `path` names the active file; else the
     * active buffer is saved if dirty, `path` is activated, and the
     * backlinks panel follows it when shown.
     */
    method OpenFile(path: Path, disk: Disk, now: int) returns (r: Outcome)
      requires Valid()
      modifies buffer`saveDebounce, buffer`dirty, this`lastSaved, this`saved
      modifies this`buffer, this`inactive, this`openTabs, this`backlinks, this`backlinksSelected, this`renderCache
      ensures Valid()
      ensures fresh(buffer) || buffer == old(buffer)
      ensures old(buffer.path).Some? && Links.SameFilePath(old(buffer.path).value, path, disk.canon) ==>
        r.Ok? && buffer == old(buffer) && unchanged(buffer) && saved == old(saved)
        && inactive == old(inactive) && openTabs == old(openTabs)
      ensures !(old(buffer.path).Some? && Links.SameFilePath(old(buffer.path).value, path, disk.canon)) ==>
        && saved == (if old(buffer.dirty) && old(buffer.path).Some? then old(saved)[old(buffer.path).value := old(buffer.text)] else old(saved))
        && (r.Ok? ==> buffer.path == Some(path) && openTabs == AddedTab(old(openTabs), path, disk.canon))
        && (r.Err? ==> r == Err(ReadFailed(path)) && openTabs == old(openTabs))
    {
      if buffer.path.Some? && Links.SameFilePath(buffer.path.value, path, disk.canon) {
        return Ok(Unit);
      }
      r := OpenOther(path, disk, now);
    }

    /**
     * `open_file` as the panels use it: afterwards the active buffer shows
     * `path` (or the file it names), or the read failed.
     */
    method OpenFileFrom(path: Path, disk: Disk, now: int) returns (r: Outcome)
      requires Valid()
      modifies buffer`saveDebounce, buffer`dirty, this`lastSaved, this`saved
      modifies this`buffer, this`inactive, this`openTabs, this`backlinks, this`backlinksSelected, this`renderCache
      ensures Valid()
      ensures fresh(buffer) || buffer == old(buffer)
      ensures r.Ok? ==> buffer.path.Some? && Links.SameFilePath(buffer.path.value, path, disk.canon)
      ensures r.Err? ==> r == Err(ReadFailed(path))
    {
      r := OpenFile(path, disk, now);
    }

    // -------------------------------------------------------------------
    // External changes

    /**
     * `should_reload_active`: the changed file is the active one, which has
     * no unsaved edits, and the change is not the echo of our own save of
     * that file at most `RecentSaveMs` ago.
     */
    predicate ShouldReloadActive(path: Path, canon: map<Path, Path>, now: int)
      reads this, buffer
      ensures ShouldReloadActive(path, canon, now) ==> buffer.path.Some? && !buffer.dirty
      ensures lastSaved.Some? && now - lastSaved.value.1 <= RecentSaveMs && Links.SameFilePath(lastSaved.value.0, path, canon)
              ==> !ShouldReloadActive(path, canon, now)
    {
      && buffer.path.Some?
      && Links.SameFilePath(buffer.path.value, path, canon)
      && !buffer.dirty
      && !(lastSaved.Some? && now - lastSaved.value.1 <= RecentSaveMs && Links.SameFilePath(lastSaved.value.0, path, canon))
    }

    /**
     * `handle_file_changed`, tab part: a file that no longer exists loses
     * its tabs, and inactive buffers of the file are dropped either way.
     */
    method PruneTabs(path: Path, disk: Disk)
      requires Valid()
      modifies this`openTabs, this`inactive
      ensures Valid()
      ensures path !in disk.existing ==> openTabs == Without(old(openTabs), path, disk.canon)
      ensures path in disk.existing ==> openTabs == old(openTabs)
      ensures inactive == DropStale(old(inactive), path, disk.canon)
      ensures forall p :: p in inactive ==> !Links.SameFilePath(p, path, disk.canon)
    {
      if path !in disk.existing {
        WithoutNoDup(openTabs, path, disk.canon);
        openTabs := Without(openTabs, path, disk.canon);
      }
      inactive := DropStale(inactive, path, disk.canon);
    }

    /**
     * The reload of `handle_file_changed`: when the new text can be read, it
     * replaces the active buffer, keeping the cursor (clamped) and the
     * window; a read failure leaves the buffer as it is.
     */
    method ReloadActive(path: Path, disk: Disk)
      requires Valid() && path !in inactive
      modifies this`buffer, this`renderCache
      ensures Valid()
      ensures path in disk.contents ==>
        && fresh(buffer)
        && buffer.State() == Reloaded(path, disk.contents[path], old(buffer.cursor), old(buffer.viewport), config.scrollOff)
        && renderCache.dirty
      ensures path !in disk.contents ==> buffer == old(buffer) && renderCache == old(renderCache)
    {
      if path !in disk.contents {
        return;
      }
      var reloaded := ReloadedBuffer(path, disk.contents[path], buffer.cursor, buffer.viewport, config.scrollOff);
      buffer := reloaded;
      MarkRenderDirty();
    }

    /**
     * `handle_file_changed`: the tree is rebuilt from the new snapshot, the
     * tabs are pruned, and the active buffer is reloaded when
     * `ShouldReloadActive` says so.
     */
    method HandleFileChanged(path: Path, disk: Disk, now: int)
      requires Valid() && fileTree.Valid()
      modifies fileTree, this`openTabs, this`inactive, this`buffer, this`renderCache
      ensures Valid() && fileTree.Valid()
      ensures fileTree.nodes == Listing(config.vault, disk.tree, 0, fileTree.expanded)
      ensures path !in disk.existing ==> openTabs == Without(old(openTabs), path, disk.canon)
      ensures inactive == DropStale(old(inactive), path, disk.canon)
      ensures old(ShouldReloadActive(path, disk.canon, now)) && path in disk.contents ==>
        buffer.State() == Reloaded(path, disk.contents[path], old(buffer.cursor), old(buffer.viewport), config.scrollOff)
      ensures !(old(ShouldReloadActive(path, disk.canon, now)) && path in disk.contents) ==> buffer == old(buffer)
    {
      var reload := ShouldReloadActive(path, disk.canon, now);
      fileTree.Refresh(disk.tree);
      PruneTabs(path, disk);
      if reload {
        assert Links.SameFilePath(path, path, disk.canon);
        ReloadActive(path, disk);
      }
    }

    // -------------------------------------------------------------------
    // Finder

    /** Rebuilds the tree rows from the snapshot `fs` (`file_tree.refresh()`). */
    method RefreshTree(fs: seq<Entry>)
      requires Valid() && fileTree.Valid()
      modifies fileTree
      ensures Valid() && fileTree.Valid()
      ensures fileTree.nodes == Listing(config.vault, fs, 0, fileTree.expanded)
      ensures fileTree.expanded == old(fileTree.expanded) && fileTree.createInput == old(fileTree.createInput)
    {
      fileTree.Refresh(fs);
    }

    /** The results for the current mode and query, without touching the selection rule. */
    method ComputeFinderResults(disk: Disk) returns (results: seq<Finder.FinderResult>)
      ensures results == FinderResults(finderMode, AllFilePaths(config.vault, disk.tree), disk.contents,
                                       finderQuery, score, config.maxResults)
    {
      var files := AllFilePaths(config.vault, disk.tree);
      match finderMode
      case Files =>
        results := if finderQuery == [] then Finder.ListFiles(files, config.maxResults)
                   else Finder.FuzzyFiles(files, finderQuery, score, config.maxResults);
      case Content =>
        results := Finder.ContentSearch(files, disk.contents, finderQuery, config.maxResults);
    }

    /**
     * `refresh_finder_results`: the tree is refreshed, the results recomputed,
     * and the selection reset (empty query) or pulled back onto the list.
     */
    method RefreshFinderResults(disk: Disk)
      requires Valid() && fileTree.Valid()
      modifies fileTree, this`finderResults, this`finderSelected
      ensures Valid() && fileTree.Valid()
      ensures fileTree.nodes == Listing(config.vault, disk.tree, 0, fileTree.expanded)
      ensures finderResults == FinderResults(finderMode, AllFilePaths(config.vault, disk.tree), disk.contents,
                                             finderQuery, score, config.maxResults)
      ensures finderSelected == if finderQuery == [] then 0 else Finder.ClampSelection(old(finderSelected), |finderResults|)
    {
      RefreshTree(disk.tree);
      SetFinderResults(disk);
    }

    /** The results recomputed, and the selection reset (empty query) or pulled back onto the list. */
    method SetFinderResults(disk: Disk)
      requires Valid()
      modifies this`finderResults, this`finderSelected
      ensures Valid()
      ensures finderResults == FinderResults(finderMode, AllFilePaths(config.vault, disk.tree), disk.contents,
                                             finderQuery, score, config.maxResults)
      ensures finderSelected == if finderQuery == [] then 0 else Finder.ClampSelection(old(finderSelected), |finderResults|)
    {
      var results := ComputeFinderResults(disk);
      finderResults := results;
      if finderQuery == [] {
        finderSelected := 0;
      } else {
        finderSelected := Finder.ClampSelection(finderSelected, |results|);
      }
    }

    /** Finder mode in search mode `m`, with an empty query and the selection at the top. */
    method ResetFinder(m: Finder.FinderMode)
      requires Valid()
      modifies this`mode, this`finderMode, this`finderQuery, this`finderSelected
      ensures Valid()
      ensures mode == FinderOpen && finderMode == m && finderQuery == "" && finderSelected == 0
    {
      mode := FinderOpen;
      finderMode := m;
      finderQuery := "";
      finderSelected := 0;
    }

    /**
     * `open_finder`: Finder mode in the given search mode, with an empty
     * query and fresh results. The source refreshes the tree once more
     * before the results; a refresh is a function of the directory
     * snapshot, so the second one leaves the same rows.
     */
    method OpenFinder(m: Finder.FinderMode, disk: Disk)
      requires Valid() && fileTree.Valid()
      modifies fileTree, this`mode, this`finderMode, this`finderQuery, this`finderResults, this`finderSelected
      ensures Valid() && fileTree.Valid()
      ensures mode == FinderOpen && finderMode == m && finderQuery == "" && finderSelected == 0
      ensures fileTree.nodes == Listing(config.vault, disk.tree, 0, fileTree.expanded)
      ensures finderResults == FinderResults(m, AllFilePaths(config.vault, disk.tree), disk.contents, "", score, config.maxResults)
    {
      ResetFinder(m);
      RefreshFinderResults(disk);
    }

    /** Leaving the finder: Normal mode, and the query, results and selection cleared. */
    method CloseFinder()
      requires Valid()
      modifies this`mode, this`finderQuery, this`finderResults, this`finderSelected
      ensures Valid()
      ensures mode == Normal && finderQuery == "" && finderResults == [] && finderSelected == 0
    {
      mode := Normal;
      finderQuery := "";
      finderResults := [];
      finderSelected := 0;
    }

    /** The query after a key: one character more, or one less. */
    method EditFinderQuery(query: string, disk: Disk)
      requires Valid() && fileTree.Valid()
      modifies fileTree, this`finderQuery, this`finderResults, this`finderSelected
      ensures Valid() && fileTree.Valid()
      ensures finderQuery == query
      ensures finderResults == FinderResults(finderMode, AllFilePaths(config.vault, disk.tree), disk.contents,
                                             query, score, config.maxResults)
    {
      finderQuery := query;
      RefreshFinderResults(disk);
    }

    // -------------------------------------------------------------------
    // Backlinks

    /**
     * Enter in the finder, first part: the selected result's file is
     * opened and, for a content hit, the cursor jumps to its line. With no
     * result selected nothing happens.
     */
    method OpenFinderSelection(disk: Disk, now: int) returns (r: Outcome)
      requires Valid()
      modifies buffer, this`lastSaved, this`saved
      modifies this`buffer, this`inactive, this`openTabs, this`backlinks, this`backlinksSelected, this`renderCache
      ensures Valid()
      ensures finderSelected >= |finderResults| ==> r.Ok? && buffer == old(buffer) && openTabs == old(openTabs)
      ensures finderSelected < |finderResults| ==>
        var hit := finderResults[finderSelected];
        && (r.Err? ==> r == Err(ReadFailed(hit.path)))
        && (r.Ok? ==> buffer.path.Some? && Links.SameFilePath(buffer.path.value, hit.path, disk.canon))
        && (r.Ok? && hit.line.Some? ==>
              buffer.cursor.row == JumpRow(hit.line.value, buffer.LineCount()) && buffer.cursor.col == 0)
    {
      if finderSelected >= |finderResults| {
        return Ok(Unit);
      }
      var hit := finderResults[finderSelected];
      r := OpenFileFrom(hit.path, disk, now);
      if r.Err? {
        return;
      }
      if hit.line.Some? {
        JumpToLine(hit.line.value);
      }
    }

    /**
     * `handle_key_finder`: Esc closes the finder; Enter opens the selection
     * and then closes it (a failed open leaves it as it is); `j`/Down and
     * `k`/Up move the selection within the list; Backspace and a typed
     * character (no modifier, or Shift alone) edit the query and rerun it.
     */
    method HandleKeyFinder(key: KeyEvent, disk: Disk, now: int) returns (r: Outcome)
      requires Valid() && fileTree.Valid()
      modifies fileTree, buffer, this`lastSaved, this`saved, this`mode
      modifies this`buffer, this`inactive, this`openTabs, this`backlinks, this`backlinksSelected, this`renderCache
      modifies this`finderQuery, this`finderResults, this`finderSelected
      ensures Valid() && fileTree.Valid()
      ensures key.code == Esc ==>
        r.Ok? && mode == Normal && finderQuery == "" && finderResults == [] && finderSelected == 0
      ensures key.code == Enter ==>
        (r.Ok? ==> mode == Normal && finderQuery == "" && finderResults == [] && finderSelected == 0) &&
        (old(finderSelected) < |old(finderResults)| && r.Ok? ==>
           buffer.path.Some? && Links.SameFilePath(buffer.path.value, old(finderResults)[old(finderSelected)].path, disk.canon))
      ensures key.code !in {Esc, Enter} ==>
        r.Ok? && mode == old(mode) && buffer == old(buffer) && openTabs == old(openTabs) && inactive == old(inactive)
      ensures key.code in {Char('j'), ArrowDown} ==>
        finderResults == old(finderResults) && finderQuery == old(finderQuery) &&
        finderSelected == (if finderResults == [] then old(finderSelected) else Finder.SelectNext(old(finderSelected), |finderResults|))
      ensures key.code in {Char('k'), ArrowUp} ==>
        finderResults == old(finderResults) && finderQuery == old(finderQuery) &&
        finderSelected == (if finderResults == [] then old(finderSelected) else Finder.SelectPrev(old(finderSelected), |finderResults|))
      ensures key.code == Backspace ==>
        finderQuery == Pop(old(finderQuery)) &&
        finderResults == FinderResults(finderMode, AllFilePaths(config.vault, disk.tree), disk.contents,
                                       finderQuery, score, config.maxResults)
      ensures key.code.Char? && key.code.c !in {'j', 'k'} && (key.mods.None() || key.mods.ShiftOnly()) ==>
        finderQuery == old(finderQuery) + [key.code.c] &&
        finderResults == FinderResults(finderMode, AllFilePaths(config.vault, disk.tree), disk.contents,
                                       finderQuery, score, config.maxResults)
    {
      if key.code == Esc {
        CloseFinder();
        r := Ok(Unit);
      } else if key.code == Enter {
        r := OpenFinderSelection(disk, now);
        if r.Ok? {
          CloseFinder();
        }
      } else {
        BrowseFinder(key, disk);
        r := Ok(Unit);
      }
    }

    /** The finder keys other than Esc and Enter: they move the selection or edit the query. */
    method BrowseFinder(key: KeyEvent, disk: Disk)
      requires Valid() && fileTree.Valid()
      modifies fileTree, this`finderQuery, this`finderResults, this`finderSelected
      ensures Valid() && fileTree.Valid()
      ensures key.code in {Char('j'), ArrowDown} ==>
        finderResults == old(finderResults) && finderQuery == old(finderQuery) &&
        finderSelected == (if finderResults == [] then old(finderSelected) else Finder.SelectNext(old(finderSelected), |finderResults|))
      ensures key.code in {Char('k'), ArrowUp} ==>
        finderResults == old(finderResults) && finderQuery == old(finderQuery) &&
        finderSelected == (if finderResults == [] then old(finderSelected) else Finder.SelectPrev(old(finderSelected), |finderResults|))
      ensures key.code == Backspace ==>
        finderQuery == Pop(old(finderQuery)) &&
        finderResults == FinderResults(finderMode, AllFilePaths(config.vault, disk.tree), disk.contents,
                                       finderQuery, score, config.maxResults)
      ensures key.code.Char? && key.code.c !in {'j', 'k'} && (key.mods.None() || key.mods.ShiftOnly()) ==>
        finderQuery == old(finderQuery) + [key.code.c] &&
        finderResults == FinderResults(finderMode, AllFilePaths(config.vault, disk.tree), disk.contents,
                                       finderQuery, score, config.maxResults)
    {
      match key.code
      case Backspace =>
        EditFinderQuery(Pop(finderQuery), disk);
      case ArrowDown =>
        SelectNextResult();
      case ArrowUp =>
        SelectPrevResult();
      case Char(c) =>
        if c == 'j' {
          SelectNextResult();
        } else if c == 'k' {
          SelectPrevResult();
        } else if key.mods.None() || key.mods.ShiftOnly() {
          EditFinderQuery(finderQuery + [c], disk);
        }
      case _ =>
    }

    /** `j`/Down in the finder: one result further, stopping at the last. */
    method SelectNextResult()
      requires Valid()
      modifies this`finderSelected
      ensures Valid()
      ensures finderSelected == if finderResults == [] then old(finderSelected) else Finder.SelectNext(old(finderSelected), |finderResults|)
    {
      if finderResults != [] {
        finderSelected := Finder.SelectNext(finderSelected, |finderResults|);
      }
    }

    /** `k`/Up in the finder: one result back, stopping at the first. */
    method SelectPrevResult()
      requires Valid()
      modifies this`finderSelected
      ensures Valid()
      ensures finderSelected == if finderResults == [] then old(finderSelected) else Finder.SelectPrev(old(finderSelected), |finderResults|)
    {
      if finderResults != [] {
        finderSelected := Finder.SelectPrev(finderSelected, |finderResults|);
      }
    }

    // -------------------------------------------------------------------
    // Backlinks panel keys

    /** Enter in the backlinks panel: the selected entry's note opens at the entry's line. */
    method OpenBacklinkSelection(disk: Disk, now: int) returns (r: Outcome)
      requires Valid()
      modifies buffer, this`lastSaved, this`saved
      modifies this`buffer, this`inactive, this`openTabs, this`backlinks, this`backlinksSelected, this`renderCache
      ensures Valid()
      ensures old(backlinksSelected) >= |old(backlinks)| ==> r.Ok? && buffer == old(buffer) && openTabs == old(openTabs)
      ensures old(backlinksSelected) < |old(backlinks)| ==>
        var entry := old(backlinks)[old(backlinksSelected)];
        && (r.Err? ==> r == Err(ReadFailed(entry.path)))
        && (r.Ok? ==>
              && buffer.path.Some? && Links.SameFilePath(buffer.path.value, entry.path, disk.canon)
              && buffer.cursor.row == JumpRow(entry.line, buffer.LineCount()) && buffer.cursor.col == 0)
    {
      if backlinksSelected >= |backlinks| {
        return Ok(Unit);
      }
      var entry := backlinks[backlinksSelected];
      r := OpenFileFrom(entry.path, disk, now);
      if r.Err? {
        return;
      }
      JumpToLine(entry.line);
    }

    /** The backlinks keys that only move the selection or close the panel. */
    method BrowseBacklinks(key: KeyEvent)
      requires Valid()
      modifies this`backlinksSelected, this`backlinksVisible, this`mode
      ensures Valid() && backlinks == old(backlinks)
      ensures key.code == Esc ==> !backlinksVisible && mode == Normal && backlinksSelected == old(backlinksSelected)
      ensures key.code in {Char('j'), ArrowDown} ==>
        backlinksVisible == old(backlinksVisible) && mode == old(mode) &&
        backlinksSelected == (if backlinks == [] then old(backlinksSelected) else Finder.SelectNext(old(backlinksSelected), |backlinks|))
      ensures key.code in {Char('k'), ArrowUp} ==>
        backlinksVisible == old(backlinksVisible) && mode == old(mode) &&
        backlinksSelected == SatSub(old(backlinksSelected), 1)
      ensures key.code !in {Esc, Char('j'), ArrowDown, Char('k'), ArrowUp} ==>
        backlinksVisible == old(backlinksVisible) && mode == old(mode) && backlinksSelected == old(backlinksSelected)
    {
      match key.code
      case Esc =>
        backlinksVisible := false;
        mode := Normal;
      case ArrowDown =>
        if backlinks != [] {
          backlinksSelected := Finder.SelectNext(backlinksSelected, |backlinks|);
        }
      case ArrowUp =>
        backlinksSelected := SatSub(backlinksSelected, 1);
      case Char(c) =>
        if c == 'j' && backlinks != [] {
          backlinksSelected := Finder.SelectNext(backlinksSelected, |backlinks|);
        } else if c == 'k' {
          backlinksSelected := SatSub(backlinksSelected, 1);
        }
      case _ =>
    }

    /**
     * `handle_key_backlinks`: Ctrl+b toggles the panel, Esc hides it, `j`/`k`
     * (or Down/Up) move the selection, Enter opens the selected entry.
     */
    method HandleKeyBacklinks(key: KeyEvent, disk: Disk, now: int) returns (r: Outcome)
      requires Valid() && fileTree.Valid()
      modifies fileTree, buffer, this`lastSaved, this`saved, this`mode, this`backlinksVisible
      modifies this`buffer, this`inactive, this`openTabs, this`backlinks, this`backlinksSelected, this`renderCache
      ensures Valid() && fileTree.Valid()
      ensures key.IsCtrl('b') ==> r.Ok? && buffer == old(buffer) && BacklinksToggled(old(backlinksVisible), old(backlinks), disk)
      ensures !key.IsCtrl('b') && key.code == Esc ==> r.Ok? && !backlinksVisible && mode == Normal
      ensures !key.IsCtrl('b') && key.code in {Char('j'), ArrowDown} ==>
        r.Ok? && backlinks == old(backlinks) &&
        backlinksSelected == (if backlinks == [] then old(backlinksSelected) else Finder.SelectNext(old(backlinksSelected), |backlinks|))
      ensures !key.IsCtrl('b') && key.code in {Char('k'), ArrowUp} ==>
        r.Ok? && backlinks == old(backlinks) && backlinksSelected == SatSub(old(backlinksSelected), 1)
      ensures !key.IsCtrl('b') && key.code == Enter && old(backlinksSelected) < |old(backlinks)| ==>
        var entry := old(backlinks)[old(backlinksSelected)];
        && (r.Err? ==> r == Err(ReadFailed(entry.path)))
        && (r.Ok? ==>
              && buffer.path.Some? && Links.SameFilePath(buffer.path.value, entry.path, disk.canon)
              && buffer.cursor.row == JumpRow(entry.line, buffer.LineCount()) && buffer.cursor.col == 0)
    {
      r := Ok(Unit);
      if key.IsCtrl('b') {
        ToggleBacklinksPanel(disk);
      } else if key.code == Enter {
        r := OpenBacklinkSelection(disk, now);
      } else {
        BrowseBacklinks(key);
      }
    }

    // -------------------------------------------------------------------
    // WikiLinks

    /**
     * What following `link` leaves: a link that resolves has its note open
     * (unless the read failed); one that does not has its new note held for
     * confirmation in ConfirmCreate mode.
     */
    ghost predicate FollowedLink(link: string, disk: Disk, before: Buffer, tabsBefore: seq<Path>, r: Outcome)
      reads this, buffer
    {
      var target := Links.ResolveWikilinkTarget(config.vault, disk.existing, AllFilePaths(config.vault, disk.tree), link);
      && (target.Some? ==>
            && (r.Err? ==> r == Err(ReadFailed(target.value)))
            && (r.Ok? ==> buffer.path.Some? && Links.SameFilePath(buffer.path.value, target.value, disk.canon)))
      && (target.None? ==>
            && r.Ok? && buffer == before && openTabs == tabsBefore
            && pendingCreate == Some(NewNotePath(config.vault, link)) && mode == ConfirmCreate && renderCache.dirty)
    }

    /**
     * `follow_wikilink_under_cursor`, once the link text is known: a link
     * that resolves opens its note; otherwise the note it would create is
     * held for confirmation in ConfirmCreate mode.
     */
    method FollowLink(link: string, disk: Disk, now: int) returns (r: Outcome)
      requires Valid()
      modifies buffer`saveDebounce, buffer`dirty, this`lastSaved, this`saved, this`pendingCreate, this`mode
      modifies this`buffer, this`inactive, this`openTabs, this`backlinks, this`backlinksSelected, this`renderCache
      ensures Valid()
      ensures fresh(buffer) || buffer == old(buffer)
      ensures FollowedLink(link, disk, old(buffer), old(openTabs), r)
      ensures mode != old(mode) || pendingCreate != old(pendingCreate) ==> mode == ConfirmCreate
    {
      var target := Links.ResolveWikilinkTarget(config.vault, disk.existing, AllFilePaths(config.vault, disk.tree), link);
      if target.Some? {
        r := OpenFileFrom(target.value, disk, now);
      } else {
        HoldNewNote(NewNotePath(config.vault, link));
        r := Ok(Unit);
      }
    }

    /** The note `p` held for confirmation, in ConfirmCreate mode. */
    method HoldNewNote(p: Path)
      requires Valid()
      modifies this`pendingCreate, this`mode, this`renderCache
      ensures Valid()
      ensures pendingCreate == Some(p) && mode == ConfirmCreate && renderCache.dirty
    {
      pendingCreate := Some(p);
      mode := ConfirmCreate;
      MarkRenderDirty();
    }

    /**
     * `follow_wikilink_under_cursor`: with no WikiLink under the cursor a
     * notice is appended (past the cap, as the source does); else the link
     * is followed.
     */
    method FollowWikilinkUnderCursor(disk: Disk, now: int) returns (r: Outcome, ghost link: Option<string>)
      requires Valid()
      modifies buffer`saveDebounce, buffer`dirty, this`lastSaved, this`saved, this`pendingCreate, this`mode
      modifies this`buffer, this`inactive, this`openTabs, this`backlinks, this`backlinksSelected, this`renderCache
      modifies this`notifications
      ensures Valid()
      ensures fresh(buffer) || buffer == old(buffer)
      ensures link == LinkAtCursor(old(buffer.text), old(buffer.cursor.row), old(buffer.cursor.col))
      ensures link.None? ==>
        r.Ok? && notifications == old(notifications) + ["No WikiLink under cursor"]
        && buffer == old(buffer) && mode == old(mode) && pendingCreate == old(pendingCreate)
      ensures link.Some? ==>
        notifications == old(notifications) && FollowedLink(link.value, disk, old(buffer), old(openTabs), r)
    {
      var found := LinkUnderCursor();
      link := found;
      if found.None? {
        AppendNotification("No WikiLink under cursor");
        return Ok(Unit), link;
      }
      r := FollowLink(found.value, disk, now);
    }

    /** `wikilink_under_cursor` on the active buffer. */
    method LinkUnderCursor() returns (link: Option<string>)
      ensures link == LinkAtCursor(buffer.text, buffer.cursor.row, buffer.cursor.col)
    {
      link := Links.WikilinkUnderCursor(buffer.text, buffer.cursor.row, buffer.cursor.col);
    }

    /** A notice appended straight to the queue, past the cap (`notifications.push_back`). */
    method AppendNotification(message: string)
      requires Valid()
      modifies this`notifications
      ensures Valid() && notifications == old(notifications) + [message]
    {
      notifications := notifications + [message];
    }

    /**
     * `confirm_create_wikilink`, first part: the held note is taken, written
     * with its title heading when it does not exist yet, and Normal mode
     * restored. `after` is the disk once the note is written.
     */
    method TakePendingNote(disk: Disk) returns (p: Option<Path>, after: Disk)
      requires Valid()
      modifies this`pendingCreate, this`mode, this`created
      ensures Valid()
      ensures p == old(pendingCreate) && pendingCreate == None && mode == Normal
      ensures p.None? ==> created == old(created)
      ensures p.Some? ==> created == LogCreated(old(created), p.value, disk.existing) &&
                          after == WithNote(disk, config.vault, p.value, NewNoteText(p.value))
    {
      p := pendingCreate;
      after := disk;
      pendingCreate := None;
      if p.Some? {
        if p.value !in disk.existing {
          created := created[p.value := NewNoteText(p.value)];
        }
        after := WithNote(disk, config.vault, p.value, NewNoteText(p.value));
      }
      mode := Normal;
    }

    /**
     * The rows once note `p` is created in the snapshot `fs`: the vault is
     * relisted from the new snapshot, and the note has a row when every
     * directory above it is expanded.
     */
    ghost predicate NoteListed(fs: seq<Entry>, p: Path)
      reads this, fileTree
    {
      && fileTree.nodes == Listing(config.vault, TreeWith(config.vault, fs, p, false), 0, fileTree.expanded)
      && (Reachable(config.vault, fs, p, fileTree.expanded) ==>
            exists k :: 0 <= k < |fileTree.nodes| && fileTree.nodes[k].path == p)
    }

    /** `file_tree.refresh()` once note `p` is created in the snapshot `fs`. */
    method RelistWithNote(fs: seq<Entry>, p: Path)
      requires Valid() && fileTree.Valid()
      modifies fileTree
      ensures Valid() && fileTree.Valid() && NoteListed(fs, p)
      ensures fileTree.expanded == old(fileTree.expanded) && fileTree.createInput == old(fileTree.createInput)
    {
      RefreshTree(TreeWith(config.vault, fs, p, false));
      if Reachable(config.vault, fs, p, fileTree.expanded) {
        CreatedShown(config.vault, fs, p, false, fileTree.expanded);
      }
    }

    /**
     * `confirm_create_wikilink`: the held note is written with its title
     * heading when it does not exist yet, the tree is refreshed and the note
     * opened; with nothing held it only returns to Normal mode.
     */
    method ConfirmCreateWikilink(disk: Disk, now: int) returns (r: Outcome)
      requires Valid() && fileTree.Valid()
      modifies fileTree, buffer`saveDebounce, buffer`dirty, this`lastSaved, this`saved, this`pendingCreate, this`mode
      modifies this`buffer, this`inactive, this`openTabs, this`backlinks, this`backlinksSelected, this`renderCache
      modifies this`created
      ensures Valid() && fileTree.Valid()
      ensures pendingCreate == None && mode == Normal
      ensures old(pendingCreate).None? ==> r.Ok? && created == old(created) && buffer == old(buffer)
      ensures old(pendingCreate).Some? ==>
        var p := old(pendingCreate).value;
        && created == LogCreated(old(created), p, disk.existing)
        && NoteListed(disk.tree, p)
        && (r.Ok? ==> buffer.path.Some? && Links.SameFilePath(buffer.path.value, p, disk.canon))
    {
      var p, after := TakePendingNote(disk);
      if p.None? {
        return Ok(Unit);
      }
      RelistWithNote(disk.tree, p.value);
      r := OpenFileFrom(p.value, after, now);
    }

    /** `handle_key_confirm_create`: `y` creates and opens the note, `n` or Esc drops it. */
    method HandleKeyConfirmCreate(key: KeyEvent, disk: Disk, now: int) returns (r: Outcome)
      requires Valid() && fileTree.Valid()
      modifies fileTree, buffer`saveDebounce, buffer`dirty, this`lastSaved, this`saved, this`pendingCreate, this`mode
      modifies this`buffer, this`inactive, this`openTabs, this`backlinks, this`backlinksSelected, this`renderCache
      modifies this`created
      ensures Valid() && fileTree.Valid()
      ensures key.code in {Char('y'), Char('Y')} && old(pendingCreate).Some? ==>
        var p := old(pendingCreate).value;
        && pendingCreate == None && mode == Normal
        && created == LogCreated(old(created), p, disk.existing)
        && NoteListed(disk.tree, p)
        && (r.Ok? ==> buffer.path.Some? && Links.SameFilePath(buffer.path.value, p, disk.canon))
      ensures key.code in {Char('n'), Char('N'), Esc} ==>
        r.Ok? && pendingCreate == None && mode == Normal && created == old(created) && buffer == old(buffer)
      ensures key.code !in {Char('y'), Char('Y'), Char('n'), Char('N'), Esc} ==>
        r.Ok? && pendingCreate == old(pendingCreate) && mode == old(mode) && created == old(created) && buffer == old(buffer)
    {
      r := Ok(Unit);
      if key.code in {Char('y'), Char('Y')} {
        r := ConfirmCreateWikilink(disk, now);
      } else if key.code in {Char('n'), Char('N'), Esc} {
        pendingCreate := None;
        mode := Normal;
      }
    }

    // -------------------------------------------------------------------
    // Sidebar

    /**
     * What toggling the sidebar leaves, given its visibility, the mode and the
     * rows before: the visibility flips; a shown sidebar lists the tree afresh
     * in Sidebar mode; a hidden one keeps the mode and the rows.
     */
    ghost predicate SidebarToggled(visible0: bool, mode0: Mode, nodes0: seq<FileNode>, disk: Disk)
      reads this, fileTree
    {
      && sidebarVisible == !visible0
      && (sidebarVisible ==> mode == Sidebar && fileTree.nodes == Listing(config.vault, disk.tree, 0, fileTree.expanded))
      && (!sidebarVisible ==> mode == mode0 && fileTree.nodes == nodes0)
    }

    /**
     * Ctrl+e in Normal and Insert mode: the sidebar is flipped; showing it
     * refreshes the tree and enters Sidebar mode, hiding it keeps the mode.
     */
    method ToggleSidebar(disk: Disk)
      requires Valid() && fileTree.Valid()
      modifies fileTree, this`sidebarVisible, this`mode
      ensures Valid() && fileTree.Valid()
      ensures SidebarToggled(old(sidebarVisible), old(mode), old(fileTree.nodes), disk)
    {
      FlipSidebar();
      if sidebarVisible {
        RefreshTree(disk.tree);
        SetMode(Sidebar);
      }
    }

    /**
     * What `l`, Right or Enter in the sidebar leaves, given the selected row,
     * the expanded set, the mode and the active buffer before it.
     */
    ghost predicate SidebarOpened(sel: Option<FileNode>, expanded0: set<Path>, mode0: Mode, before: Buffer, disk: Disk, r: Outcome)
      reads this, fileTree, buffer
    {
      && (sel.None? ==> r.Ok? && mode == mode0 && buffer == before)
      && (sel.Some? && sel.value.isDir ==>
            r.Ok? && mode == mode0 && buffer == before && (sel.value.path in fileTree.expanded <==> sel.value.path !in expanded0))
      && (sel.Some? && !sel.value.isDir ==>
            && (r.Ok? ==> mode == Normal && buffer.path.Some? && Links.SameFilePath(buffer.path.value, sel.value.path, disk.canon))
            && (r.Err? ==> r == Err(ReadFailed(sel.value.path)) && mode == mode0))
    }

    /**
     * `l`, Right or Enter in the sidebar: a selected directory is expanded or
     * collapsed, a selected file is opened and Normal mode restored.
     */
    method OpenSidebarSelection(disk: Disk, now: int) returns (r: Outcome)
      requires Valid() && fileTree.Valid()
      modifies fileTree, buffer`saveDebounce, buffer`dirty, this`lastSaved, this`saved, this`mode
      modifies this`buffer, this`inactive, this`openTabs, this`backlinks, this`backlinksSelected, this`renderCache
      ensures Valid() && fileTree.Valid()
      ensures SidebarOpened(old(fileTree.SelectedNode()), old(fileTree.expanded), old(mode), old(buffer), disk, r)
    {
      var node := fileTree.SelectedNode();
      if node.None? {
        return Ok(Unit);
      }
      if node.value.isDir {
        ToggleTreeDir(disk.tree);
        return Ok(Unit);
      }
      r := OpenFileFrom(node.value.path, disk, now);
      if r.Ok? {
        SetMode(Normal);
      }
    }

    /** `j`/`k` in the sidebar: `FileTree.MoveSelection`. */
    method MoveTreeSelection(delta: int)
      requires Valid() && fileTree.Valid()
      modifies fileTree
      ensures Valid() && fileTree.Valid()
      ensures fileTree.nodes == old(fileTree.nodes) && fileTree.expanded == old(fileTree.expanded)
      ensures delta == 1 ==> fileTree.selected == Finder.SelectNext(old(fileTree.selected), |fileTree.nodes|)
      ensures delta == -1 ==> fileTree.selected == Finder.SelectPrev(old(fileTree.selected), |fileTree.nodes|)
    {
      fileTree.MoveSelection(delta);
    }

    /**
     * What `h`/Left leaves in the tree, given the selected row, the rows, the
     * selected index and the expanded set before it: nothing changes without a
     * selection, an expanded directory is collapsed, and otherwise the
     * selection moves to the parent directory's row when that is listed.
     */
    ghost predicate CollapsedTree(sel: Option<FileNode>, nodes0: seq<FileNode>, selected0: nat, expanded0: set<Path>, fs: seq<Entry>)
      reads this, fileTree
    {
      && (sel.None? ==>
            fileTree.nodes == nodes0 && fileTree.selected == selected0 && fileTree.expanded == expanded0)
      && (sel.Some? && sel.value.isDir && sel.value.path in expanded0 ==>
            && fileTree.expanded == expanded0 - {sel.value.path}
            && fileTree.snapshot == fs
            && fileTree.selected == Finder.ClampSelection(selected0, |fileTree.nodes|))
      && (sel.Some? && !(sel.value.isDir && sel.value.path in expanded0) ==>
            && fileTree.nodes == nodes0 && fileTree.expanded == expanded0
            && match Parent(sel.value.path)
               case None => fileTree.selected == selected0
               case Some(dir) =>
                 match FindPath(fileTree.nodes, dir)
                 case None => fileTree.selected == selected0
                 case Some(k) => fileTree.selected == k)
    }

    /** `h`/Left in the sidebar: `FileTree.CollapseSelectedOrParent`. */
    method CollapseTreeSelection(fs: seq<Entry>)
      requires Valid() && fileTree.Valid()
      modifies fileTree
      ensures Valid() && fileTree.Valid()
      ensures CollapsedTree(old(fileTree.SelectedNode()), old(fileTree.nodes), old(fileTree.selected), old(fileTree.expanded), fs)
    {
      fileTree.CollapseSelectedOrParent(fs);
    }

    /** `a` in the sidebar: the create prompt opens empty. */
    method BeginTreeCreate()
      requires Valid() && fileTree.Valid()
      modifies fileTree, this`mode
      ensures Valid() && fileTree.Valid()
      ensures mode == SidebarCreate && fileTree.createInput == "" && fileTree.nodes == old(fileTree.nodes)
    {
      fileTree.BeginCreate();
      SetMode(SidebarCreate);
    }

    /** The sidebar's visibility flipped. */
    method FlipSidebar()
      requires Valid()
      modifies this`sidebarVisible
      ensures Valid() && sidebarVisible == !old(sidebarVisible)
    {
      sidebarVisible := !sidebarVisible;
    }

    /** `FileTree.ToggleSelectedDir` on the selected directory. */
    method ToggleTreeDir(fs: seq<Entry>)
      requires Valid() && fileTree.Valid()
      modifies fileTree
      ensures Valid() && fileTree.Valid()
      ensures old(fileTree.SelectedNode()).Some? && old(fileTree.SelectedNode()).value.isDir ==>
        var p := old(fileTree.SelectedNode()).value.path;
        p in fileTree.expanded <==> p !in old(fileTree.expanded)
    {
      fileTree.ToggleSelectedDir(fs);
    }

    /** The create prompt's text replaced by `input`. */
    method SetCreateInput(input: string)
      requires Valid() && fileTree.Valid()
      modifies fileTree`createInput
      ensures Valid() && fileTree.Valid() && fileTree.createInput == input
    {
      fileTree.createInput := input;
    }

    /**
     * What a sidebar key that stays within the tree leaves, given the state
     * before it: Esc returns to Normal mode, `j`/`k` (Down/Up) move the
     * selection, `h`/Left collapse (see `CollapsedTree`), `a` opens the create
     * prompt, and any other key changes nothing.
     */
    ghost predicate BrowsedSidebar(code: KeyCode, sel: Option<FileNode>, nodes0: seq<FileNode>, selected0: nat,
                                   expanded0: set<Path>, mode0: Mode, fs: seq<Entry>)
      reads this, fileTree
    {
      && (code == Esc ==>
            mode == Normal && fileTree.nodes == nodes0 && fileTree.selected == selected0 && fileTree.expanded == expanded0)
      && (code in {Char('j'), ArrowDown} ==>
            mode == mode0 && fileTree.nodes == nodes0 && fileTree.expanded == expanded0 &&
            fileTree.selected == Finder.SelectNext(selected0, |nodes0|))
      && (code in {Char('k'), ArrowUp} ==>
            mode == mode0 && fileTree.nodes == nodes0 && fileTree.expanded == expanded0 &&
            fileTree.selected == Finder.SelectPrev(selected0, |nodes0|))
      && (code in {Char('h'), ArrowLeft} ==> mode == mode0 && CollapsedTree(sel, nodes0, selected0, expanded0, fs))
      && (code == Char('a') ==> mode == SidebarCreate && fileTree.createInput == "" && fileTree.nodes == nodes0)
      && (code !in {Esc, Char('j'), ArrowDown, Char('k'), ArrowUp, Char('h'), ArrowLeft, Char('a')} ==>
            mode == mode0 && fileTree.nodes == nodes0 && fileTree.selected == selected0 && fileTree.expanded == expanded0)
    }

    /** The sidebar keys that stay within the tree: Esc, `j`/`k`, `h`/Left and `a`. */
    method BrowseSidebar(key: KeyEvent, disk: Disk)
      requires Valid() && fileTree.Valid()
      modifies fileTree, this`mode
      ensures Valid() && fileTree.Valid()
      ensures BrowsedSidebar(key.code, old(fileTree.SelectedNode()), old(fileTree.nodes), old(fileTree.selected),
                             old(fileTree.expanded), old(mode), disk.tree)
    {
      match key.code
      case Esc =>
        SetMode(Normal);
      case ArrowDown =>
        MoveTreeSelection(1);
      case ArrowUp =>
        MoveTreeSelection(-1);
      case ArrowLeft =>
        CollapseTreeSelection(disk.tree);
      case Char(c) =>
        if c == 'j' {
          MoveTreeSelection(1);
        } else if c == 'k' {
          MoveTreeSelection(-1);
        } else if c == 'h' {
          CollapseTreeSelection(disk.tree);
        } else if c == 'a' {
          BeginTreeCreate();
        }
      case _ =>
    }

    /** Ctrl+e in the sidebar: hidden, back in Normal mode. */
    method HideSidebar()
      requires Valid()
      modifies this`sidebarVisible, this`mode
      ensures Valid() && !sidebarVisible && mode == Normal
    {
      sidebarVisible := false;
      mode := Normal;
    }

    /**
     * `handle_key_sidebar`: Ctrl+e hides the sidebar, `l`/Right/Enter act on
     * the selected row, the other keys move within the tree.
     */
    method HandleKeySidebar(key: KeyEvent, disk: Disk, now: int) returns (r: Outcome)
      requires Valid() && fileTree.Valid()
      modifies fileTree, buffer`saveDebounce, buffer`dirty, this`lastSaved, this`saved, this`mode, this`sidebarVisible
      modifies this`buffer, this`inactive, this`openTabs, this`backlinks, this`backlinksSelected, this`renderCache
      ensures Valid() && fileTree.Valid()
      ensures key.IsCtrl('e') ==> r.Ok? && !sidebarVisible && mode == Normal && buffer == old(buffer)
      ensures !key.IsCtrl('e') ==> sidebarVisible == old(sidebarVisible)
      ensures !key.IsCtrl('e') && key.code in {Char('l'), ArrowRight, Enter} ==>
        SidebarOpened(old(fileTree.SelectedNode()), old(fileTree.expanded), old(mode), old(buffer), disk, r)
      ensures !key.IsCtrl('e') && key.code !in {Char('l'), ArrowRight, Enter} ==>
        && r.Ok? && buffer == old(buffer)
        && BrowsedSidebar(key.code, old(fileTree.SelectedNode()), old(fileTree.nodes), old(fileTree.selected),
                          old(fileTree.expanded), old(mode), disk.tree)
    {
      r := Ok(Unit);
      if key.IsCtrl('e') {
        HideSidebar();
      } else if key.code in {Char('l'), ArrowRight, Enter} {
        r := OpenSidebarSelection(disk, now);
      } else {
        BrowseSidebar(key, disk);
      }
    }

    /** `FileTree.CommitCreate` on the prompt, creating in the vault's snapshot `disk.tree`. */
    method CommitTreeCreate(disk: Disk) returns (note: Option<Path>, written: Option<string>)
      requires Valid() && fileTree.Valid()
      modifies fileTree
      ensures Valid() && fileTree.Valid()
      ensures fileTree.CreateCommitted(old(fileTree.createInput), old(fileTree.CreateTargetBaseDir()), old(fileTree.selected),
                                       old(fileTree.expanded), old(fileTree.snapshot), disk.tree)
      ensures var input := Trim(old(fileTree.createInput));
        input == "" || EndsWith(input, "/") ==> note.None? && written.None?
      ensures var input := Trim(old(fileTree.createInput));
        input != "" && !EndsWith(input, "/") ==>
          note == Some(NoteTarget(JoinStr(old(fileTree.CreateTargetBaseDir()), input)))
      ensures note.Some? ==> written == if note.value in disk.existing then None else Some(NewNoteText(note.value))
    {
      note, written := fileTree.CommitCreate(disk.existing, disk.tree);
    }

    /** The ghost log of created notes after note `p` is created (written only when missing). */
    method RecordCreated(p: Path, existing: set<Path>)
      requires Valid()
      modifies this`created
      ensures Valid() && created == LogCreated(old(created), p, existing)
    {
      if p !in existing {
        created := created[p := NewNoteText(p)];
      }
    }

    /**
     * Enter in the create prompt: a note the prompt names is created when
     * missing and opened in Normal mode; anything else returns to the sidebar.
     */
    method CommitSidebarCreate(disk: Disk, now: int) returns (r: Outcome, ghost note: Option<Path>)
      requires Valid() && fileTree.Valid()
      modifies fileTree, buffer`saveDebounce, buffer`dirty, this`lastSaved, this`saved, this`mode, this`created
      modifies this`buffer, this`inactive, this`openTabs, this`backlinks, this`backlinksSelected, this`renderCache
      ensures Valid() && fileTree.Valid()
      ensures var input := Trim(old(fileTree.createInput));
        input == "" || EndsWith(input, "/") ==> note.None?
      ensures var input := Trim(old(fileTree.createInput));
        input != "" && !EndsWith(input, "/") ==>
          note == Some(NoteTarget(JoinStr(old(fileTree.CreateTargetBaseDir()), input)))
      ensures fileTree.CreateCommitted(old(fileTree.createInput), old(fileTree.CreateTargetBaseDir()), old(fileTree.selected),
                                       old(fileTree.expanded), old(fileTree.snapshot), disk.tree)
      ensures note.None? ==> r.Ok? && mode == Sidebar && buffer == old(buffer) && created == old(created)
      ensures note.Some? ==>
        && created == LogCreated(old(created), note.value, disk.existing)
        && (r.Ok? ==> mode == Normal && buffer.path.Some? && Links.SameFilePath(buffer.path.value, note.value, disk.canon))
        && (r.Err? ==> r == Err(ReadFailed(note.value)))
    {
      var made, written := CommitTreeCreate(disk);
      note := made;
      if made.None? {
        SetMode(Sidebar);
        return Ok(Unit), note;
      }
      r := OpenCreated(made.value, disk, now);
    }

    /**
     * The note `p` just created (with its title heading as its text when it
     * was missing) is logged and opened, in Normal mode once open.
     */
    method OpenCreated(p: Path, disk: Disk, now: int) returns (r: Outcome)
      requires Valid()
      modifies buffer`saveDebounce, buffer`dirty, this`lastSaved, this`saved, this`mode, this`created
      modifies this`buffer, this`inactive, this`openTabs, this`backlinks, this`backlinksSelected, this`renderCache
      ensures Valid()
      ensures created == LogCreated(old(created), p, disk.existing)
      ensures r.Ok? ==> mode == Normal && buffer.path.Some? && Links.SameFilePath(buffer.path.value, p, disk.canon)
      ensures r.Err? ==> r == Err(ReadFailed(p))
    {
      var after := WithNote(disk, config.vault, p, NewNoteText(p));
      r := OpenFileFrom(p, after, now);
      if r.Ok? {
        SetMode(Normal);
      }
      RecordCreated(p, disk.existing);
    }

    /** A mode change alone (`Msg::SetMode`). */
    method SetMode(m: Mode)
      requires Valid()
      modifies this`mode
      ensures Valid() && mode == m
    {
      mode := m;
    }

    /**
     * `handle_key_sidebar_create`: Esc drops the prompt back to the sidebar,
     * Backspace and characters edit it, Enter commits it.
     */
    method HandleKeySidebarCreate(key: KeyEvent, disk: Disk, now: int) returns (r: Outcome)
      requires Valid() && fileTree.Valid()
      modifies fileTree, buffer`saveDebounce, buffer`dirty, this`lastSaved, this`saved, this`mode, this`created
      modifies this`buffer, this`inactive, this`openTabs, this`backlinks, this`backlinksSelected, this`renderCache
      ensures Valid() && fileTree.Valid()
      ensures key.code == Esc ==> r.Ok? && fileTree.createInput == "" && mode == Sidebar
      ensures key.code == Backspace ==> r.Ok? && fileTree.createInput == Pop(old(fileTree.createInput)) && mode == old(mode)
      ensures key.code.Char? ==> r.Ok? && fileTree.createInput == old(fileTree.createInput) + [key.code.c] && mode == old(mode)
      ensures key.code !in {Esc, Backspace, Enter} && !key.code.Char? ==>
        r.Ok? && fileTree.createInput == old(fileTree.createInput) && mode == old(mode)
      ensures key.code == Enter ==>
        fileTree.CreateCommitted(old(fileTree.createInput), old(fileTree.CreateTargetBaseDir()), old(fileTree.selected),
                                 old(fileTree.expanded), old(fileTree.snapshot), disk.tree)
      ensures key.code == Enter ==>
        var input := Trim(old(fileTree.createInput));
        && (input == "" || EndsWith(input, "/") ==> r.Ok? && mode == Sidebar && buffer == old(buffer) && created == old(created))
        && (input != "" && !EndsWith(input, "/") ==>
              var p := NoteTarget(JoinStr(old(fileTree.CreateTargetBaseDir()), input));
              && created == LogCreated(old(created), p, disk.existing)
              && (r.Ok? ==> mode == Normal && buffer.path.Some? && Links.SameFilePath(buffer.path.value, p, disk.canon))
              && (r.Err? ==> r == Err(ReadFailed(p))))
      ensures key.code != Enter ==> buffer == old(buffer) && created == old(created)
    {
      r := Ok(Unit);
      match key.code
      case Esc =>
        SetCreateInput("");
        SetMode(Sidebar);
      case Backspace =>
        SetCreateInput(Pop(fileTree.createInput));
      case Enter =>
        ghost var note;
        r, note := CommitSidebarCreate(disk, now);
      case Char(c) =>
        SetCreateInput(fileTree.createInput + [c]);
      case _ =>
    }

    // -------------------------------------------------------------------
    // Command line, Insert and Normal mode

    /** The command line's text replaced by `input`. */
    method SetCommandInput(input: string)
      requires Valid()
      modifies this`commandInput
      ensures Valid() && commandInput == input
    {
      commandInput := input;
    }

    /** `event_tx.send(m)`: `m` joins the outbox. */
    method Send(m: Msg)
      requires Valid()
      modifies this`outbox
      ensures Valid() && outbox == old(outbox) + [m]
    {
      outbox := outbox + [m];
    }

    /**
     * The effect of `handle_key_command` on a command line that held `input0`
     * in mode `mode0`, with render cache `render0` and outbox `outbox0`.
     */
    ghost predicate CommandKeyDone(key: KeyEvent, input0: string, mode0: Mode, render0: RenderCache, outbox0: seq<Msg>)
      reads this
    {
      && (key.code == Esc ==> mode == Normal && commandInput == "" && renderCache.dirty && outbox == outbox0)
      && (key.code == Enter ==>
            && mode == Normal && commandInput == "" && renderCache.dirty
            && outbox == outbox0 + (if Trim(input0) == "" then [] else [PluginCommand(Trim(input0))]))
      && (key.code == Backspace ==>
            commandInput == Pop(input0) && mode == mode0 && renderCache.dirty && outbox == outbox0)
      && (key.code.Char? && (key.mods.None() || key.mods.ShiftOnly()) ==>
            commandInput == input0 + [key.code.c] && mode == mode0 && renderCache.dirty && outbox == outbox0)
      && (key.code !in {Esc, Enter, Backspace} && !(key.code.Char? && (key.mods.None() || key.mods.ShiftOnly())) ==>
            commandInput == input0 && mode == mode0 && renderCache == render0 && outbox == outbox0)
    }

    /**
     * `handle_key_command`: Esc leaves the command line; Enter leaves it and
     * sends the trimmed text, when not blank, as a plugin command; Backspace
     * and characters (no modifier, or Shift alone) edit it.
     */
    method HandleKeyCommand(key: KeyEvent)
      requires Valid()
      modifies this`mode, this`commandInput, this`renderCache, this`outbox
      ensures Valid()
      ensures CommandKeyDone(key, old(commandInput), old(mode), old(renderCache), old(outbox))
    {
      match key.code
      case Esc =>
        SetMode(Normal);
        SetCommandInput("");
        MarkRenderDirty();
      case Enter =>
        var command := Trim(commandInput);
        SetMode(Normal);
        SetCommandInput("");
        MarkRenderDirty();
        if command != "" {
          Send(PluginCommand(command));
        }
      case Backspace =>
        SetCommandInput(Pop(commandInput));
        MarkRenderDirty();
      case Char(c) =>
        if key.mods.None() || key.mods.ShiftOnly() {
          SetCommandInput(commandInput + [c]);
          MarkRenderDirty();
        }
      case _ =>
    }

    /**
     * The effect of an Insert-mode key other than Ctrl+e (`handle_key_insert`)
     * on the buffer `before`, whose cursor sits at character index `k` and
     * whose line count and cursor-line length were `lines0` and `lineLen0`,
     * with the render flag `render0` in mode `mode0`. Esc returns to Normal
     * mode; a character, Enter and Backspace edit the text with the edit
     * bookkeeping; the arrows move the cursor; other keys change nothing.
     */
    ghost predicate InsertKeyDone(code: KeyCode, now: int, k: nat, before: BufferState, lines0: nat, lineLen0: nat,
                                  render0: bool, mode0: Mode)
      reads this, buffer
      requires before.Valid() && k <= |before.text|
    {
      && buffer.path == before.path
      && (code != Esc ==> mode == mode0)
      && (code == Esc ==> mode == Normal && buffer.State() == before && renderCache.dirty == render0)
      && (code.Char? ==> BufferMsgDone(InsertChar(code.c), now, k, before, lines0, lineLen0, render0))
      && (code == Enter ==> BufferMsgDone(NewLine, now, k, before, lines0, lineLen0, render0))
      && (code == Backspace ==> BufferMsgDone(DeleteChar, now, k, before, lines0, lineLen0, render0))
      && (code in {ArrowLeft, ArrowRight, ArrowUp, ArrowDown} ==>
            var dir := match code case ArrowLeft => Left case ArrowRight => Right case ArrowUp => Up case _ => Down;
            CursorMoved(dir, before, lines0, lineLen0, render0))
      && (code !in {Esc, Enter, Backspace, ArrowLeft, ArrowRight, ArrowUp, ArrowDown} && !code.Char? ==>
            buffer.State() == before && renderCache.dirty == render0)
    }

    /**
     * `handle_key_insert`: Ctrl+e toggles the sidebar, Esc returns to Normal
     * mode, Enter, Backspace and characters edit the text, the arrows move
     * the cursor.
     */
    method HandleKeyInsert(key: KeyEvent, disk: Disk, now: int)
      requires Valid() && fileTree.Valid()
      modifies fileTree, buffer, this`renderCache, this`mode, this`sidebarVisible
      ensures Valid() && fileTree.Valid()
      ensures key.IsCtrl('e') ==> SidebarToggled(old(sidebarVisible), old(mode), old(fileTree.nodes), disk) && unchanged(buffer)
      ensures !key.IsCtrl('e') ==> sidebarVisible == old(sidebarVisible)
      ensures !key.IsCtrl('e') ==>
        var k := TextLines.CharIndexAt(old(buffer.text), old(buffer.CursorByteOffset()));
        InsertKeyDone(key.code, now, k, old(buffer.State()), old(buffer.LineCount()), old(CursorLineLen()),
                      old(renderCache.dirty), old(mode))
      ensures buffer.path == old(buffer.path)
      ensures key.code != Esc || key.IsCtrl('e') ==> mode == old(mode) || (key.IsCtrl('e') && mode == Sidebar)
    {
      if key.IsCtrl('e') {
        ToggleSidebar(disk);
      } else {
        InsertModeKey(key, now);
      }
    }

    /** The Insert-mode keys other than Ctrl+e: Esc, the edits and the arrows. */
    method InsertModeKey(key: KeyEvent, now: int)
      requires Valid()
      modifies buffer, this`renderCache, this`mode
      ensures Valid()
      ensures var k := TextLines.CharIndexAt(old(buffer.text), old(buffer.CursorByteOffset()));
        InsertKeyDone(key.code, now, k, old(buffer.State()), old(buffer.LineCount()), old(CursorLineLen()),
                      old(renderCache.dirty), old(mode))
    {
      match key.code
      case Esc => SetMode(Normal);
      case Enter => TypeNewline(now);
      case Backspace => TypeBackspace(now);
      case Char(c) => TypeChar(c, now);
      case ArrowLeft => MoveCursor(Left);
      case ArrowRight => MoveCursor(Right);
      case ArrowUp => MoveCursor(Up);
      case ArrowDown => MoveCursor(Down);
      case _ =>
    }

    /** The leader key slot set to `k`. */
    method SetPendingKey(k: Option<char>)
      requires Valid()
      modifies this`pendingKey
      ensures Valid() && pendingKey == k
    {
      pendingKey := k;
    }

    /** Any key but `q` disarms the quit latch. */
    method DisarmQuit()
      requires Valid()
      modifies this`quitArmed, this`quitUntil
      ensures Valid() && !quitArmed && quitUntil == None
    {
      quitArmed := false;
      quitUntil := None;
    }

    /** The session is to end. */
    method RequestQuit()
      requires Valid()
      modifies this`shouldQuit
      ensures Valid() && shouldQuit
    {
      shouldQuit := true;
    }

    /** `:` in Normal mode: an empty command line. */
    method EnterCommandLine()
      requires Valid()
      modifies this`mode, this`commandInput, this`renderCache
      ensures Valid() && mode == Command && commandInput == "" && renderCache.dirty
    {
      SetMode(Command);
      SetCommandInput("");
      MarkRenderDirty();
    }

    /** Ctrl+s: `save_buffer`, which writes the active buffer when it has a file. */
    method SaveActive(now: int)
      requires Valid()
      modifies buffer`saveDebounce, buffer`dirty, this`lastSaved, this`saved
      ensures Valid()
      ensures buffer.path.None? ==> unchanged(buffer) && saved == old(saved)
      ensures buffer.path.Some? ==>
        !buffer.dirty && buffer.saveDebounce == None && saved == old(saved)[buffer.path.value := buffer.text]
    {
      SaveBuffer(now);
    }

    /** Quits after writing every buffer with unsaved work (`Q`). */
    method ForceQuit(now: int)
      requires Valid()
      modifies buffer`saveDebounce, buffer`dirty, this`lastSaved, this`saved, this`inactive, this`shouldQuit
      ensures Valid() && shouldQuit
      ensures AllSaved(now, old(buffer.State()), old(inactive), old(saved), old(lastSaved))
    {
      SaveAllBuffers(now);
      RequestQuit();
    }

    /** The Normal-mode actions that open or close a panel or switch mode. */
    method PerformPanelKey(act: NormalAct, disk: Disk)
      requires Valid() && fileTree.Valid()
      requires act in {ToggleSidebarKey, ToggleBacklinksKey, InsertKey, CommandKey} || act.FindKey?
      modifies fileTree, this`mode, this`sidebarVisible, this`backlinksVisible, this`backlinks, this`backlinksSelected
      modifies this`renderCache, this`commandInput, this`finderMode, this`finderQuery, this`finderResults, this`finderSelected
      ensures Valid() && fileTree.Valid()
      ensures act == ToggleSidebarKey ==> SidebarToggled(old(sidebarVisible), old(mode), old(fileTree.nodes), disk)
      ensures act == ToggleBacklinksKey ==> BacklinksToggled(old(backlinksVisible), old(backlinks), disk)
      ensures act == InsertKey ==> mode == Insert
      ensures act == CommandKey ==> mode == Command && commandInput == "" && renderCache.dirty
      ensures act.FindKey? ==>
        && mode == FinderOpen && finderMode == act.searchMode && finderQuery == "" && finderSelected == 0
        && finderResults == FinderResults(act.searchMode, AllFilePaths(config.vault, disk.tree), disk.contents, "", score, config.maxResults)
    {
      match act
      case ToggleSidebarKey => ToggleSidebar(disk);
      case ToggleBacklinksKey => ToggleBacklinksPanel(disk);
      case InsertKey => SetMode(Insert);
      case CommandKey => EnterCommandLine();
      case FindKey(m) => OpenFinder(m, disk);
    }

    /**
     * What the `g` `d` chord leaves, given the text, the cursor and the state
     * before it: without a link under the cursor a notice is appended and
     * nothing else changes; with one, `FollowedLink` holds.
     */
    ghost predicate LinkKeyFollowed(text0: string, cursor0: CursorState, disk: Disk, before: Buffer, tabsBefore: seq<Path>,
                                    notes0: seq<string>, mode0: Mode, pending0: Option<Path>, r: Outcome)
      reads this, buffer
    {
      var link := LinkAtCursor(text0, cursor0.row, cursor0.col);
      && (link.None? ==>
            r.Ok? && notifications == notes0 + ["No WikiLink under cursor"]
            && buffer == before && mode == mode0 && pendingCreate == pending0)
      && (link.Some? ==> notifications == notes0 && FollowedLink(link.value, disk, before, tabsBefore, r))
    }

    /**
     * What Ctrl+Left/Right (a tab step of `delta`) leaves, given the state
     * before it: the tab list is kept; with one tab or an active buffer that is
     * not a tab nothing changes; otherwise the wrapped neighbour is active
     * unless reading it failed.
     */
    ghost predicate TabSwitched(delta: int, disk: Disk, before: Buffer, path0: Option<Path>, tabsBefore: seq<Path>,
                                inactive0: map<Path, BufferState>, r: Outcome)
      reads this, buffer
    {
      var active0 := if path0.None? then None else TabIndex(tabsBefore, path0.value, disk.canon);
      && openTabs == tabsBefore
      && (|tabsBefore| <= 1 || active0.None? ==> r.Ok? && buffer == before && inactive == inactive0)
      && (|tabsBefore| > 1 && active0.Some? ==>
            var target := tabsBefore[WrapIndex(active0.value, delta, |tabsBefore|)];
            && (r.Ok? ==> buffer.path == Some(target))
            && (r.Err? ==> r == Err(ReadFailed(target))))
    }

    /** The Normal-mode actions that save, quit, switch tabs or follow a link. */
    method PerformSessionKey(act: NormalAct, disk: Disk, now: int) returns (r: Outcome)
      requires Valid()
      requires act in {FollowLinkKey, QuitKey, ForceQuitKey, SaveKey} || act.TabKey?
      modifies buffer`saveDebounce, buffer`dirty, this`lastSaved, this`saved, this`inactive, this`shouldQuit
      modifies this`quitArmed, this`quitUntil, this`pendingCreate, this`mode, this`notifications
      modifies this`buffer, this`openTabs, this`backlinks, this`backlinksSelected, this`renderCache
      ensures Valid()
      ensures act in {QuitKey, ForceQuitKey, SaveKey} ==> r.Ok?
      ensures act != QuitKey ==> quitArmed == old(quitArmed) && quitUntil == old(quitUntil)
      ensures act == QuitKey ==>
        && (old(PendingWriteCount()) == 0 || old(quitArmed) ==> shouldQuit)
        && (old(PendingWriteCount()) > 0 && !old(quitArmed) ==> quitArmed && quitUntil == Some(now + QuitConfirmMs))
        && (old(PendingWriteCount()) > 0 && old(quitArmed) ==>
              AllSaved(now, old(buffer.State()), old(inactive), old(saved), old(lastSaved)))
        && (old(PendingWriteCount()) == 0 || !old(quitArmed) ==>
              saved == old(saved) && inactive == old(inactive) && buffer == old(buffer) && unchanged(old(buffer)))
      ensures act == ForceQuitKey ==>
        shouldQuit && AllSaved(now, old(buffer.State()), old(inactive), old(saved), old(lastSaved))
      ensures act == SaveKey && buffer.path.Some? ==> !buffer.dirty && saved == old(saved)[buffer.path.value := buffer.text]
      ensures act == FollowLinkKey ==>
        LinkKeyFollowed(old(buffer.text), old(buffer.cursor), disk,
                        old(buffer), old(openTabs), old(notifications), old(mode), old(pendingCreate), r)
      ensures act.TabKey? ==> TabSwitched(act.delta, disk, old(buffer), old(buffer.path), old(openTabs), old(inactive), r)
    {
      r := Ok(Unit);
      match act
      case FollowLinkKey =>
        ghost var link;
        r, link := FollowWikilinkUnderCursor(disk, now);
      case QuitKey => PressQuit(now);
      case ForceQuitKey => ForceQuit(now);
      case SaveKey => SaveActive(now);
      case TabKey(delta) => r := SwitchTabRelative(delta, disk);
    }

    /** Any key but `q` disarms the quit latch; a pending `g` is consumed. */
    method ClearNormalLatches(key: KeyEvent)
      requires Valid()
      modifies this`quitArmed, this`quitUntil, this`pendingKey
      ensures Valid()
      ensures key.code != Char('q') ==> !quitArmed && quitUntil == None
      ensures key.code == Char('q') ==> quitArmed == old(quitArmed) && quitUntil == old(quitUntil)
      ensures pendingKey == if old(pendingKey) == Some('g') then None else old(pendingKey)
    {
      if key.code != Char('q') {
        DisarmQuit();
      }
      if pendingKey == Some('g') {
        SetPendingKey(None);
      }
    }

    /** Carries out a Normal-mode action (see `NormalAction`). */
    method PerformNormal(act: NormalAct, disk: Disk, now: int) returns (r: Outcome)
      requires Valid() && fileTree.Valid()
      modifies fileTree, buffer, this`lastSaved, this`saved, this`inactive, this`shouldQuit
      modifies this`quitArmed, this`quitUntil, this`pendingCreate, this`mode, this`notifications, this`pendingKey
      modifies this`buffer, this`openTabs, this`backlinks, this`backlinksSelected, this`renderCache
      modifies this`sidebarVisible, this`backlinksVisible, this`commandInput
      modifies this`finderMode, this`finderQuery, this`finderResults, this`finderSelected
      ensures Valid() && fileTree.Valid()
      ensures act != QuitKey ==> quitArmed == old(quitArmed) && quitUntil == old(quitUntil)
      ensures pendingKey == if act == LeaderKey then Some('g') else old(pendingKey)
      ensures act.MoveKey? ==>
        CursorMoved(act.dir, old(buffer.State()), old(buffer.LineCount()), old(CursorLineLen()), old(renderCache.dirty))
      ensures act == NoKey ==> mode == old(mode) && buffer == old(buffer)
    {
      r := Ok(Unit);
      if act in {ToggleSidebarKey, ToggleBacklinksKey, InsertKey, CommandKey} || act.FindKey? {
        PerformPanelKey(act, disk);
      } else {
        r := PerformBufferKey(act, disk, now);
      }
    }

    /** The Normal-mode actions that are not panel or mode switches: motions, the leader, the session keys. */
    method PerformBufferKey(act: NormalAct, disk: Disk, now: int) returns (r: Outcome)
      requires Valid() && fileTree.Valid()
      requires !(act in {ToggleSidebarKey, ToggleBacklinksKey, InsertKey, CommandKey} || act.FindKey?)
      modifies buffer, this`lastSaved, this`saved, this`inactive, this`shouldQuit
      modifies this`quitArmed, this`quitUntil, this`pendingCreate, this`mode, this`notifications, this`pendingKey
      modifies this`buffer, this`openTabs, this`backlinks, this`backlinksSelected, this`renderCache
      ensures Valid() && fileTree.Valid()
      ensures act != QuitKey ==> quitArmed == old(quitArmed) && quitUntil == old(quitUntil)
      ensures pendingKey == if act == LeaderKey then Some('g') else old(pendingKey)
      ensures act.MoveKey? ==>
        CursorMoved(act.dir, old(buffer.State()), old(buffer.LineCount()), old(CursorLineLen()), old(renderCache.dirty))
      ensures act == NoKey ==> mode == old(mode) && buffer == old(buffer)
      ensures act in {QuitKey, ForceQuitKey, SaveKey} ==> r.Ok?
      ensures act == QuitKey ==>
        && (old(PendingWriteCount()) == 0 || old(quitArmed) ==> shouldQuit)
        && (old(PendingWriteCount()) > 0 && !old(quitArmed) ==> quitArmed && quitUntil == Some(now + QuitConfirmMs))
        && (old(PendingWriteCount()) > 0 && old(quitArmed) ==>
              AllSaved(now, old(buffer.State()), old(inactive), old(saved), old(lastSaved)))
        && (old(PendingWriteCount()) == 0 || !old(quitArmed) ==>
              saved == old(saved) && inactive == old(inactive) && buffer == old(buffer) && unchanged(old(buffer)))
      ensures act == ForceQuitKey ==>
        shouldQuit && AllSaved(now, old(buffer.State()), old(inactive), old(saved), old(lastSaved))
      ensures act == SaveKey && buffer.path.Some? ==> !buffer.dirty && saved == old(saved)[buffer.path.value := buffer.text]
      ensures act == FollowLinkKey ==>
        LinkKeyFollowed(old(buffer.text), old(buffer.cursor), disk,
                        old(buffer), old(openTabs), old(notifications), old(mode), old(pendingCreate), r)
      ensures act.TabKey? ==> TabSwitched(act.delta, disk, old(buffer), old(buffer.path), old(openTabs), old(inactive), r)
    {
      r := Ok(Unit);
      if act in {FollowLinkKey, QuitKey, ForceQuitKey, SaveKey} || act.TabKey? {
        r := PerformSessionKey(act, disk, now);
      } else {
        PerformMotionKey(act);
      }
    }

    /** A motion, the leader key or an unbound key in Normal mode. */
    method PerformMotionKey(act: NormalAct)
      requires Valid()
      requires act.MoveKey? || act in {LeaderKey, NoKey}
      modifies buffer, this`pendingKey, this`renderCache
      ensures Valid()
      ensures pendingKey == if act == LeaderKey then Some('g') else old(pendingKey)
      ensures act.MoveKey? ==>
        CursorMoved(act.dir, old(buffer.State()), old(buffer.LineCount()), old(CursorLineLen()), old(renderCache.dirty))
      ensures !act.MoveKey? ==> unchanged(buffer)
    {
      if act.MoveKey? {
        MoveCursor(act.dir);
      } else if act == LeaderKey {
        SetPendingKey(Some('g'));
      }
    }

    /**
     * `handle_key_normal`: the latches are cleared and the key's
     * `NormalAction` is carried out.
     */
    method HandleKeyNormal(key: KeyEvent, disk: Disk, now: int) returns (r: Outcome, act: NormalAct)
      requires Valid() && fileTree.Valid()
      modifies fileTree, buffer, this`lastSaved, this`saved, this`inactive, this`shouldQuit
      modifies this`quitArmed, this`quitUntil, this`pendingCreate, this`mode, this`notifications, this`pendingKey
      modifies this`buffer, this`openTabs, this`backlinks, this`backlinksSelected, this`renderCache
      modifies this`sidebarVisible, this`backlinksVisible, this`commandInput
      modifies this`finderMode, this`finderQuery, this`finderResults, this`finderSelected
      ensures Valid() && fileTree.Valid()
      ensures act == NormalAction(key, old(pendingKey))
      ensures key.code != Char('q') ==> !quitArmed && quitUntil == None
      ensures pendingKey == if act == LeaderKey then Some('g') else if old(pendingKey) == Some('g') then None else old(pendingKey)
      ensures act.MoveKey? ==>
        CursorMoved(act.dir, old(buffer.State()), old(buffer.LineCount()), old(CursorLineLen()), old(renderCache.dirty))
    {
      act := NormalAction(key, pendingKey);
      ClearNormalLatches(key);
      r := PerformNormal(act, disk, now);
    }

    /** The panel shown and refreshed, in Backlinks mode. */
    method ShowBacklinksPanel(disk: Disk)
      requires Valid()
      modifies this`backlinksVisible, this`backlinks, this`backlinksSelected, this`mode, this`renderCache
      ensures Valid()
      ensures backlinksVisible && renderCache.dirty && mode == Backlinks && backlinksSelected == 0
      ensures backlinks == Links.Backlinks(buffer.path, AllFilePaths(config.vault, disk.tree), disk.contents, disk.canon)
    {
      backlinksVisible := true;
      RefreshBacklinks(disk);
      mode := Backlinks;
      MarkRenderDirty();
    }

    /** The panel hidden, back in Normal mode; its entries stay as they were. */
    method HideBacklinksPanel()
      requires Valid()
      modifies this`backlinksVisible, this`mode, this`renderCache
      ensures Valid()
      ensures !backlinksVisible && renderCache.dirty && mode == Normal
    {
      backlinksVisible := false;
      mode := Normal;
      MarkRenderDirty();
    }

    /**
     * What toggling the backlinks panel leaves, given its visibility and its
     * entries before: the visibility flips; a shown panel holds the active
     * note's backlinks, selects the first and is in Backlinks mode; a hidden
     * one keeps its entries and returns to Normal mode.
     */
    ghost predicate BacklinksToggled(visible0: bool, backlinks0: seq<Links.BacklinkEntry>, disk: Disk)
      reads this, buffer
    {
      && backlinksVisible == !visible0 && renderCache.dirty
      && (backlinksVisible ==>
            mode == Backlinks && backlinksSelected == 0 &&
            backlinks == Links.Backlinks(buffer.path, AllFilePaths(config.vault, disk.tree), disk.contents, disk.canon))
      && (!backlinksVisible ==> mode == Normal && backlinks == backlinks0)
    }

    /**
     * `toggle_backlinks_panel`: showing the panel refreshes it and enters
     * Backlinks mode, hiding it returns to Normal; the tree is refreshed.
     */
    method ToggleBacklinksPanel(disk: Disk)
      requires Valid() && fileTree.Valid()
      modifies fileTree, this`backlinksVisible, this`backlinks, this`backlinksSelected, this`mode, this`renderCache
      ensures Valid() && fileTree.Valid()
      ensures BacklinksToggled(old(backlinksVisible), old(backlinks), disk)
      ensures fileTree.nodes == Listing(config.vault, disk.tree, 0, fileTree.expanded)
    {
      if backlinksVisible {
        HideBacklinksPanel();
      } else {
        ShowBacklinksPanel(disk);
      }
      RefreshTree(disk.tree);
    }

    // -------------------------------------------------------------------
    // Dispatch

    /** The key handlers of the editing modes: Normal, Insert and Command. */
    method HandleEditKey(key: KeyEvent, disk: Disk, now: int) returns (r: Outcome)
      requires Valid() && fileTree.Valid() && mode in {Normal, Insert, Command}
      modifies fileTree, buffer, this`lastSaved, this`saved, this`inactive, this`shouldQuit
      modifies this`quitArmed, this`quitUntil, this`pendingCreate, this`mode, this`notifications, this`pendingKey
      modifies this`buffer, this`openTabs, this`backlinks, this`backlinksSelected, this`renderCache
      modifies this`sidebarVisible, this`backlinksVisible, this`commandInput
      modifies this`finderMode, this`finderQuery, this`finderResults, this`finderSelected, this`outbox
      ensures Valid() && fileTree.Valid()
      ensures old(mode) != Normal ==>
        r.Ok? && pendingKey == old(pendingKey) && shouldQuit == old(shouldQuit) && quitArmed == old(quitArmed)
      ensures old(mode) != Command ==> outbox == old(outbox)
    {
      r := Ok(Unit);
      if mode == Normal {
        var act;
        r, act := HandleKeyNormal(key, disk, now);
      } else {
        HandleTypingKey(key, disk, now);
      }
    }

    /** A key in Insert mode goes to `handle_key_insert`, one in Command mode to `handle_key_command`. */
    method HandleTypingKey(key: KeyEvent, disk: Disk, now: int)
      requires Valid() && fileTree.Valid() && mode in {Insert, Command}
      modifies fileTree, buffer, this`renderCache, this`mode, this`sidebarVisible, this`commandInput, this`outbox
      ensures Valid() && fileTree.Valid()
      ensures old(mode) != Command ==> outbox == old(outbox)
      ensures old(mode) == Insert ==>
        && commandInput == old(commandInput)
        && (key.IsCtrl('e') ==> SidebarToggled(old(sidebarVisible), old(mode), old(fileTree.nodes), disk) && unchanged(buffer))
        && (!key.IsCtrl('e') ==> sidebarVisible == old(sidebarVisible))
        && (!key.IsCtrl('e') ==>
              var k := TextLines.CharIndexAt(old(buffer.text), old(buffer.CursorByteOffset()));
              InsertKeyDone(key.code, now, k, old(buffer.State()), old(buffer.LineCount()), old(CursorLineLen()),
                            old(renderCache.dirty), old(mode)))
      ensures old(mode) == Command ==>
        && CommandKeyDone(key, old(commandInput), old(mode), old(renderCache), old(outbox))
        && unchanged(buffer) && unchanged(fileTree) && sidebarVisible == old(sidebarVisible)
    {
      if mode == Insert {
        HandleKeyInsert(key, disk, now);
      } else {
        HandleKeyCommand(key);
      }
    }

    /** The key handlers of the panel modes. */
    method HandlePanelKey(key: KeyEvent, disk: Disk, now: int) returns (r: Outcome)
      requires Valid() && fileTree.Valid() && mode in {Sidebar, SidebarCreate, FinderOpen, ConfirmCreate, Backlinks}
      modifies fileTree, buffer, this`lastSaved, this`saved, this`mode, this`buffer, this`inactive, this`openTabs
      modifies this`backlinks, this`backlinksSelected, this`backlinksVisible, this`renderCache, this`sidebarVisible
      modifies this`finderQuery, this`finderResults, this`finderSelected, this`pendingCreate, this`created
      ensures Valid() && fileTree.Valid()
      ensures old(mode) !in {ConfirmCreate, SidebarCreate} ==> created == old(created)
    {
      match mode
      case Sidebar => r := HandleKeySidebar(key, disk, now);
      case SidebarCreate => r := HandleKeySidebarCreate(key, disk, now);
      case FinderOpen => r := HandleKeyFinder(key, disk, now);
      case ConfirmCreate => r := HandleKeyConfirmCreate(key, disk, now);
      case Backlinks => r := HandleKeyBacklinks(key, disk, now);
    }

    /**
     * `handle_key`: the key goes to the current mode's handler; the link
     * picker has none. Only Normal mode quits or uses the leader key, only
     * the command line sends messages, and only confirming a wikilink or
     * naming a note in the sidebar creates one.
     */
    method HandleKey(key: KeyEvent, disk: Disk, now: int) returns (r: Outcome)
      requires Valid() && fileTree.Valid()
      modifies fileTree, buffer, this`lastSaved, this`saved, this`inactive, this`shouldQuit
      modifies this`quitArmed, this`quitUntil, this`pendingCreate, this`mode, this`notifications, this`pendingKey
      modifies this`buffer, this`openTabs, this`backlinks, this`backlinksSelected, this`renderCache
      modifies this`sidebarVisible, this`backlinksVisible, this`commandInput
      modifies this`finderMode, this`finderQuery, this`finderResults, this`finderSelected, this`outbox, this`created
      ensures Valid() && fileTree.Valid()
      ensures old(mode) == LinkPicker ==> r.Ok? && unchanged(this) && unchanged(buffer) && unchanged(fileTree)
      ensures old(mode) != Normal ==>
        pendingKey == old(pendingKey) && shouldQuit == old(shouldQuit) && quitArmed == old(quitArmed)
      ensures old(mode) != Command ==> outbox == old(outbox)
      ensures old(mode) !in {ConfirmCreate, SidebarCreate} ==> created == old(created)
    {
      r := Ok(Unit);
      if mode in {Normal, Insert, Command} {
        r := HandleEditKey(key, disk, now);
      } else if mode != LinkPicker {
        r := HandlePanelKey(key, disk, now);
      }
    }

    /** The window resized to `height` rows: the editor gets all but the tab and status bars. */
    method Resize(height: nat)
      requires Valid()
      modifies buffer`viewport, this`renderCache
      ensures Valid() && buffer.viewport == old(buffer.viewport).(height := SatSub(height, 3)) && renderCache.dirty
    {
      buffer.viewport := buffer.viewport.(height := SatSub(height, 3));
      MarkRenderDirty();
    }

    /** The messages that edit or move in the active buffer, or resize it. */
    method UpdateBuffer(msg: Msg, now: int)
      requires Valid() && (msg.InsertChar? || msg.DeleteChar? || msg.NewLine? || msg.MoveCursor? || msg.Resize?)
      modifies buffer, this`renderCache
      ensures Valid()
      ensures var k := TextLines.CharIndexAt(old(buffer.text), old(buffer.CursorByteOffset()));
        BufferMsgDone(msg, now, k, old(buffer.State()), old(buffer.LineCount()), old(CursorLineLen()), old(renderCache.dirty))
    {
      if msg.MoveCursor? || msg.Resize? {
        UpdateView(msg);
      } else {
        UpdateText(msg, now);
      }
    }

    /** The messages that edit the text: a character, a line break, a backspace. */
    method UpdateText(msg: Msg, now: int)
      requires Valid() && (msg.InsertChar? || msg.DeleteChar? || msg.NewLine?)
      modifies buffer, this`renderCache
      ensures Valid()
      ensures var k := TextLines.CharIndexAt(old(buffer.text), old(buffer.CursorByteOffset()));
        BufferMsgDone(msg, now, k, old(buffer.State()), old(buffer.LineCount()), old(CursorLineLen()), old(renderCache.dirty))
    {
      match msg
      case InsertChar(ch) => TypeChar(ch, now);
      case DeleteChar => TypeBackspace(now);
      case NewLine => TypeNewline(now);
    }

    /** The messages that move the cursor or resize the window. */
    method UpdateView(msg: Msg)
      requires Valid() && (msg.MoveCursor? || msg.Resize?)
      modifies buffer, this`renderCache
      ensures Valid()
      ensures var k := TextLines.CharIndexAt(old(buffer.text), old(buffer.CursorByteOffset()));
        BufferMsgDone(msg, 0, k, old(buffer.State()), old(buffer.LineCount()), old(CursorLineLen()), old(renderCache.dirty))
    {
      match msg
      case MoveCursor(dir) => MoveCursor(dir);
      case Resize(_, h) => Resize(h);
    }

    /** The messages that save, open or reload files, and the tick. */
    method UpdateFiles(msg: Msg, disk: Disk, now: int) returns (r: Outcome)
      requires Valid() && fileTree.Valid()
      requires msg.SaveActiveBuffer? || msg.SaveAllBuffers? || msg.OpenFile? || msg.FileChanged? || msg.Tick?
      modifies fileTree, buffer`saveDebounce, buffer`dirty, this`lastSaved, this`saved, this`inactive
      modifies this`buffer, this`openTabs, this`backlinks, this`backlinksSelected, this`renderCache
      modifies this`quitArmed, this`quitUntil
      ensures Valid() && fileTree.Valid()
      ensures !msg.OpenFile? ==> r.Ok?
      ensures msg.SaveAllBuffers? ==> PendingWriteCount() == (if buffer.path.None? && buffer.State().Pending() then 1 else 0)
      ensures msg.OpenFile? && r.Ok? ==> buffer.path.Some? && Links.SameFilePath(buffer.path.value, msg.path, disk.canon)
    {
      r := Ok(Unit);
      match msg
      case SaveActiveBuffer => SaveActive(now);
      case SaveAllBuffers => SaveAllBuffers(now);
      case OpenFile(path) => r := OpenFileFrom(path, disk, now);
      case FileChanged(path) => HandleFileChanged(path, disk, now);
      case Tick => HandleTick(now);
    }

    /** The messages that quit, set the mode or come from plugins. */
    method UpdateSession(msg: Msg, disk: Disk)
      requires Valid() && pluginManager.Valid()
      requires msg.Quit? || msg.SetMode? || msg.PluginCommand? || msg.PluginEvent?
      modifies pluginManager, pluginManager.runtimes.Values, this`shouldQuit, this`mode, this`notifications, this`renderCache
      ensures Valid() && pluginManager.Valid()
      ensures msg.Quit? ==> shouldQuit
      ensures !msg.Quit? ==> shouldQuit == old(shouldQuit)
      ensures msg.SetMode? ==> mode == msg.mode
    {
      match msg
      case Quit => RequestQuit();
      case SetMode(m) => SetMode(m);
      case PluginCommand(command) => HandlePluginCommand(command, disk);
      case PluginEvent(_, action) => HandlePluginEvent(action);
    }

    /**
     * `update`: one message handled. Only a key sends messages on, only
     * `Quit` and Normal-mode keys end the session, and mouse events and the
     * scratch auto-save message change nothing.
     */
    method Update(msg: Msg, disk: Disk, now: int) returns (r: Outcome)
      requires Valid() && fileTree.Valid() && pluginManager.Valid()
      modifies this, buffer, fileTree, pluginManager, pluginManager.runtimes.Values
      ensures Valid() && fileTree.Valid() && pluginManager.Valid()
      ensures msg.Quit? ==> shouldQuit
      ensures msg.SetMode? ==> mode == msg.mode
      ensures msg.Mouse? || msg.ScratchAutoSave? ==> r.Ok? && unchanged(this) && unchanged(buffer)
      ensures !msg.Key? ==> outbox == old(outbox)
      ensures !msg.Key? && !msg.Quit? ==> shouldQuit == old(shouldQuit)
    {
      r := Ok(Unit);
      if msg.Key? {
        r := HandleKey(msg.key, disk, now);
      } else if !(msg.Mouse? || msg.ScratchAutoSave?) {
        r := UpdateOther(msg, disk, now);
      }
    }

    /** Every message but a key, a mouse event and the scratch auto-save message. */
    method UpdateOther(msg: Msg, disk: Disk, now: int) returns (r: Outcome)
      requires Valid() && fileTree.Valid() && pluginManager.Valid()
      requires !msg.Key? && !msg.Mouse? && !msg.ScratchAutoSave?
      modifies buffer, fileTree, pluginManager, pluginManager.runtimes.Values
      modifies this`lastSaved, this`saved, this`inactive, this`buffer, this`openTabs, this`backlinks, this`backlinksSelected
      modifies this`renderCache, this`quitArmed, this`quitUntil, this`shouldQuit, this`mode, this`notifications
      ensures Valid() && fileTree.Valid() && pluginManager.Valid()
      ensures msg.Quit? ==> shouldQuit
      ensures !msg.Quit? ==> shouldQuit == old(shouldQuit)
      ensures msg.SetMode? ==> mode == msg.mode
    {
      r := Ok(Unit);
      if msg.InsertChar? || msg.DeleteChar? || msg.NewLine? || msg.MoveCursor? || msg.Resize? {
        UpdateBuffer(msg, now);
      } else if msg.SaveActiveBuffer? || msg.SaveAllBuffers? || msg.OpenFile? || msg.FileChanged? || msg.Tick? {
        r := UpdateFiles(msg, disk, now);
      } else {
        UpdateSession(msg, disk);
      }
    }
  }

  /**
   * `lines` are the lines `top..bottom` of `text` (none when `bottom` is
   * before `top`), each rendered exactly as a pass over the whole note from
   * its first line renders it.
   */
  ghost predicate WindowRendered(lines: seq<Markdown.RenderedLine>, text: string, top: nat, bottom: nat) {
    var doc := TextLines.AllLines(text);
    var fences := Markdown.Fences(doc);
    && |lines| == (if bottom < top then 0 else bottom - top)
    && forall k :: top <= k < bottom ==>
         lines[k - top] == Markdown.RenderWith(Markdown.LineOr(doc, k), Markdown.FenceAt(fences, k), Markdown.FenceState(fences, k)).0
  }

  /** The rebuild of `render_editor` on the lines `top..bottom` of `text`. */
  method RenderWindowOf(text: string, top: nat, bottom: nat) returns (lines: seq<Markdown.RenderedLine>)
    ensures WindowRendered(lines, text, top, bottom)
  {
    var doc := TextLines.AllLines(text);
    var end := if bottom < top then top else bottom;
    lines := Markdown.RenderWindow(doc, top, end);
    forall k | top <= k < end
      ensures lines[k - top]
        == Markdown.RenderWith(Markdown.LineOr(doc, k), Markdown.FenceAt(Markdown.Fences(doc), k),
                               Markdown.FenceState(Markdown.Fences(doc), k)).0
    {
      Markdown.RenderLinesAt(doc, Markdown.Fences(doc), top, end, k);
    }
  }

  /**
   * `m` is the manager `PluginManager::new` builds from the configuration:
   * one runtime per distinct plugin key, in first-seen order, each holding
   * what reading its manifest gave.
   */
  ghost predicate BuiltFrom(m: Plugins.PluginManager, config: Config, read: PathText -> Result<Plugins.Manifest, string>)
    reads m, m.runtimes.Values
  {
    && m.Valid()
    && Plugins.Registry(m.runtimes, m.order, Plugins.Candidates(config.plugins, config.home, config.pluginBase))
    && Plugins.AllDiscovered(m.runtimes, read)
  }

  /** A new manager built from the configuration's plugins. */
  method LoadPlugins(config: Config, read: PathText -> Result<Plugins.Manifest, string>) returns (m: Plugins.PluginManager)
    ensures fresh(m) && m.Valid() && BuiltFrom(m, config, read)
  {
    m := new Plugins.PluginManager(config.plugins, config.home, config.pluginBase, read);
  }

  /** The scratch note's text on disk, or nothing when it does not exist yet (or cannot be read). */
  function ScratchText(config: Config, disk: Disk): string {
    if config.scratch in disk.existing && config.scratch in disk.contents then disk.contents[config.scratch] else ""
  }

  /**
   * `app` as `App::new` leaves it: valid, in Normal mode with the scratch
   * note as its only tab and active buffer (clean, with the text on disk or
   * empty), the tree listing the vault with only the root expanded, the
   * plugin manager built from the configuration and its startup report as
   * the notifications.
   */
  ghost predicate Started(app: App, config: Config, disk: Disk)
    reads app, app.buffer, app.fileTree, app.pluginManager, app.pluginManager.runtimes.Values
  {
    && app.Valid() && app.fileTree.Valid() && app.pluginManager.Valid() && app.config == config
    && app.mode == Normal && app.openTabs == [config.scratch] && app.inactive == map[]
    && app.buffer.path == Some(config.scratch) && !app.buffer.dirty
    && app.buffer.text == ScratchText(config, disk)
    && app.fileTree.nodes == Listing(config.vault, disk.tree, 0, {config.vault})
    && BuiltFrom(app.pluginManager, config, disk.manifests)
    && app.notifications == Plugins.StartupNotifications(app.pluginManager.Infos())
  }

  /**
   * `App::new`: fails only when the scratch note exists but cannot be read;
   * otherwise the session starts as `Started` describes.
   */
  method NewApp(config: Config, disk: Disk, score: Finder.Scorer) returns (r: Result<App, Failure>)
    ensures r.Err? <==> config.scratch in disk.existing && config.scratch !in disk.contents
    ensures r.Err? ==> r.error == ReadFailed(config.scratch)
    ensures r.Ok? ==> fresh(r.value) && Started(r.value, config, disk)
  {
    var scratch := OpenScratch(config, disk);
    if scratch.Err? {
      return Err(scratch.error);
    }
    var app := StartApp(config, disk, score, scratch.value);
    return Ok(app);
  }

  /** The session built around the scratch note's buffer. */
  method StartApp(config: Config, disk: Disk, score: Finder.Scorer, scratch: Buffer) returns (app: App)
    requires scratch.Valid() && scratch.path == Some(config.scratch) && !scratch.dirty
    requires scratch.text == ScratchText(config, disk)
    ensures fresh(app) && Started(app, config, disk)
  {
    var tree, manager := OpenVault(config, disk);
    var startup := Plugins.StartupNotifications(manager.Infos());
    app := new App(config, score, scratch, tree, manager, startup);
    assert app.buffer == scratch && app.fileTree == tree && app.pluginManager == manager;
    assert app.buffer.text == ScratchText(config, disk) && app.fileTree.nodes == Listing(config.vault, disk.tree, 0, {config.vault});
    assert BuiltFrom(app.pluginManager, config, disk.manifests);
  }

  /** A fresh buffer over `contents` that keeps the old cursor (clamped) and window. */
  method ReloadedBuffer(path: Path, contents: string, cursor: CursorState, viewport: Viewport, scrollOff: nat) returns (b: Buffer)
    ensures fresh(b) && b.Valid() && b.State() == Reloaded(path, contents, cursor, viewport, scrollOff)
  {
    b := new Buffer.FromFile(path, contents);
    b.cursor := cursor;
    b.viewport := viewport.(scrollOff := scrollOff);
    b.ClampCursor();
    b.ScrollToCursor();
  }

  /** The vault's file tree and the plugin manager, both built afresh from the disk at start-up. */
  method OpenVault(config: Config, disk: Disk) returns (tree: FileTree, manager: Plugins.PluginManager)
    ensures fresh(tree) && fresh(manager)
    ensures tree.Valid() && tree.root == config.vault && tree.nodes == Listing(config.vault, disk.tree, 0, {config.vault})
    ensures BuiltFrom(manager, config, disk.manifests)
  {
    tree := new FileTree(config.vault, disk.tree);
    manager := LoadPlugins(config, disk.manifests);
  }

  /** The scratch note's buffer at start-up: read from disk when it exists, else new and empty. */
  method OpenScratch(config: Config, disk: Disk) returns (r: Result<Buffer, Failure>)
    ensures r.Err? <==> config.scratch in disk.existing && config.scratch !in disk.contents
    ensures r.Err? ==> r.error == ReadFailed(config.scratch)
    ensures r.Ok? ==>
      && fresh(r.value) && r.value.Valid() && r.value.path == Some(config.scratch) && !r.value.dirty
      && r.value.text == (if config.scratch in disk.existing then disk.contents[config.scratch] else "")
  {
    var scratch: Buffer;
    if config.scratch in disk.existing {
      if config.scratch !in disk.contents {
        return Err(ReadFailed(config.scratch));
      }
      scratch := new Buffer.FromFile(config.scratch, disk.contents[config.scratch]);
    } else {
      scratch := new Buffer();
      scratch.path := Some(config.scratch);
    }
    return Ok(scratch);
  }
}
