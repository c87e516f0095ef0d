/** The editor's interaction modes and their status-bar labels. */
module Modes {
  /**
   * Normal is the starting mode. ConfirmCreate (confirming that a missing
   * wikilink target should be created) and Backlinks (the backlinks panel)
   * are modes the application switches to as well.
   */
  datatype Mode =
    | Normal
    | Insert
    | Sidebar
    | SidebarCreate
    | Command
    | FinderOpen
    | LinkPicker
    | ConfirmCreate
    | Backlinks

  const DefaultMode: Mode := Normal

  predicate IsUpperWord(s: string)
  {
    |s| > 0 && forall i :: 0 <= i < |s| ==> 'A' <= s[i] <= 'Z'
  }

  /** The label shown in the status bar: a non-empty upper-case word. */
  function Label(m: Mode): (s: string)
    ensures IsUpperWord(s)
  {
    match m
    case Normal => "NORMAL"
    case Insert => "INSERT"
    case Sidebar => "SIDEBAR"
    case SidebarCreate => "CREATE"
    case Command => "COMMAND"
    case FinderOpen => "FINDER"
    case LinkPicker => "LINK"
    case ConfirmCreate => "CONFIRM"
    case Backlinks => "BACKLINKS"
  }

  /** Different modes show different labels, so the status bar identifies the mode. */
  lemma {:induction false} LabelInjective(a: Mode, b: Mode)
    ensures Label(a) == Label(b) ==> a == b
  {
  }
}
