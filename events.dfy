/**
 * The messages the editor reacts to, one at a time: key presses, edits,
 * cursor moves, file events, plugin commands and clock ticks.
 */
module Events {
  import opened Paths
  import Modes

  /** The keys the handlers tell apart; every other key is `OtherKey`. */
  datatype KeyCode =
    | Char(c: char)
    | Esc
    | Enter
    | Backspace
    | ArrowLeft
    | ArrowRight
    | ArrowUp
    | ArrowDown
    | OtherKey

  /** The modifier keys held down; `alt` stands for every modifier other than Control and Shift. */
  datatype Modifiers = Modifiers(control: bool, shift: bool, alt: bool)
  {
    /** `modifiers.is_empty()`. */
    predicate None() {
      !control && !shift && !alt
    }

    /** `modifiers == KeyModifiers::SHIFT`. */
    predicate ShiftOnly() {
      shift && !control && !alt
    }
  }

  datatype KeyEvent = KeyEvent(code: KeyCode, mods: Modifiers)
  {
    /** Control held together with the character `c`. */
    predicate IsCtrl(c: char) {
      mods.control && code == Char(c)
    }
  }

  /** Where a cursor move goes. */
  datatype Direction = Up | Down | Left | Right | LineStart | LineEnd

  /** What a plugin asks of the editor. */
  datatype PluginAction = Notify(message: string) | RequestRedraw

  datatype Msg =
    | Key(key: KeyEvent)
    | Mouse
    | Resize(width: nat, height: nat)
    | InsertChar(ch: char)
    | DeleteChar
    | NewLine
    | MoveCursor(dir: Direction)
    | SetMode(mode: Modes.Mode)
    | SaveActiveBuffer
    | SaveAllBuffers
    | OpenFile(path: Path)
    | FileChanged(path: Path)
    | ScratchAutoSave
    | PluginCommand(command: string)
    | PluginEvent(pluginId: string, action: PluginAction)
    | Tick
    | Quit
}
