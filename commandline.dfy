/**
 * The `:` command line: what a submitted command asks for, and how the
 * argument of `plugin <command>` is read, with quotes and backslash escapes.
 */
module CommandLine {
  import opened Wrappers
  import opened Text

  /**
   * Backslash escapes in a quoted argument: a backslash makes the next
   * character literal and is dropped; a backslash at the very end is kept.
   * `escaped` says whether the character before `s` was an unused backslash.
   */
  function UnescapeFrom(s: string, escaped: bool): string
    decreases |s|
  {
    if s == [] then (if escaped then "\\" else "")
    else if escaped then [s[0]] + UnescapeFrom(s[1..], false)
    else if s[0] == '\\' then UnescapeFrom(s[1..], true)
    else [s[0]] + UnescapeFrom(s[1..], false)
  }

  function Unescape(s: string): string {
    UnescapeFrom(s, false)
  }

  /** Writes `s` so that `Unescape` gives it back: every backslash is doubled. */
  function Escape(s: string): (r: string)
    ensures |r| >= |s|
  {
    if s == [] then ""
    else (if s[0] == '\\' then "\\\\" else [s[0]]) + Escape(s[1..])
  }

  lemma {:induction false} UnescapeEscape(s: string)
    ensures Unescape(Escape(s)) == s
  {
    if s != [] {
      UnescapeEscape(s[1..]);
      var e := Escape(s[1..]);
      if s[0] == '\\' {
        assert Escape(s) == ['\\', '\\'] + e;
        assert (['\\', '\\'] + e)[1..] == ['\\'] + e;
        assert (['\\'] + e)[1..] == e;
        assert UnescapeFrom(['\\', '\\'] + e, false) == UnescapeFrom(['\\'] + e, true);
        assert UnescapeFrom(['\\'] + e, true) == ['\\'] + UnescapeFrom(e, false);
      } else {
        assert Escape(s) == [s[0]] + e;
        assert ([s[0]] + e)[1..] == e;
      }
      assert s == [s[0]] + s[1..];
    }
  }

  /** Text without backslashes is read as it is. */
  lemma {:induction false} UnescapePlain(s: string)
    requires '\\' !in s
    ensures Unescape(s) == s
  {
    if s != [] {
      assert s == [s[0]] + s[1..];
      UnescapePlain(s[1..]);
    }
  }

  /** Reading escapes never lengthens the text. */
  lemma {:induction false} UnescapeShorter(s: string, escaped: bool)
    ensures |UnescapeFrom(s, escaped)| <= |s| + (if escaped then 1 else 0)
    decreases |s|
  {
    if s != [] {
      UnescapeShorter(s[1..], !escaped && s[0] == '\\');
    }
  }

  predicate IsQuote(c: char) {
    c == '"' || c == '\''
  }

  /**
   * `parse_plugin_command_input`: the trimmed text, or, when it is at least
   * two bytes long and starts and ends with the same quote, what lies
   * between the quotes with its escapes read, trimmed again.
   */
  function ParsePluginCommand(raw: string): (r: string)
    ensures |r| <= |Trim(raw)|
    ensures r != [] ==> !IsWhitespace(r[0]) && !IsWhitespace(r[|r| - 1])
  {
    var input := Trim(raw);
    if ByteLen(input) < 2 then input
    else if !IsQuote(input[0]) then input
    else if !EndsWith(input, [input[0]]) then input
    else
      ByteLenBounds(input);
      UnescapeShorter(input[1..|input| - 1], false);
      Trim(Unescape(input[1..|input| - 1]))
  }

  /** `parse_plugin_command_input`. */
  method ParsePluginCommandInput(raw: string) returns (out: string)
    ensures out == ParsePluginCommand(raw)
  {
    var input := Trim(raw);
    if ByteLen(input) < 2 {
      return input;
    }
    var first := input[0];
    if !IsQuote(first) || !EndsWith(input, [first]) {
      return input;
    }
    ByteLenBounds(input);
    out := UnescapeQuoted(input[1..|input| - 1]);
    out := Trim(out);
  }

  /** The escape-reading loop of `parse_plugin_command_input`, over the text between the quotes. */
  method UnescapeQuoted(inner: string) returns (out: string)
    ensures out == Unescape(inner)
  {
    out := "";
    var escaped := false;
    var i := 0;
    while i < |inner|
      invariant i <= |inner|
      invariant out + UnescapeFrom(inner[i..], escaped) == Unescape(inner)
    {
      var ch := inner[i];
      var j := i + 1;
      UnescapeStep(inner, i, j, escaped);
      if escaped {
        ConcatAssoc(out, [ch], UnescapeFrom(inner[j..], false));
        out := out + [ch];
        escaped := false;
      } else if ch == '\\' {
        escaped := true;
      } else {
        ConcatAssoc(out, [ch], UnescapeFrom(inner[j..], false));
        out := out + [ch];
      }
      i := j;
    }
    if escaped {
      out := out + "\\";
    }
  }

  lemma UnescapeStep(s: string, i: nat, j: nat, escaped: bool)
    requires i < |s| && j == i + 1
    ensures UnescapeFrom(s[i..], escaped) ==
      if escaped then [s[i]] + UnescapeFrom(s[j..], false)
      else if s[i] == '\\' then UnescapeFrom(s[j..], true)
      else [s[i]] + UnescapeFrom(s[j..], false)
  {
    assert s[i..][1..] == s[j..];
  }

  /** A string that neither starts nor ends with whitespace is its own trim. */
  lemma TrimEdges(s: string)
    requires s != [] && !IsWhitespace(s[0]) && !IsWhitespace(s[|s| - 1])
    ensures Trim(s) == s
  {
    assert LeadingSpace(s) == 0;
    assert TrimStart(s) == s;
    assert TrailingSpace(s) == 0;
  }

  /** Input that does not start with a quote is taken as typed, trimmed. */
  lemma ParseUnquoted(raw: string)
    requires Trim(raw) == [] || !IsQuote(Trim(raw)[0])
    ensures ParsePluginCommand(raw) == Trim(raw)
  {
  }

  /**
   * Quoting round trip: a command name written between quotes with its
   * backslashes doubled is read back as the name itself.
   */
  lemma QuotedRoundTrip(q: char, name: string)
    requires IsQuote(q) && name == Trim(name)
    ensures ParsePluginCommand([q] + Escape(name) + [q]) == name
  {
    var e := Escape(name);
    QuotedInput(q, e);
    UnescapeEscape(name);
  }

  /** A quoted text is its own trim, long enough, and closed by the quote it opens with. */
  lemma QuotedInput(q: char, e: string)
    requires IsQuote(q)
    ensures var input := [q] + e + [q];
      Trim(input) == input && ByteLen(input) >= 2 && IsQuote(input[0])
      && EndsWith(input, [input[0]]) && input[1..|input| - 1] == e
  {
    var input := [q] + e + [q];
    TrimEdges(input);
    ByteLenBounds(input);
    assert input[|input| - 1..] == [q];
  }

  // ---------------------------------------------------------------------
  // Routing a submitted command

  /** What `handle_plugin_command` does with a submitted command line. */
  datatype Route =
    | Ignore
    | Usage
    | RunPlugin(command: string)
    | Help
    | Summary
    | ListPlugins
    | Errors
    | Reload

  /** The text after `plugin ` or, failing that, after `p `. */
  function PluginArgument(command: string): (r: Option<string>)
    ensures r.Some? ==> |r.value| < |command|
  {
    if StartsWith(command, "plugin ") then Some(command[7..])
    else if StartsWith(command, "p ") then Some(command[2..])
    else None
  }

  /**
   * The command, trimmed: nothing when blank; `plugin X`/`p X` runs the
   * parsed X (or shows the usage line when X is blank); the built-ins and
   * their short aliases; anything else runs as a plugin command.
   */
  function RouteCommand(input: string): (r: Route)
    ensures r == Help ==> Trim(input) == "help"
    ensures r == Reload ==> Trim(input) == "plugins.reload" || Trim(input) == "pl.reload"
    ensures r == Usage ==>
      PluginArgument(Trim(input)).Some? && ParsePluginCommand(PluginArgument(Trim(input)).value) == []
  {
    var command := Trim(input);
    if command == [] then Ignore
    else
      match PluginArgument(command)
      case Some(arg) =>
        var name := ParsePluginCommand(arg);
        if name == [] then Usage else RunPlugin(name)
      case None =>
        if command == "help" then Help
        else if command == "plugins" || command == "pl" then Summary
        else if command == "plugins.list" || command == "pl.list" then ListPlugins
        else if command == "plugins.errors" || command == "pl.errors" then Errors
        else if command == "plugins.reload" || command == "pl.reload" then Reload
        else RunPlugin(command)
  }

  /** Only a blank line is ignored, and a plugin run always names a command. */
  lemma RouteNonBlank(input: string)
    ensures RouteCommand(input) == Ignore <==> Trim(input) == []
    ensures RouteCommand(input).RunPlugin? ==> RouteCommand(input).command != []
  {
  }

  /** After `plugin ` or `p `, the rest of a line that starts with a quote is the argument. */
  lemma ArgumentAfter(prefix: string, arg: string)
    requires prefix == "plugin " || prefix == "p "
    requires arg != [] && IsQuote(arg[0]) && IsQuote(arg[|arg| - 1])
    ensures Trim(prefix + arg) == prefix + arg
    ensures PluginArgument(prefix + arg) == Some(arg)
  {
    var line := prefix + arg;
    assert line[..|prefix|] == prefix;
    assert line[|prefix|..] == arg;
    assert line[0] == prefix[0] && line[|line| - 1] == arg[|arg| - 1];
    TrimEdges(line);
    if prefix == "p " {
      assert line[1] == ' ';
      assert !StartsWith(line, "plugin ");
    }
  }

  /** A trimmed line whose plugin argument reads as a name runs that name. */
  lemma RouteArgument(line: string, arg: string, name: string)
    requires line != [] && Trim(line) == line
    requires PluginArgument(line) == Some(arg) && ParsePluginCommand(arg) == name && name != []
    ensures RouteCommand(line) == RunPlugin(name)
  {
  }

  /** `plugin "<name>"` and `p '<name>'` run the named command, backslashes and all. */
  lemma RouteQuoted(prefix: string, q: char, name: string)
    requires prefix == "plugin " || prefix == "p "
    requires IsQuote(q) && name == Trim(name) && name != []
    ensures RouteCommand(prefix + ([q] + Escape(name) + [q])) == RunPlugin(name)
  {
    var arg := [q] + Escape(name) + [q];
    ArgumentAfter(prefix, arg);
    QuotedRoundTrip(q, name);
    RouteArgument(prefix + arg, arg, name);
  }
}
