/**
 * What the console does with a submitted line before anything executes:
 * normalising the displayed text, checking the command name, requiring a
 * value and parsing it, in that order.
 */
module Commands {
  import opened Strings
  import opened IntParse

  /** The console's fixed command list, in declaration order. */
  const Names: seq<string> := ["debug", "speed", "cspeed", "noclip", "sanity"]

  /** The listed commands, once a name has been checked against the list. */
  datatype Command = Debug | Speed | Cspeed | Noclip | Sanity

  function Name(c: Command): string {
    match c
    case Debug => "debug"
    case Speed => "speed"
    case Cspeed => "cspeed"
    case Noclip => "noclip"
    case Sanity => "sanity"
  }

  /** The command a valid name denotes. */
  function Lookup(str: string): (r: Option<Command>)
    ensures r.Some? <==> IsValidCommand(str)
    ensures r.Some? ==> Name(r.value) == str
  {
    ValidCommandCases(str);
    if str == "debug" then Some(Debug)
    else if str == "speed" then Some(Speed)
    else if str == "cspeed" then Some(Cspeed)
    else if str == "noclip" then Some(Noclip)
    else if str == "sanity" then Some(Sanity)
    else None
  }

  lemma ValidCommandCases(str: string)
    ensures IsValidCommand(str)
            <==> str == "debug" || str == "speed" || str == "cspeed" || str == "noclip" || str == "sanity"
  {
    assert Names[0] == "debug" && Names[1] == "speed" && Names[2] == "cspeed";
    assert Names[3] == "noclip" && Names[4] == "sanity";
  }

  /** Each command's name is valid and looks up to that command. */
  lemma LookupName(c: Command)
    ensures IsValidCommand(Name(c)) && Lookup(Name(c)) == Some(c)
  {
    ValidCommandCases(Name(c));
  }

  lemma NamesAreTrimmed()
    ensures forall i :: 0 <= i < |Names| ==> Trim(Names[i]) == Names[i]
  {
    forall i | 0 <= i < |Names| {
      TrimByTrimmed(Names[i], WhiteSpace);
    }
  }

  /**
   * A name is valid when it is one of the listed commands, character for
   * character (case matters). The source compares against each listed name
   * trimmed; `ValidCommandAsListed` shows that trimming changes none of them.
   */
  predicate IsValidCommand(str: string) {
    exists i :: 0 <= i < |Names| && Names[i] == str
  }

  /** `commands.Any(command => command.Trim() == str)` holds exactly for the valid names. */
  lemma ValidCommandAsListed(str: string)
    ensures IsValidCommand(str) <==> exists i :: 0 <= i < |Names| && Trim(Names[i]) == str
  {
    NamesAreTrimmed();
  }

  /** A word: one or more lower-case ASCII letters. */
  predicate IsWord(s: string) {
    |s| > 0 && forall i :: 0 <= i < |s| ==> 'a' <= s[i] <= 'z'
  }

  lemma NamesAreTokens(i: int)
    requires 0 <= i < |Names|
    ensures IsWord(Names[i])
  {
    if i == 0 {} else if i == 1 {} else if i == 2 {} else if i == 3 {} else {}
  }

  /** Every valid name is a single token with nothing to trim. */
  lemma ValidCommandIsToken(command: string)
    requires IsValidCommand(command)
    ensures Trim(command) == command && IsWord(command) && ' ' !in command
  {
    var i :| 0 <= i < |Names| && Names[i] == command;
    assert Trim(Names[i]) == Names[i] by {
      NamesAreTrimmed();
    }
    NamesAreTokens(i);
  }

  /**
   * The submitted line: the displayed text with every line feed and every
   * underscore removed (the cursor, but also underscores the user typed),
   * then trimmed.
   */
  function Normalise(display: string): (line: string)
    ensures '\n' !in line && '_' !in line
    ensures TrimmedBy(line, WhiteSpace)
  {
    var stripped := RemoveAll(RemoveAll(display, '\n'), '_');
    assert '\n' !in stripped by {
      RemoveAllCounts(RemoveAll(display, '\n'), '_');
      assert multiset(stripped)['\n'] == 0;
    }
    TrimByAbsent(stripped, WhiteSpace, '\n');
    TrimByAbsent(stripped, WhiteSpace, '_');
    Trim(stripped)
  }

  /** A buffer shown with its cursor comes back unchanged when it has nothing to strip. */
  lemma NormaliseDisplayed(buffer: string)
    requires '\n' !in buffer && '_' !in buffer
    requires TrimmedBy(buffer, WhiteSpace)
    ensures Normalise(buffer + "_") == buffer
  {
    RemoveAllAbsent(buffer, '\n');
    RemoveAllAppend(buffer, "_", '\n');
    assert RemoveAll("_", '\n') == "_";
    RemoveAllAppend(buffer, "_", '_');
    assert RemoveAll("_", '_') == "";
    assert buffer + "" == buffer;
    RemoveAllAbsent(buffer, '_');
    TrimByTrimmed(buffer, WhiteSpace);
  }

  /** Normalising a line that is already normalised changes nothing. */
  lemma NormaliseIdempotent(display: string)
    ensures Normalise(Normalise(display)) == Normalise(display)
  {
    var line := Normalise(display);
    RemoveAllAbsent(line, '\n');
    RemoveAllAbsent(line, '_');
    TrimByTrimmed(line, WhiteSpace);
  }

  /** A line feed anywhere in the displayed text is ignored. */
  lemma NormaliseDropsNewline(a: string, b: string)
    ensures Normalise(a + "\n" + b) == Normalise(a + b)
  {
    RemoveAllAppend(a + "\n", b, '\n');
    RemoveAllAppend(a, "\n", '\n');
    assert RemoveAll("\n", '\n') == "";
    RemoveAllAppend(a, b, '\n');
    assert RemoveAll(a + "\n" + b, '\n') == RemoveAll(a + b, '\n');
  }

  /** An underscore anywhere in the displayed text, typed or the cursor, is ignored. */
  lemma NormaliseDropsUnderscore(a: string, b: string)
    ensures Normalise(a + "_" + b) == Normalise(a + b)
  {
    var x := RemoveAll(a, '\n');
    var y := RemoveAll(b, '\n');
    RemoveAllAppend(a + "_", b, '\n');
    RemoveAllAppend(a, "_", '\n');
    assert RemoveAll("_", '\n') == "_";
    RemoveAllAppend(a, b, '\n');
    assert RemoveAll(a + "_" + b, '\n') == x + "_" + y;
    RemoveAllAppend(x + "_", y, '_');
    RemoveAllAppend(x, "_", '_');
    assert RemoveAll("_", '_') == "";
    RemoveAllAppend(x, y, '_');
    assert RemoveAll(x + "_" + y, '_') == RemoveAll(x + y, '_');
  }

  /** A display of nothing but white space (line feeds included) submits the empty line. */
  lemma NormaliseBlank(display: string)
    requires All(display, WhiteSpace)
    ensures Normalise(display) == ""
  {
    RemoveAllKeepsAll(display, '\n', WhiteSpace);
    RemoveAllKeepsAll(RemoveAll(display, '\n'), '_', WhiteSpace);
  }

  /**
   * White space around a clean line is dropped and the line itself is kept,
   * whatever that white space is (line feeds included).
   */
  lemma NormalisePadded(left: string, line: string, right: string)
    requires All(left, WhiteSpace) && All(right, WhiteSpace)
    requires '\n' !in line && '_' !in line
    requires TrimmedBy(line, WhiteSpace) && |line| > 0
    ensures Normalise(left + line + right) == line
  {
    var l1 := RemoveAll(left, '\n');
    var r1 := RemoveAll(right, '\n');
    RemoveAllAppend(left + line, right, '\n');
    RemoveAllAppend(left, line, '\n');
    RemoveAllAbsent(line, '\n');
    assert RemoveAll(left + line + right, '\n') == l1 + line + r1;
    var l2 := RemoveAll(l1, '_');
    var r2 := RemoveAll(r1, '_');
    RemoveAllAppend(l1 + line, r1, '_');
    RemoveAllAppend(l1, line, '_');
    RemoveAllAbsent(line, '_');
    assert RemoveAll(l1 + line + r1, '_') == l2 + line + r2;
    RemoveAllKeepsAll(left, '\n', WhiteSpace);
    RemoveAllKeepsAll(l1, '_', WhiteSpace);
    RemoveAllKeepsAll(right, '\n', WhiteSpace);
    RemoveAllKeepsAll(r1, '_', WhiteSpace);
    TrimByPadded(l2, line, r2, WhiteSpace);
  }

  /** The result of submitting a line. */
  datatype Outcome =
    | InvalidCommand
    | NeedsValue
    | InvalidValue
    | Dropped        // the sentinel value -1: nothing printed, nothing executed
    | Run(command: Command, value: int)

  /** The first space-separated token. */
  function FirstToken(line: string): string {
    Split(line, ' ')[0]
  }

  /** The second space-separated token, if there is one. */
  function Argument(line: string): Option<string> {
    var parts := Split(line, ' ');
    if |parts| < 2 then None else Some(parts[1])
  }

  /** The checks on the tokens of a line, first failing check wins. */
  function ClassifyTokens(parts: seq<string>): Outcome
    requires |parts| >= 1
  {
    Check(Trim(parts[0]), if |parts| < 2 then None else Some(parts[1]))
  }

  /** The three checks in order on a trimmed command name and the second token, if any. */
  function Check(command: string, argument: Option<string>): (o: Outcome)
    ensures o == InvalidCommand <==> !IsValidCommand(command)
    ensures o == NeedsValue <==> IsValidCommand(command) && argument.None?
    ensures o == InvalidValue
            <==> IsValidCommand(command) && argument.Some? && TryParse(argument.value).None?
    ensures o == Dropped
            <==> IsValidCommand(command) && argument.Some? && TryParse(argument.value) == Some(-1)
    ensures o.Run? ==> Name(o.command) == command
    ensures o.Run? ==> argument.Some? && TryParse(argument.value) == Some(o.value)
    ensures o.Run? ==> o.value != -1 && InInt32(o.value)
  {
    match Lookup(command)
    case None => InvalidCommand
    case Some(c) =>
      if argument.None? then NeedsValue
      else match TryParse(argument.value)
        case None => InvalidValue
        case Some(value) => if value == -1 then Dropped else Run(c, value)
  }

  /** A submitted line split on single spaces and checked. */
  function Classify(line: string): (o: Outcome)
    ensures o == InvalidCommand <==> !IsValidCommand(Trim(FirstToken(line)))
    ensures o == NeedsValue <==> IsValidCommand(Trim(line)) && ' ' !in line
    ensures o == InvalidValue
            <==> && IsValidCommand(Trim(FirstToken(line)))
                 && Argument(line).Some? && TryParse(Argument(line).value).None?
    ensures o == Dropped
            <==> && IsValidCommand(Trim(FirstToken(line)))
                 && Argument(line).Some? && TryParse(Argument(line).value) == Some(-1)
    ensures o.Run? ==> Name(o.command) == Trim(FirstToken(line))
    ensures o.Run? ==> Argument(line).Some? && TryParse(Argument(line).value) == Some(o.value)
    ensures o.Run? ==> o.value != -1 && InInt32(o.value)
  {
    SplitCount(line, ' ');
    JoinSplit(line, ' ');
    ClassifyTokens(Split(line, ' '))
  }

  /** What the console prints for an outcome: at most one message per submission. */
  function Message(line: string, o: Outcome): (text: string)
    ensures text == "" <==> o == Dropped
    ensures o != Dropped ==> |text| > |line| && text[..|line|] == line && text[|text| - 1] == '\n'
  {
    match o
    case InvalidCommand => line + " <-- INVALID COMMAND\n"
    case NeedsValue => line + " <-- COMMAND NEEDS VALUE\n"
    case InvalidValue => line + " <-- INVALID VALUE\n"
    case Dropped => ""
    case Run(_, _) => line + "\n"
  }

  lemma ShowHasNoSpace(v: int)
    ensures ' ' !in Show(v)
  {
    var s := Show(v);
    if v < 0 {
      assert forall i :: 1 <= i < |s| ==> s[i] == NatDigits(-v)[i - 1];
    }
  }

  /** Only the first two tokens take part in the checks. */
  lemma ClassifyTokensFirstTwo(parts: seq<string>, other: seq<string>)
    requires |parts| >= 2 && |other| >= 2
    requires parts[0] == other[0] && parts[1] == other[1]
    ensures ClassifyTokens(parts) == ClassifyTokens(other)
  {
    assert ClassifyTokens(parts) == Check(Trim(parts[0]), Some(parts[1]));
  }

  /**
   * A valid command followed by one space and a rendered 32-bit value runs
   * that command with that value, except the sentinel -1, which is dropped.
   */
  lemma ClassifyEntered(command: string, value: int)
    requires IsValidCommand(command) && InInt32(value)
    ensures Classify(command + " " + Show(value))
            == if value == -1 then Dropped else Run(Lookup(command).value, value)
  {
    ValidCommandIsToken(command);
    ShowHasNoSpace(value);
    ClassifyTwoTokens(command, Show(value));
    ParseShow(value);
  }

  /** A valid name typed alone is submitted as it is and lacks its value. */
  lemma NeedsValueLine(command: string)
    requires IsValidCommand(command)
    ensures Normalise(command + "_") == command
    ensures Classify(command) == NeedsValue
  {
    ValidCommandIsToken(command);
    assert '\n' !in command && '_' !in command by {
      assert forall i :: 0 <= i < |command| ==> command[i] != '\n' && command[i] != '_';
    }
    NormaliseDisplayed(command);
  }

  /** Two words and a space between them, shown with the cursor, are submitted as they are. */
  lemma NormaliseWords(first: string, second: string)
    requires IsWord(first) && IsWord(second)
    ensures Normalise(first + " " + second + "_") == first + " " + second
  {
    var line := first + " " + second;
    assert '\n' !in line && '_' !in line by {
      assert forall i :: 0 <= i < |line| ==> line[i] != '\n' && line[i] != '_' by {
        assert forall i :: 0 <= i < |first| ==> line[i] == first[i];
        assert forall i :: |first| < i < |line| ==> line[i] == second[i - |first| - 1];
      }
    }
    assert TrimmedBy(line, WhiteSpace) by {
      assert line[0] == first[0];
      assert line[|line| - 1] == second[|second| - 1];
    }
    NormaliseDisplayed(line);
  }

  /** A valid name and a word typed after it are submitted as they are and the word is no value. */
  lemma InvalidValueLine(command: string, token: string)
    requires IsValidCommand(command) && IsWord(token)
    ensures Normalise(command + " " + token + "_") == command + " " + token
    ensures Classify(command + " " + token) == InvalidValue
  {
    ValidCommandIsToken(command);
    NormaliseWords(command, token);
    assert ' ' !in token by {
      assert forall i :: 0 <= i < |token| ==> token[i] != ' ';
    }
    ClassifyTwoTokens(command, token);
    ParseNeedsDigit(token);
  }

  /** A line of two tokens is checked on exactly those two tokens. */
  lemma ClassifyTwoTokens(command: string, argument: string)
    requires ' ' !in command && ' ' !in argument
    ensures Classify(command + " " + argument) == Check(Trim(command), Some(argument))
  {
    assert Split(command + " " + argument, ' ') == [command, argument] by {
      SplitTwo(command, argument, ' ');
      assert command + " " + argument == command + [' '] + argument;
    }
  }

  /** Tokens after the second are ignored. */
  lemma ClassifyIgnoresRest(command: string, argument: string, rest: string)
    requires ' ' !in command && ' ' !in argument
    ensures Classify(command + " " + argument + " " + rest) == Classify(command + " " + argument)
  {
    var long := [command, argument] + Split(rest, ' ');
    assert Split(command + " " + argument + " " + rest, ' ') == long by {
      SplitThree(command, argument, rest, ' ');
      assert command + " " + argument + " " + rest == command + [' '] + argument + [' '] + rest;
    }
    ClassifyTwoTokens(command, argument);
    ClassifyTokensFirstTwo(long, [command, argument]);
  }

  /** A doubled space after a valid command leaves an empty value token: INVALID VALUE. */
  lemma ClassifyDoubleSpace(command: string, rest: string)
    requires IsValidCommand(command)
    ensures Classify(command + "  " + rest) == InvalidValue
  {
    ValidCommandIsToken(command);
    var parts := [command, ""] + Split(rest, ' ');
    assert Split(command + "  " + rest, ' ') == parts by {
      SplitPrefix("", rest, ' ');
      assert "" + [' '] + rest == " " + rest;
      SplitPrefix(command, " " + rest, ' ');
      assert command + "  " + rest == command + [' '] + (" " + rest);
    }
    ParseNeedsDigit("");
    assert parts[0] == command && parts[1] == "";
    assert ClassifyTokens(parts) == InvalidValue;
  }
}
