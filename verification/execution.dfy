/** `CommandDispatcher.ExecuteCommand` and the built-in commands it can run:
  `alias`, `unalias`, `set`, `unset`, `set-property`, `reset-property`,
  `echo`, and the entries `AddAlias` registers.

  Everything the shell writes, and both dispatcher events, go to one trace.
  The `Execute` of any other command is an oracle that returns the lines it
  writes and its result code, or the exception it throws after writing them.
 */
module Execution {
  import opened Wrappers
  import opened Strings
  import opened SortedMaps
  import opened Commands
  import opened Aliases
  import opened Dispatching
  import opened Settings
  import opened Quoting
  import Properties
  import Arguments

  datatype Line =
    | Out(text: string)
    | Err(text: string)
    | Executing(command: string)
    | Executed(command: string, code: ResultCode)

  /** What commands act on: the dispatcher with its alias table, the user
      variables (`None` when the application is no settings handler), the
      property registry (`None` when it is no property handler), and every
      line written so far. */
  datatype Shell = Shell(
    disp: Dispatcher,
    settings: Option<AppSettings>,
    props: Option<Properties.Registry>,
    trace: seq<Line>)

  /** `Execute` of a command outside the built-ins. */
  type Oracle = (Command, seq<string>) -> (seq<Line>, Result<ResultCode>)

  /** The execution context is `None` for null, otherwise whether it is
      isolated. */
  type Context = Option<bool>

  // ---------------------------------------------------------------------
  // From command text to an invocation

  predicate Droppable(c: char, separator: char) {
    c == separator || IsWhiteSpace(c)
  }

  /** The backward scan over the trimmed text: the index of the last
      character kept. The scan stops at index 0, so the first character is
      never dropped. */
  function LastKept(t: string, separator: char, i: nat): (k: nat)
    requires i < |t|
    ensures k <= i
    ensures k > 0 ==> !Droppable(t[k], separator)
    ensures forall j :: k < j <= i ==> Droppable(t[j], separator)
    decreases i
  {
    if i == 0 || !Droppable(t[i], separator) then i else LastKept(t, separator, i - 1)
  }

  /** The trimmed text without its trailing separators and white space. */
  function StripTrailing(text: string, separator: char): (r: string)
    ensures r == "" <==> AllWhiteSpace(text)
    ensures r <= Trim(text)
    ensures forall j :: |r| <= j < |Trim(text)| ==> Droppable(Trim(text)[j], separator)
    ensures |r| > 1 ==> !Droppable(r[|r| - 1], separator)
  {
    var t := Trim(text);
    if |t| == 0 then "" else t[..LastKept(t, separator, |t| - 1) + 1]
  }

  /** A non-empty argument with no space inside and no white space at
      either end. */
  predicate Word(w: string) {
    w != "" && !IsWhiteSpace(w[0]) && !IsWhiteSpace(w[|w| - 1]) && ' ' !in w
  }

  /** White space only at the ends, and the ends are not white space: what a
      trimmed piece without spaces is. */
  lemma TrimNoSpace(s: string)
    requires ' ' !in s
    ensures ' ' !in Trim(s)
  {
    var k := TrimIsInfix(s);
    var t := Trim(s);
    forall j | 0 <= j < |t| ensures t[j] != ' ' {
      assert t[j] == s[k + j];
    }
  }

  /** Each piece trimmed, the empty ones dropped. */
  function Words(pieces: seq<string>): (r: seq<string>)
    requires forall i :: 0 <= i < |pieces| ==> ' ' !in pieces[i]
    ensures forall i :: 0 <= i < |r| ==> Word(r[i])
    ensures |r| <= |pieces|
    decreases |pieces|
  {
    if |pieces| == 0 then []
    else
      NoSpaceTail(pieces);
      var tail := Words(pieces[1..]);
      var w := Trim(pieces[0]);
      if w == "" then tail
      else
        WordOfPiece(pieces[0]);
        ConsWords(w, tail);
        [w] + tail
  }

  lemma NoSpaceTail(pieces: seq<string>)
    requires |pieces| > 0 && forall i :: 0 <= i < |pieces| ==> ' ' !in pieces[i]
    ensures forall i :: 0 <= i < |pieces[1..]| ==> ' ' !in pieces[1..][i]
  {
    forall i | 0 <= i < |pieces[1..]| ensures ' ' !in pieces[1..][i] { assert pieces[1..][i] == pieces[i + 1]; }
  }

  lemma ConsWords(w: string, tail: seq<string>)
    requires Word(w) && forall i :: 0 <= i < |tail| ==> Word(tail[i])
    ensures forall i :: 0 <= i < |[w] + tail| ==> Word(([w] + tail)[i])
  {
  }

  /** A piece without spaces trims to a word unless it trims to nothing. */
  lemma WordOfPiece(s: string)
    requires ' ' !in s && Trim(s) != ""
    ensures Word(Trim(s))
  {
    TrimNoSpace(s);
  }

  /** The arguments: the parameter text trimmed, split on single spaces,
      each piece trimmed and the empty ones dropped. */
  function Tokens(parameters: string): (r: seq<string>)
    ensures forall i :: 0 <= i < |r| ==> Word(r[i])
    ensures AllWhiteSpace(parameters) ==> r == []
  {
    if |parameters| == 0 then []
    else
      var pieces := Split(Trim(parameters), {' '});
      if AllWhiteSpace(parameters) then
        assert pieces == [""];
        []
      else Words(pieces)
  }

  /** A command to run: the name it was resolved under, the command stored
      there and its arguments. */
  datatype Invocation = Invocation(name: string, command: Command, args: seq<string>)

  /** The first half of `ExecuteCommand`: strip the text, resolve its name,
      look the name up and cut the rest into arguments. `None` means nothing
      runs. */
  function Resolve(d: Dispatcher, text: string): (r: Option<Invocation>)
    ensures AllWhiteSpace(text) ==> r.None?
    ensures !AllWhiteSpace(text) ==>
      var name := CompleteCommandName(d, StripTrailing(text, d.separator)).value;
      (r.Some? <==> name != "" && ContainsCommand(d, name))
      && (r.Some? ==> r.value.name == name && r.value.command == ToMap(d.commandMap)[name])
    ensures r.Some? ==> forall i :: 0 <= i < |r.value.args| ==> Word(r.value.args[i])
  {
    var cmd := StripTrailing(text, d.separator);
    if cmd == "" then None
    else
      var name := CompleteCommandName(d, cmd).value;
      CompleteCommandNameLength(d, cmd);
      match Cooked(d, Some(name))
      case None => None
      case Some(c) => Some(Invocation(name, c, Tokens(cmd[|name|..])))
  }

  // ---------------------------------------------------------------------
  // Words in, arguments out

  /** Non-empty and free of white space. */
  predicate Plain(w: string) {
    w != "" && forall j :: 0 <= j < |w| ==> !IsWhiteSpace(w[j])
  }

  /** Text with no white space at either end is its own trim. */
  lemma TrimFixed(s: string)
    requires s == "" || (!IsWhiteSpace(s[0]) && !IsWhiteSpace(s[|s| - 1]))
    ensures Trim(s) == s
  {
  }

  /** The first and last characters of words joined by spaces. */
  lemma {:induction false} JoinEnds(ws: seq<string>)
    requires |ws| >= 1 && forall i :: 0 <= i < |ws| ==> ws[i] != ""
    ensures |Join(" ", ws)| >= |ws[0]|
    ensures Join(" ", ws)[..|ws[0]|] == ws[0]
    ensures Join(" ", ws)[|Join(" ", ws)| - 1] == ws[|ws| - 1][|ws[|ws| - 1]| - 1]
    decreases |ws|
  {
    if |ws| > 1 {
      JoinEnds(ws[1..]);
      assert Join(" ", ws) == ws[0] + " " + Join(" ", ws[1..]);
    }
  }

  /** Plain words are their own trim. */
  lemma {:induction false} WordsOfPlain(ws: seq<string>)
    requires forall i :: 0 <= i < |ws| ==> Plain(ws[i])
    ensures forall i :: 0 <= i < |ws| ==> ' ' !in ws[i]
    ensures Words(ws) == ws
    decreases |ws|
  {
    assert IsWhiteSpace(' ');
    if |ws| > 0 {
      TrimFixed(ws[0]);
      WordsOfPlain(ws[1..]);
    }
  }

  /** A space in front of text without white space at its ends is all
      that trimming removes. */
  lemma TrimAfterSpace(j: string)
    requires |j| > 0 && !IsWhiteSpace(j[0]) && !IsWhiteSpace(j[|j| - 1])
    ensures Trim(" " + j) == j
    ensures !AllWhiteSpace(" " + j)
  {
    var p := " " + j;
    assert p[1..] == j;
    assert TrimStart(p) == TrimStart(j);
    assert TrimStart(j) == j;
    assert TrimEnd(j) == j;
    assert !IsWhiteSpace(p[1]);
  }

  /** Words joined by single spaces: the first piece, a space, the rest. */
  lemma JoinCons(w: string, ws: seq<string>)
    ensures Join(" ", [w] + ws) == if ws == [] then w else w + " " + Join(" ", ws)
  {
    if ws != [] {
      assert ([w] + ws)[1..] == ws;
    }
  }

  /** The ends of plain words joined by spaces are not white space. */
  lemma JoinedPlainEnds(ws: seq<string>)
    requires |ws| >= 1 && forall i :: 0 <= i < |ws| ==> Plain(ws[i])
    ensures var j := Join(" ", ws);
      |j| > 0 && !IsWhiteSpace(j[0]) && !IsWhiteSpace(j[|j| - 1])
  {
    JoinEnds(ws);
    var j := Join(" ", ws);
    assert j[0] == j[..|ws[0]|][0];
  }

  /** Arguments written as plain words separated by single spaces come out
      as exactly those words. */
  lemma {:induction false} TokensOfWords(ws: seq<string>)
    requires forall i :: 0 <= i < |ws| ==> Plain(ws[i])
    ensures Tokens(" " + Join(" ", ws)) == ws
  {
    WordsOfPlain(ws);
    if |ws| == 0 {
      assert IsWhiteSpace(" "[0]);
    } else {
      var j := Join(" ", ws);
      JoinedPlainEnds(ws);
      TrimAfterSpace(j);
      JoinSplit(ws, ' ');
      assert Tokens(" " + j) == Words(Split(j, {' '}));
    }
  }

  /** Text whose ends are neither white space nor the separator is not
      stripped at all. */
  lemma StripTrailingFixed(text: string, separator: char)
    requires |text| > 0 && !IsWhiteSpace(text[0]) && !Droppable(text[|text| - 1], separator)
    ensures StripTrailing(text, separator) == text
  {
    TrimFixed(text);
    assert LastKept(text, separator, |text| - 1) == |text| - 1;
  }

  /** The longest registered name in front of "name rest", when no name has
      a space in it and `rest` is empty or starts with one, is `name`. */
  lemma CommandNameOf(d: Dispatcher, name: string, rest: string)
    requires ContainsCommand(d, name) && name != "" && ToLower(name) == name
    requires forall k :: k in ToMap(d.commandMap) ==> ' ' !in k
    requires rest == "" || rest[0] == ' '
    ensures CompleteCommandName(d, name + rest) == Some(name)
  {
    var low := ToLower(name + rest);
    ToLowerConcat(name, rest);
    assert name <= low;
    assert HasNamePrefix(d, low);
    var x := CompleteCommandName(d, name + rest).value;
    assert low[|name|..] == ToLower(rest);
    assert |x| <= |name|;
    assert |x| == |name|;
    assert x == low[..|name|];
  }

  /** `GetCommand` of a registered lower-case name, followed by nothing or
      by a space, finds the command registered under that name. */
  lemma GetCommandOf(d: Dispatcher, name: string, rest: string)
    requires ContainsCommand(d, name) && name != "" && ToLower(name) == name
    requires forall k :: k in ToMap(d.commandMap) ==> ' ' !in k
    requires rest == "" || rest[0] == ' '
    ensures GetCommand(d, name + rest) == Some(ToMap(d.commandMap)[name])
  {
    CommandNameOf(d, name, rest);
  }

  /** "name w1 ... wn", with plain words, a lower-case name and no registered
      name containing a space, runs the command registered as `name` with
      arguments w1 ... wn. */
  lemma {:induction false} ResolveWords(d: Dispatcher, name: string, ws: seq<string>)
    requires ContainsCommand(d, name) && Plain(name) && ToLower(name) == name
    requires forall k :: k in ToMap(d.commandMap) ==> ' ' !in k
    requires forall i :: 0 <= i < |ws| ==> Plain(ws[i])
    requires var text := Join(" ", [name] + ws); text[|text| - 1] != d.separator
    ensures Resolve(d, Join(" ", [name] + ws)) == Some(Invocation(name, ToMap(d.commandMap)[name], ws))
  {
    var text := Join(" ", [name] + ws);
    var rest := if ws == [] then "" else " " + Join(" ", ws);
    JoinCons(name, ws);
    assert text == name + rest;
    JoinedPlainEnds([name] + ws);
    StripTrailingFixed(text, d.separator);
    CommandNameOf(d, name, rest);
    assert text[|name|..] == rest;
    if ws != [] {
      TokensOfWords(ws);
    }
    ResolveOf(d, text, name);
  }

  /** Text that needs no stripping and whose completed name is registered
      resolves to that name and the tokens after it. */
  lemma ResolveOf(d: Dispatcher, text: string, name: string)
    requires StripTrailing(text, d.separator) == text
    requires CompleteCommandName(d, text) == Some(name) && name != "" && ContainsCommand(d, name)
    ensures |name| <= |text|
    ensures Resolve(d, text) == Some(Invocation(name, ToMap(d.commandMap)[name], Tokens(text[|name|..])))
  {
    CompleteCommandNameLength(d, text);
  }

  // ---------------------------------------------------------------------
  // After the command

  /** The `CommandExecuted` event, with the settings' subscriber: the last
      command variable becomes the trimmed text. */
  function FireExecuted(sh: Shell, text: string, code: ResultCode): (r: Shell)
    ensures r.trace == sh.trace + [Executed(text, code)]
    ensures r.disp == sh.disp && r.props == sh.props
    ensures r.settings.Some? <==> sh.settings.Some?
    ensures r.settings.Some? ==> HasVariable(r.settings.value, LastCommand) && ToMap(r.settings.value.variables)[LastCommand] == Trim(text)
  {
    var settings := match sh.settings
      case None => None
      case Some(s) => Some(OnCommandExecuted(s, text));
    sh.(trace := sh.trace + [Executed(text, code)], settings := settings)
  }

  /** What is written once the result code is known: the usage for a syntax
      error, the failed text inside a batch, nothing otherwise. */
  function Report(inv: Invocation, text: string, code: ResultCode, inBatch: bool): (r: seq<Line>)
    ensures code == Success ==> r == []
    ensures code == ExecutionFailed ==> (r != [] <==> inBatch)
    ensures code == ExecutionFailed && inBatch ==> r == [Err("-- failed command: "), Err(text)]
    ensures code == SyntaxError ==> |r| >= 1
    ensures code == SyntaxError && inv.command.synopsis.Some? && |inv.command.synopsis.value| > 0 ==>
      var syn := inv.command.synopsis.value;
      && |r| == |syn| + 1 && r[0] == Err(inv.name + " usage: ")
      && forall j :: 0 <= j < |syn| ==> r[j + 1] == Err("  " + syn[j])
    ensures code == SyntaxError && !(inv.command.synopsis.Some? && |inv.command.synopsis.value| > 0) ==>
      r == [Err(inv.name + " syntax error.")]
  {
    match code
    case Success => []
    case ExecutionFailed => if inBatch then [Err("-- failed command: "), Err(text)] else []
    case SyntaxError =>
      match inv.command.synopsis
      case Some(syn) =>
        if |syn| > 0 then [Err(inv.name + " usage: ")] + seq(|syn|, j requires 0 <= j < |syn| => Err("  " + syn[j]))
        else [Err(inv.name + " syntax error.")]
      case None => [Err(inv.name + " syntax error.")]
  }

  /** What every command leaves alone: the trace only grows, settings
      support stays as it was, and the in-flight list is untouched. */
  predicate Keeps(sh: Shell, r: Shell) {
    && sh.trace <= r.trace
    && (r.settings.Some? <==> sh.settings.Some?)
    && r.disp.aliases.inFlight == sh.disp.aliases.inFlight
  }

  /** The guard in front of a command that needs an isolated context. */
  predicate Refused(inv: Invocation, context: Context) {
    inv.command.requiresContext && (context.None? || !context.value)
  }

  /** The number of aliases not being expanded: every nested alias call
      takes one more alias out of it. */
  function Budget(d: Dispatcher): nat {
    |ToMap(d.aliases.table).Keys - (set a | a in d.aliases.inFlight)|
  }

  lemma BudgetShrinks(d: Dispatcher, name: string)
    requires HasAlias(d.aliases, name) && name !in d.aliases.inFlight
    ensures Budget(d.(aliases := d.aliases.(inFlight := d.aliases.inFlight + [name]))) < Budget(d)
  {
    var keys := ToMap(d.aliases.table).Keys;
    var before := set a | a in d.aliases.inFlight;
    var after := set a | a in d.aliases.inFlight + [name];
    assert after == before + {name};
    assert keys - before == (keys - after) + {name};
  }

  /** `ExecuteCommand`: nothing at all for text that is blank or names no
      command; one error line for a command that needs an isolated context
      it does not have; otherwise the command is performed. What each case
      writes is `ExecuteCommandOutcome`. */
  function ExecuteCommand(sh: Shell, context: Context, text: string, run: Oracle): (r: Shell)
    ensures sh.trace <= r.trace
    ensures r.settings.Some? <==> sh.settings.Some?
    ensures sh.disp.aliases.inFlight == [] ==> r.disp.aliases.inFlight == []
    decreases Budget(sh.disp), 4
  {
    match Resolve(sh.disp, text)
    case None => sh
    case Some(inv) =>
      if Refused(inv, context) then
        sh.(trace := sh.trace + [Err(inv.name + " requires a valid isolated context.")])
      else Perform(sh, context, text, inv, run)
  }

  /** The three outcomes of `ExecuteCommand`. */
  lemma ExecuteCommandOutcome(sh: Shell, context: Context, text: string, run: Oracle)
    ensures var r := ExecuteCommand(sh, context, text, run);
      var inv := Resolve(sh.disp, text);
      && (inv.None? ==> r == sh)
      && (inv.Some? && Refused(inv.value, context) ==>
          r == sh.(trace := sh.trace + [Err(inv.value.name + " requires a valid isolated context.")]))
      && (inv.Some? && !Refused(inv.value, context) ==>
          (&& |r.trace| > |sh.trace| + 1 && r.trace[|sh.trace|] == Executing(text)
           && (r.settings.Some? ==> HasVariable(r.settings.value, LastCommand) && ToMap(r.settings.value.variables)[LastCommand] == Trim(text))))
  {
  }

  /** The second half of `ExecuteCommand`: the `CommandExecuting` event, the
      command, the `CommandExecuted` event and the report; an exception is
      written out and reported as a failure. After it the last-command
      variable holds the trimmed text, whatever the command did. */
  function Perform(sh: Shell, context: Context, text: string, inv: Invocation, run: Oracle): (r: Shell)
    ensures sh.trace <= r.trace
    ensures |r.trace| > |sh.trace| + 1 && r.trace[|sh.trace|] == Executing(text)
    ensures r.settings.Some? <==> sh.settings.Some?
    ensures r.settings.Some? ==> HasVariable(r.settings.value, LastCommand) && ToMap(r.settings.value.variables)[LastCommand] == Trim(text)
    ensures sh.disp.aliases.inFlight == [] ==> r.disp.aliases.inFlight == []
    decreases Budget(sh.disp), 3
  {
    var sh1 := sh.(trace := sh.trace + [Executing(text)]);
    var (sh2, outcome) := Run(sh1, context, inv, run);
    assert sh.trace <= sh2.trace && sh2.trace[|sh.trace|] == Executing(text);
    match outcome
    case Ok(code) =>
      var sh3 := FireExecuted(sh2, text, code);
      sh3.(trace := sh3.trace + Report(inv, text, code, IsInBatch(sh3.disp)))
    case Throw(e) =>
      FireExecuted(sh2.(trace := sh2.trace + [Err(Describe(e))]), text, ExecutionFailed)
  }

  /** `command.Execute(context, args)`. */
  function Run(sh: Shell, context: Context, inv: Invocation, run: Oracle): (r: (Shell, Result<ResultCode>))
    ensures sh.trace <= r.0.trace
    ensures r.0.settings.Some? <==> sh.settings.Some?
    ensures sh.disp.aliases.inFlight == [] ==> r.0.disp.aliases.inFlight == []
    decreases Budget(sh.disp), 2
  {
    match inv.command.kind
    case AliasKind => RunAlias(sh, inv.args, false)
    case UnaliasKind => RunUnaliasAsWritten(sh, inv.args)
    case SetKind => RunSet(sh, inv.args)
    case UnsetKind => RunUnset(sh, inv.args)
    case SetPropertyKind => RunSetProperty(sh, inv.args, false)
    case ResetPropertyKind => RunResetProperty(sh, inv.args)
    case EchoKind => RunEcho(sh, inv.args)
    case AliasedKind => RunAliased(sh, context, inv.command.name, inv.args, run)
    case _ =>
      var (lines, outcome) := run(inv.command, inv.args);
      (sh.(trace := sh.trace + lines), outcome)
  }

  /** The dispatcher runs `unalias` as written: with any argument the
      shell stays as it was and the result is Success. */
  lemma RunUnaliasDispatched(sh: Shell, context: Context, inv: Invocation, run: Oracle)
    requires inv.command.kind == UnaliasKind && |inv.args| >= 1
    ensures Run(sh, context, inv, run) == (sh, Ok(Success))
  {
    UnaliasAsWrittenRemovesNothing(sh, inv.args);
  }

  // ---------------------------------------------------------------------
  // Aliases

  function RecursionMessage(name: string): string {
    "Recursive call to aliases [" + name + "]. Stopping this senseless venture."
  }

  function ClearInFlight(sh: Shell): Shell {
    sh.(disp := sh.disp.(aliases := sh.disp.aliases.(inFlight := [])))
  }

  /** `AliasedCommand.Execute`: the expansion followed by the arguments is
      dispatched again with the alias marked in flight, and the result is
      Success whatever that command did; an alias already in flight is
      reported instead. The in-flight list is empty afterwards either way.
      The table indexer throws for a name no longer in the table. Both
      writes go through the table's dispatcher field, so with that field
      null the first of them throws NullReference and nothing changes. */
  function RunAliased(sh: Shell, context: Context, name: string, args: seq<string>, run: Oracle): (r: (Shell, Result<ResultCode>))
    ensures !HasAlias(sh.disp.aliases, name) ==> r == (sh, Throw(KeyNotFound))
    ensures HasAlias(sh.disp.aliases, name) && !sh.disp.aliases.dispatcherSet ==> r == (sh, Throw(NullReference))
    ensures HasAlias(sh.disp.aliases, name) && sh.disp.aliases.dispatcherSet ==> r.0.disp.aliases.inFlight == []
    ensures HasAlias(sh.disp.aliases, name) && sh.disp.aliases.dispatcherSet && name in sh.disp.aliases.inFlight ==>
      && r.1 == Ok(ExecutionFailed)
      && r.0 == ClearInFlight(sh).(trace := sh.trace + [Err(RecursionMessage(name))])
    ensures HasAlias(sh.disp.aliases, name) && sh.disp.aliases.dispatcherSet && name !in sh.disp.aliases.inFlight ==>
      r.1 == Ok(Success)
    ensures sh.trace <= r.0.trace
    ensures r.0.settings.Some? <==> sh.settings.Some?
    decreases Budget(sh.disp), 1
  {
    match Get(sh.disp.aliases.table, name)
    case None => (sh, Throw(KeyNotFound))
    case Some(toExecute) =>
      if !sh.disp.aliases.dispatcherSet then (sh, Throw(NullReference))
      else if name in sh.disp.aliases.inFlight then
        (ClearInFlight(sh).(trace := sh.trace + [Err(RecursionMessage(name))]), Ok(ExecutionFailed))
      else (Redispatch(sh, context, name, toExecute, args, run), Ok(Success))
  }

  /** Past the dispatcher-field dereference: the alias marked in flight,
      "<expansion> <arguments>" dispatched, and the in-flight list
      cleared. */
  function Redispatch(sh: Shell, context: Context, name: string, toExecute: string, args: seq<string>, run: Oracle): (r: Shell)
    requires HasAlias(sh.disp.aliases, name) && name !in sh.disp.aliases.inFlight && sh.disp.aliases.dispatcherSet
    ensures r.disp.aliases.inFlight == []
    ensures sh.trace <= r.trace
    ensures r.settings.Some? <==> sh.settings.Some?
    decreases Budget(sh.disp), 0
  {
    var d1 := sh.disp.(aliases := sh.disp.aliases.(inFlight := sh.disp.aliases.inFlight + [name]));
    BudgetShrinks(sh.disp, name);
    var sh1 := sh.(disp := d1, trace := sh.trace + [Err("execute alias: " + AliasCommandText(toExecute, args))]);
    ClearInFlight(ExecuteCommand(sh1, context, AliasCommandText(toExecute, args), run))
  }

  /** What an alias runs: the expansion, a space, and the arguments joined
      by single spaces, as `args.ToString()` does. */
  function AliasCommandText(toExecute: string, args: seq<string>): string {
    toExecute + " " + Join(" ", args)
  }

  /** An alias that is not in flight writes the text it dispatches, and what
      that text then does follows; with the dispatcher field null the write
      itself throws. */
  lemma RunAliasedOutcome(sh: Shell, context: Context, name: string, args: seq<string>, run: Oracle)
    requires HasAlias(sh.disp.aliases, name) && name !in sh.disp.aliases.inFlight
    ensures !sh.disp.aliases.dispatcherSet ==> RunAliased(sh, context, name, args, run) == (sh, Throw(NullReference))
    ensures sh.disp.aliases.dispatcherSet ==>
      var r := RunAliased(sh, context, name, args, run);
      var text := AliasCommandText(ToMap(sh.disp.aliases.table)[name], args);
      && r.1 == Ok(Success)
      && |r.0.trace| > |sh.trace|
      && r.0.trace[|sh.trace|] == Err("execute alias: " + text)
  {
    if !sh.disp.aliases.dispatcherSet { return; }
    var toExecute := ToMap(sh.disp.aliases.table)[name];
    var text := AliasCommandText(toExecute, args);
    var d1 := sh.disp.(aliases := sh.disp.aliases.(inFlight := sh.disp.aliases.inFlight + [name]));
    var sh1 := sh.(disp := d1, trace := sh.trace + [Err("execute alias: " + text)]);
    var sh2 := ExecuteCommand(sh1, context, text, run);
    assert Redispatch(sh, context, name, toExecute, args, run) == ClearInFlight(sh2);
    assert sh2.trace[|sh.trace|] == sh1.trace[|sh.trace|];
  }

  /** The expansion as written: only the second argument. */
  function AliasExpansionAsWritten(args: seq<string>): (r: Result<string>)
    requires |args| >= 2
    ensures r.Throw? <==> args[1] == "\"" || args[1] == "'"
    ensures r.Ok? && !QuoteBounded(args[1]) ==> r.value == args[1]
  {
    StripQuotes(args[1])
  }

  /** The expansion as evidently intended ("rest of values", and the help
      text's `alias size select count(*) from`): every argument after the
      alias name. */
  function AliasExpansion(args: seq<string>): (r: Result<string>)
    requires |args| >= 2
    ensures r.Throw? <==> Join(" ", args[1..]) == "\"" || Join(" ", args[1..]) == "'"
    ensures r.Ok? && !QuoteBounded(Join(" ", args[1..])) ==> r.value == Join(" ", args[1..])
  {
    StripQuotes(Join(" ", args[1..]))
  }

  /** The value `alias` stores: the second argument alone as written, every
      argument after the name when `intended`. */
  function Expansion(args: seq<string>, intended: bool): Result<string>
    requires |args| >= 2
  {
    if intended then AliasExpansion(args) else AliasExpansionAsWritten(args)
  }

  /** `alias <name> <value>`: no name or a quoted name is a syntax error, a
      name taken by a command that is not an alias is refused before the
      value is looked at, a missing value is a syntax error; the table and
      the dispatcher then get the name, and a taken name throws from the
      insert. With the table's dispatcher field null the table gets the
      name and the dispatcher entry throws NullReference. The dispatcher
      runs it with `intended` false; with `intended` true it stores the
      expansion the command evidently means. */
  function RunAlias(sh: Shell, args: seq<string>, intended: bool): (r: (Shell, Result<ResultCode>))
    ensures Keeps(sh, r.0)
    ensures |args| == 0 ==> r == (sh, Ok(SyntaxError))
    ensures |args| > 0 && (StartsWith(args[0], "\"") || StartsWith(args[0], "'")) ==> r == (sh, Ok(SyntaxError))
    ensures (|args| > 0 && !(StartsWith(args[0], "\"") || StartsWith(args[0], "'"))
      && !HasAlias(sh.disp.aliases, args[0]) && ContainsCommand(sh.disp, args[0])) ==>
        r == (sh.(trace := sh.trace + [Err("cannot alias built-in command!")]), Ok(ExecutionFailed))
    ensures r.1 == Ok(Success) <==>
      && |args| >= 2 && !(StartsWith(args[0], "\"") || StartsWith(args[0], "'"))
      && !HasAlias(sh.disp.aliases, args[0]) && !ContainsCommand(sh.disp, args[0])
      && Expansion(args, intended).Ok? && sh.disp.aliases.dispatcherSet
    ensures (|args| >= 2 && !(StartsWith(args[0], "\"") || StartsWith(args[0], "'"))
      && !HasAlias(sh.disp.aliases, args[0]) && !ContainsCommand(sh.disp, args[0])
      && Expansion(args, intended).Ok? && !sh.disp.aliases.dispatcherSet) ==>
        && r.1 == Throw(NullReference)
        && IsAliasOf(r.0.disp.aliases, args[0], Expansion(args, intended).value)
        && r.0.disp.commandMap == sh.disp.commandMap
        && r.0.disp.aliases.dirty == sh.disp.aliases.dirty
        && r.0.trace == sh.trace
    ensures r.1 == Ok(Success) ==>
      && IsAliasOf(r.0.disp.aliases, args[0], Expansion(args, intended).value)
      && ToMap(r.0.disp.commandMap) == ToMap(sh.disp.commandMap)[args[0] := Aliased(args[0])]
    ensures (|args| >= 2 && !(StartsWith(args[0], "\"") || StartsWith(args[0], "'"))
      && HasAlias(sh.disp.aliases, args[0]) && Expansion(args, intended).Ok?) ==>
        r == (sh, Throw(Argument(DuplicateKeyMessage)))
  {
    if |args| == 0 then (sh, Ok(SyntaxError))
    else
      var alias := args[0];
      if StartsWith(alias, "\"") || StartsWith(alias, "'") then (sh, Ok(SyntaxError))
      else if !HasAlias(sh.disp.aliases, alias) && ContainsCommand(sh.disp, alias) then
        (sh.(trace := sh.trace + [Err("cannot alias built-in command!")]), Ok(ExecutionFailed))
      else if |args| < 2 then (sh, Ok(SyntaxError))
      else
        match Expansion(args, intended)
        case Throw(e) => (sh, Throw(e))
        case Ok(value) =>
          match AddAlias(sh.disp, alias, value)
          case Done(d) => (sh.(disp := d), Ok(Success))
          case Stopped(d, e) => (sh.(disp := d), Throw(e))
  }

  /** `alias <name> <value>` performed on a table whose dispatcher field is
      null, as the constructor leaves every table: the name enters the
      table, no command entry is made, the exception is written and the
      command is reported as failed. */
  lemma AliasFailsUnlinked(sh: Shell, context: Context, text: string, inv: Invocation, run: Oracle)
    requires inv.command.kind == AliasKind && |inv.args| == 2
    requires !(StartsWith(inv.args[0], "\"") || StartsWith(inv.args[0], "'"))
    requires !HasAlias(sh.disp.aliases, inv.args[0]) && !ContainsCommand(sh.disp, inv.args[0])
    requires Expansion(inv.args, false).Ok? && !sh.disp.aliases.dispatcherSet
    ensures var r := Perform(sh, context, text, inv, run);
      && IsAliasOf(r.disp.aliases, inv.args[0], Expansion(inv.args, false).value)
      && r.disp.commandMap == sh.disp.commandMap
      && r.trace == sh.trace + [Executing(text), Err(Describe(NullReference)), Executed(text, ExecutionFailed)]
  {
    var sh1 := sh.(trace := sh.trace + [Executing(text)]);
    assert Run(sh1, context, inv, run) == RunAlias(sh1, inv.args, false);
    var sh2 := RunAlias(sh1, inv.args, false).0;
    assert RunAlias(sh1, inv.args, false).1 == Throw(NullReference);
    assert sh2.trace == sh1.trace && sh2.disp.commandMap == sh.disp.commandMap;
  }

  /** The same command once the table holds its dispatcher: the name is in
      the table and mapped to its alias command, and the command succeeds. */
  lemma AliasSucceedsLinked(sh: Shell, context: Context, text: string, inv: Invocation, run: Oracle)
    requires inv.command.kind == AliasKind && |inv.args| == 2
    requires !(StartsWith(inv.args[0], "\"") || StartsWith(inv.args[0], "'"))
    requires !HasAlias(sh.disp.aliases, inv.args[0]) && !ContainsCommand(sh.disp, inv.args[0])
    requires Expansion(inv.args, false).Ok? && sh.disp.aliases.dispatcherSet
    ensures var r := Perform(sh, context, text, inv, run);
      && IsAliasOf(r.disp.aliases, inv.args[0], Expansion(inv.args, false).value)
      && ToMap(r.disp.commandMap) == ToMap(sh.disp.commandMap)[inv.args[0] := Aliased(inv.args[0])]
      && r.trace == sh.trace + [Executing(text), Executed(text, Success)]
  {
    var sh1 := sh.(trace := sh.trace + [Executing(text)]);
    assert Run(sh1, context, inv, run) == RunAlias(sh1, inv.args, false);
  }

  /** "alias size select count(*) from": as written the alias expands to
      "select" only; as intended to the whole command. */
  lemma AliasExpansionExample()
    ensures AliasExpansionAsWritten(["size", "select", "count(*)", "from"]) == Ok("select")
    ensures AliasExpansion(["size", "select", "count(*)", "from"]) == Ok("select count(*) from")
  {
    var args := ["size", "select", "count(*)", "from"];
    assert args[1..] == ["select", "count(*)", "from"];
    assert Join(" ", ["from"]) == "from";
    assert Join(" ", ["count(*)", "from"]) == "count(*) from";
    assert Join(" ", args[1..]) == "select count(*) from";
  }

  /** `unalias` as written: the loop is driven by `MoveBack`, which from a
      fresh cursor fails at once. */
  function UnaliasLoop(d: Dispatcher, c: Arguments.Cursor, failed: nat, lines: seq<Line>): (r: (Dispatcher, seq<Line>, Result<nat>))
    ensures c.index < 2 ==> r == (d, lines, Ok(failed))
    decreases if c.index > 0 then c.index else 0
  {
    var (more, c1) := Arguments.MoveBack(c);
    if !more then (d, lines, Ok(failed))
    else
      match Arguments.Current(c1)
      case Throw(e) => (d, lines, Throw(e))
      case Ok(alias) =>
        if !HasAlias(d.aliases, alias) then
          UnaliasLoop(d, c1, failed + 1, lines + [Err("unknown alias '" + alias + "'")])
        else
          match RemoveAlias(d, alias)
          case Stopped(d1, e) => (d1, lines, Throw(e))
          case Done(d1) => UnaliasLoop(d1, c1, failed, lines)
  }

  /** `unalias <alias> ...` as written, which is what the dispatcher runs. */
  function RunUnaliasAsWritten(sh: Shell, args: seq<string>): (r: (Shell, Result<ResultCode>))
    ensures Keeps(sh, r.0)
    ensures |args| == 0 ==> r == (sh, Ok(SyntaxError))
  {
    if |args| < 1 then (sh, Ok(SyntaxError))
    else
      var (d, lines, outcome) := UnaliasLoop(sh.disp, Arguments.Fresh(args), 0, []);
      var sh1 := sh.(disp := d, trace := sh.trace + lines);
      match outcome
      case Throw(e) => (sh1, Throw(e))
      case Ok(failed) => (sh1, Ok(if failed < |args| then Success else ExecutionFailed))
  }

  /** As written, `unalias` removes nothing and reports Success for any
      argument, so `unalias x` leaves a defined alias x in place. */
  lemma UnaliasAsWrittenRemovesNothing(sh: Shell, args: seq<string>)
    requires |args| >= 1
    ensures RunUnaliasAsWritten(sh, args) == (sh, Ok(Success))
  {
    Arguments.MoveBackFromFresh(args);
    assert sh.(disp := sh.disp, trace := sh.trace + []) == sh;
  }

  /** The removal loop as intended: every argument in turn, an unknown alias
      reported, a known one removed; the count is of the removed ones. Each
      removal completes, as it does once the alias table holds its
      dispatcher. */
  function UnaliasEach(d: Dispatcher, args: seq<string>): (r: (Dispatcher, seq<Line>, nat))
    ensures r.2 <= |args| && |r.1| == |args| - r.2
    ensures r.0.aliases.inFlight == d.aliases.inFlight
    decreases |args|
  {
    if |args| == 0 then (d, [], 0)
    else
      var alias := args[0];
      if !HasAlias(d.aliases, alias) then
        var (d1, lines, removed) := UnaliasEach(d, args[1..]);
        (d1, [Err("unknown alias '" + alias + "'")] + lines, removed)
      else
        var (d1, lines, removed) := UnaliasEach(RemoveEntries(d, alias), args[1..]);
        (d1, lines, removed + 1)
  }

  /** The argument list as a set: its head and the set of its tail. */
  lemma ArgSetCons(args: seq<string>)
    requires |args| > 0
    ensures (set a | a in args) == {args[0]} + (set a | a in args[1..])
  {
    assert forall a :: a in args <==> a == args[0] || a in args[1..];
  }

  /** Every named alias leaves the table, and nothing else does. */
  lemma {:induction false} UnaliasEachTable(d: Dispatcher, args: seq<string>)
    ensures ToMap(UnaliasEach(d, args).0.aliases.table) == ToMap(d.aliases.table) - (set a | a in args)
    decreases |args|
  {
    if |args| > 0 {
      ArgSetCons(args);
      if HasAlias(d.aliases, args[0]) {
        UnaliasEachTable(RemoveEntries(d, args[0]), args[1..]);
      } else {
        UnaliasEachTable(d, args[1..]);
      }
    }
  }

  /** Exactly the named aliases leave the command map. */
  lemma {:induction false} UnaliasEachCommands(d: Dispatcher, args: seq<string>)
    ensures ToMap(UnaliasEach(d, args).0.commandMap) ==
      ToMap(d.commandMap) - (set a | a in args && HasAlias(d.aliases, a))
    decreases |args|
  {
    if |args| > 0 {
      var alias := args[0];
      var named := set a | a in args && HasAlias(d.aliases, a);
      var later := set a | a in args[1..] && HasAlias(d.aliases, a);
      ArgSetCons(args);
      if HasAlias(d.aliases, alias) {
        UnaliasEachCommands(RemoveEntries(d, alias), args[1..]);
        UnaliasHitStep(d, args);
      } else {
        assert UnaliasEach(d, args).0 == UnaliasEach(d, args[1..]).0;
        UnaliasEachCommands(d, args[1..]);
        assert named == later;
      }
    }
  }

  /** One step of `UnaliasEachCommands` where the first argument names an
      alias: the rest removes what it names from the reduced table. */
  lemma UnaliasHitStep(d: Dispatcher, args: seq<string>)
    requires |args| > 0 && HasAlias(d.aliases, args[0])
    requires var d0 := RemoveEntries(d, args[0]);
      ToMap(UnaliasEach(d0, args[1..]).0.commandMap) ==
      ToMap(d0.commandMap) - (set a | a in args[1..] && HasAlias(d0.aliases, a))
    ensures ToMap(UnaliasEach(d, args).0.commandMap) ==
      ToMap(d.commandMap) - (set a | a in args && HasAlias(d.aliases, a))
  {
    var d0 := RemoveEntries(d, args[0]);
    assert UnaliasEach(d, args).0 == UnaliasEach(d0, args[1..]).0;
    HitSets(d, args);
  }

  /** The map arithmetic of one hit: taking out the first alias, then the
      ones the rest names in the reduced table, takes out the ones all the
      arguments name. */
  lemma HitSets(d: Dispatcher, args: seq<string>)
    requires |args| > 0 && HasAlias(d.aliases, args[0])
    ensures var d0 := RemoveEntries(d, args[0]);
      ToMap(d0.commandMap) - (set a | a in args[1..] && HasAlias(d0.aliases, a))
      == ToMap(d.commandMap) - (set a | a in args && HasAlias(d.aliases, a))
  {
    var alias := args[0];
    var m := ToMap(d.commandMap);
    var named := set a | a in args && HasAlias(d.aliases, a);
    var later := set a | a in args[1..] && HasAlias(d.aliases, a);
    ArgSetCons(args);
    var d0 := RemoveEntries(d, alias);
    var later0 := set a | a in args[1..] && HasAlias(d0.aliases, a);
    assert later0 == later - {alias};
    assert named == {alias} + later;
    assert ToMap(d0.commandMap) == m - {alias};
    assert (m - {alias}) - later0 == m - named;
  }

  /** Something was removed exactly when some argument named an alias. */
  lemma {:induction false} UnaliasEachCount(d: Dispatcher, args: seq<string>)
    ensures UnaliasEach(d, args).2 > 0 <==> exists a :: a in args && HasAlias(d.aliases, a)
    decreases |args|
  {
    if |args| > 0 {
      var alias := args[0];
      assert alias in args;
      if !HasAlias(d.aliases, alias) {
        UnaliasEachCount(d, args[1..]);
        assert forall a :: a in args && a != alias ==> a in args[1..];
        assert forall a :: a in args[1..] ==> a in args;
      }
    }
  }

  /** `unalias <alias> ...` as evidently intended: at least one argument,
      each known alias removed, each unknown one reported, and Success when
      at least one was removed. */
  function RunUnaliasIntended(sh: Shell, args: seq<string>): (r: (Shell, Result<ResultCode>))
    ensures Keeps(sh, r.0)
    ensures |args| == 0 ==> r == (sh, Ok(SyntaxError))
    ensures |args| > 0 ==>
      && ToMap(r.0.disp.aliases.table) == ToMap(sh.disp.aliases.table) - (set a | a in args)
      && ToMap(r.0.disp.commandMap) == ToMap(sh.disp.commandMap) - (set a | a in args && HasAlias(sh.disp.aliases, a))
      && (r.1 == Ok(Success) <==> exists a :: a in args && HasAlias(sh.disp.aliases, a))
      && (r.1 != Ok(Success) ==> r.1 == Ok(ExecutionFailed))
  {
    if |args| < 1 then (sh, Ok(SyntaxError))
    else
      var (d, lines, removed) := UnaliasEach(sh.disp, args);
      UnaliasEachTable(sh.disp, args);
      UnaliasEachCommands(sh.disp, args);
      UnaliasEachCount(sh.disp, args);
      var failed := |args| - removed;
      (sh.(disp := d, trace := sh.trace + lines), Ok(if failed < |args| then Success else ExecutionFailed))
  }

  // ---------------------------------------------------------------------
  // Variables

  const NoSettingsMessage := "The application doesn't support settings."

  /** `set <name> <value>`: the second argument with one pair of outer quotes
      removed becomes the variable's value; further arguments are ignored. */
  function RunSet(sh: Shell, args: seq<string>): (r: (Shell, Result<ResultCode>))
    ensures Keeps(sh, r.0)
    ensures sh.settings.None? ==> r == (sh.(trace := sh.trace + [Err(NoSettingsMessage)]), Ok(ExecutionFailed))
    ensures sh.settings.Some? && |args| < 2 ==> r == (sh, Ok(SyntaxError))
    ensures sh.settings.Some? && |args| >= 2 ==>
      && (r.1.Throw? <==> args[1] == "\"" || args[1] == "'")
      && (r.1.Ok? ==> (r.1 == Ok(Success) && r.0.settings.Some?
          && var v := StripQuotes(args[1]).value;
          && HasVariable(r.0.settings.value, args[0]) && ToMap(r.0.settings.value.variables)[args[0]] == v
          && (forall k :: k != args[0] ==> (HasVariable(r.0.settings.value, k) <==> HasVariable(sh.settings.value, k)))
          && (forall k :: k != args[0] && HasVariable(sh.settings.value, k) ==>
                ToMap(r.0.settings.value.variables)[k] == ToMap(sh.settings.value.variables)[k])
          && r.0.trace == sh.trace + [Out(""), Out("variable " + args[0] + " set to " + v), Out("")]))
  {
    match sh.settings
    case None => (sh.(trace := sh.trace + [Err(NoSettingsMessage)]), Ok(ExecutionFailed))
    case Some(s) =>
      if |args| < 2 then (sh, Ok(SyntaxError))
      else
        match StripQuotes(args[1])
        case Throw(e) => (sh, Throw(e))
        case Ok(value) =>
          var sh1 := sh.(settings := Some(SetVariable(s, args[0], value)));
          (sh1.(trace := sh.trace + [Out(""), Out("variable " + args[0] + " set to " + value), Out("")]), Ok(Success))
  }

  /** `$NAME` alone expands to the variable's value. */
  lemma ExpandVariable(vars: map<string, string>, name: string)
    requires name in vars
    requires |name| > 0 && forall j :: 0 <= j < |name| ==> IsLetterOrDigit(name[j])
    ensures Expand(vars, "$" + name) == Ok(vars[name])
  {
    PlainVariable(vars, name, "");
    assert "$" + name + "" == "$" + name;
    assert vars[name] + "" == vars[name];
  }

  /** A variable set from a value without outer quotes is what `$NAME` then
      expands to. */
  lemma SetThenSubstitute(sh: Shell, name: string, value: string)
    requires sh.settings.Some?
    requires |name| > 0 && forall j :: 0 <= j < |name| ==> IsLetterOrDigit(name[j])
    requires !QuoteBounded(value)
    ensures var r := RunSet(sh, [name, value]);
      r.1 == Ok(Success) && Expand(ToMap(r.0.settings.value.variables), "$" + name) == Ok(value)
  {
    StripUnquoted(value);
    var args := [name, value];
    var r := RunSet(sh, args);
    assert args[1] == value && args[0] == name;
    assert r.1 == Ok(Success);
    var vars := ToMap(r.0.settings.value.variables);
    assert name in vars && vars[name] == value;
    ExpandVariable(vars, name);
  }

  /** The loop of `unset`: every argument in turn, an unknown variable
      reported, a known one removed. */
  function UnsetEach(s: AppSettings, args: seq<string>): (r: (AppSettings, seq<Line>, bool))
    decreases |args|
  {
    if |args| == 0 then (s, [], false)
    else
      var name := args[0];
      if !HasVariable(s, name) then
        var (s1, lines, ok) := UnsetEach(s, args[1..]);
        (s1, [Err("unknown variable " + name)] + lines, ok)
      else
        var (s1, lines, ok) := UnsetEach(RemoveVariable(s, name), args[1..]);
        (s1, lines, true)
  }

  /** Every named variable is removed, nothing else changes, and the loop
      reports success exactly when some argument named a variable. */
  lemma {:induction false} UnsetEachEffect(s: AppSettings, args: seq<string>)
    ensures ToMap(UnsetEach(s, args).0.variables) == ToMap(s.variables) - (set a | a in args)
    ensures UnsetEach(s, args).2 <==> exists a :: a in args && HasVariable(s, a)
    decreases |args|
  {
    if |args| > 0 {
      var name := args[0];
      ArgSetCons(args);
      assert name in args;
      if HasVariable(s, name) {
        var s0 := RemoveVariable(s, name);
        UnsetEachEffect(s0, args[1..]);
        assert ToMap(s0.variables) == ToMap(s.variables) - {name};
      } else {
        UnsetEachEffect(s, args[1..]);
        assert forall a :: a in args && a != name ==> a in args[1..];
        assert forall a :: a in args[1..] ==> a in args;
      }
    }
  }

  /** `unset <name> ...`: Success when at least one variable was removed. */
  function RunUnset(sh: Shell, args: seq<string>): (r: (Shell, Result<ResultCode>))
    ensures Keeps(sh, r.0)
    ensures sh.settings.None? ==> r == (sh.(trace := sh.trace + [Err(NoSettingsMessage)]), Ok(ExecutionFailed))
    ensures sh.settings.Some? && |args| == 0 ==> r == (sh, Ok(SyntaxError))
    ensures sh.settings.Some? && |args| > 0 ==>
      && ToMap(r.0.settings.value.variables) == ToMap(sh.settings.value.variables) - (set a | a in args)
      && (r.1 == Ok(Success) <==> exists a :: a in args && HasVariable(sh.settings.value, a))
      && (r.1 != Ok(Success) ==> r.1 == Ok(ExecutionFailed))
  {
    match sh.settings
    case None => (sh.(trace := sh.trace + [Err(NoSettingsMessage)]), Ok(ExecutionFailed))
    case Some(s) =>
      if |args| == 0 then (sh, Ok(SyntaxError))
      else
        var (s1, lines, ok) := UnsetEach(s, args);
        UnsetEachEffect(s, args);
        (sh.(settings := Some(s1), trace := sh.trace + lines), Ok(if ok then Success else ExecutionFailed))
  }

  // ---------------------------------------------------------------------
  // Properties

  /** The value scan of `set-property` as written: white space, then a word,
      then white space are skipped, although the property name has already
      been taken off; so the value's first word is lost. What is left is a
      suffix of the text that starts with no white space. */
  function PropertyValueAsWritten(param: string): (r: string)
    ensures |r| <= |param| && r == param[|param| - |r|..]
    ensures r != "" ==> !IsWhiteSpace(r[0])
  {
    var rest := param[SkipWord(param)..];
    rest[LeadingSpace(rest)..]
  }

  /** The value as evidently intended: the remainder after the property
      name, which only needs its leading white space skipped. The text is
      white space followed by the value, and the value starts with no white
      space. */
  function PropertyValue(param: string): (r: string)
    ensures |r| <= |param| && r == param[|param| - |r|..]
    ensures AllWhiteSpace(param[..|param| - |r|])
    ensures r != "" ==> !IsWhiteSpace(r[0])
  {
    param[LeadingSpace(param)..]
  }

  /** The value `set-property` stores, before its quotes are stripped. */
  function PropertyScan(param: string, intended: bool): string {
    if intended then PropertyValue(param) else PropertyValueAsWritten(param)
  }

  /** White space in front of text that starts with none is what
      `TrimStart` removes. */
  lemma {:induction false} TrimStartAfterSpace(a: string, t: string)
    requires AllWhiteSpace(a) && (t == "" || !IsWhiteSpace(t[0]))
    ensures TrimStart(a + t) == t
    decreases |a|
  {
    if |a| > 0 {
      assert (a + t)[0] == a[0] && (a + t)[1..] == a[1..] + t;
      TrimStartAfterSpace(a[1..], t);
    } else {
      assert a + t == t;
    }
  }

  /** A word followed by nothing or by white space is one word long. */
  lemma {:induction false} WordLengthOf(w: string, rest: string)
    requires forall j :: 0 <= j < |w| ==> !IsWhiteSpace(w[j])
    requires rest == "" || IsWhiteSpace(rest[0])
    ensures WordLength(w + rest) == |w|
    decreases |w|
  {
    if |w| > 0 {
      assert (w + rest)[0] == w[0] && (w + rest)[1..] == w[1..] + rest;
      WordLengthOf(w[1..], rest);
    } else {
      assert w + rest == rest;
    }
  }

  /** The intended scan: for white space `a` in front of a value `r` that
      starts with none, the value is `r`. */
  lemma ValueAfterSpace(a: string, r: string)
    requires AllWhiteSpace(a) && (r == "" || !IsWhiteSpace(r[0]))
    ensures PropertyValue(a + r) == r
  {
    TrimStartAfterSpace(a, r);
  }

  /** Skipping white space and a word from text that is white space `a`, a
      word `w` and a `rest` that starts with white space lands after `w`. */
  lemma {:induction false} SkipWordOf(a: string, w: string, rest: string)
    requires AllWhiteSpace(a) && Plain(w)
    requires rest == "" || IsWhiteSpace(rest[0])
    ensures SkipWord(a + (w + rest)) == |a| + |w|
  {
    var t := w + rest;
    assert t[0] == w[0];
    TrimStartAfterSpace(a, t);
    assert (a + t)[|a|..] == t;
    WordLengthOf(w, rest);
  }

  /** The scan as written: for text made of white space `a`, a word `w`,
      white space `b` and a rest `r` that starts with none, the value is
      `r`, so the word `w` is lost. */
  lemma {:induction false} ValueAfterWord(a: string, w: string, b: string, r: string)
    requires AllWhiteSpace(a) && Plain(w) && AllWhiteSpace(b)
    requires r == "" || (b != "" && !IsWhiteSpace(r[0]))
    ensures PropertyValueAsWritten(a + (w + (b + r))) == r
  {
    var br := b + r;
    var p := a + (w + br);
    BlankStart(b, r);
    SkipWordOf(a, w, br);
    ValueAfterSpace(b, r);
    ScanAfterWord(a, w, br);
  }

  /** The scan as written is the intended scan of what follows the first
      word. */
  lemma ScanAfterWord(a: string, w: string, br: string)
    requires SkipWord(a + (w + br)) == |a| + |w|
    ensures PropertyValueAsWritten(a + (w + br)) == PropertyValue(br)
  {
    var p := a + (w + br);
    ScanIsValueAfter(p);
    DropTwo(a, w, br);
  }

  lemma DropTwo(a: string, w: string, br: string)
    ensures (a + (w + br))[|a| + |w|..] == br
  {
  }

  lemma ScanIsValueAfter(p: string)
    ensures PropertyValueAsWritten(p) == PropertyValue(p[SkipWord(p)..])
  {
  }

  lemma BlankStart(b: string, r: string)
    requires AllWhiteSpace(b) && (r == "" || b != "")
    ensures b + r == "" || IsWhiteSpace((b + r)[0])
  {
    if b != "" { assert (b + r)[0] == b[0]; }
  }

  /** "set-property p on" sets "" as written and "on" as intended. */
  lemma PropertyValueOneWord()
    ensures PropertyValueAsWritten("on") == "" && PropertyValue("on") == "on"
  {
    assert !IsWhiteSpace('o') && !IsWhiteSpace('n');
    assert TrimStart("on") == "on";
    assert WordLength("on") == 2 by {
      assert "on"[1..] == "n";
      assert "n"[1..] == "";
    }
  }

  /** "set-property p a b" sets "b" as written and "a b" as intended. */
  lemma PropertyValueTwoWords()
    ensures PropertyValueAsWritten("a b") == "b" && PropertyValue("a b") == "a b"
  {
    FirstWordOfAB();
    TrimStartAB();
  }

  lemma FirstWordOfAB()
    ensures SkipWord("a b") == 1 && "a b"[1..] == " b"
  {
    var s := "a b";
    assert s[0] == 'a' && s[1] == ' ';
    assert !IsWhiteSpace('a') && IsWhiteSpace(' ');
    assert LeadingSpace(s) == 0;
    var i := SkipWord(s);
    assert i <= 1;
  }

  lemma TrimStartAB()
    ensures TrimStart(" b") == "b" && TrimStart("a b") == "a b"
  {
    assert !IsWhiteSpace('a') && !IsWhiteSpace('b') && IsWhiteSpace(' ');
    assert " b"[1..] == "b";
  }

  const NoPropertiesMessage := "The current context doesn't support properties."

  /** `set-property <name> <value>`: the remaining arguments joined by
      spaces, scanned and with one pair of outer quotes removed, become the
      property's value; the registry's error message is written on failure.
      The dispatcher runs it with `intended` false; with `intended` true the
      scan keeps the value's first word. */
  function RunSetProperty(sh: Shell, args: seq<string>, intended: bool): (r: (Shell, Result<ResultCode>))
    ensures Keeps(sh, r.0)
    ensures |args| == 0 ==> r == (sh, Ok(SyntaxError))
    ensures |args| > 0 ==>
      var value := PropertyScan(Join(" ", args[1..]), intended);
      && (r.1.Throw? <==> value == "\"" || value == "'")
      && (r.1.Ok? && sh.props.None? ==> r == (sh.(trace := sh.trace + [Err(NoPropertiesMessage)]), Ok(ExecutionFailed)))
      && (r.1 == Ok(Success) <==> r.1.Ok? && sh.props.Some? && Properties.SetProperty(sh.props.value, args[0], Some(StripQuotes(value).value)).Ok?)
      && (r.1 == Ok(Success) ==> r.0.props == Some(Properties.SetProperty(sh.props.value, args[0], Some(StripQuotes(value).value)).value))
  {
    if |args| == 0 then (sh, Ok(SyntaxError))
    else
      var name := args[0];
      match StripQuotes(PropertyScan(Join(" ", args[1..]), intended))
      case Throw(e) => (sh, Throw(e))
      case Ok(value) =>
        match sh.props
        case None => (sh.(trace := sh.trace + [Err(NoPropertiesMessage)]), Ok(ExecutionFailed))
        case Some(reg) =>
          match Properties.SetProperty(reg, name, Some(value))
          case Throw(e) => (sh.(trace := sh.trace + [Err(Message(e))]), Ok(ExecutionFailed))
          case Ok(reg1) => (sh.(props := Some(reg1)), Ok(Success))
  }

  /** Words that, joined by spaces, open and close with the same quote
      character. */
  predicate QuotedWords(ws: seq<string>) {
    |ws| >= 1 && ws[0] != "" && ws[|ws| - 1] != ""
    && IsQuote(ws[0][0]) && ws[|ws| - 1][|ws[|ws| - 1]| - 1] == ws[0][0]
  }

  /** Plain words joined by spaces, not quote-bounded as a whole, are their
      own value: nothing to trim, no quotes to strip. */
  lemma {:induction false} PlainValue(ws: seq<string>)
    requires |ws| >= 1 && forall i :: 0 <= i < |ws| ==> Plain(ws[i])
    requires !QuotedWords(ws)
    ensures StripQuotes(PropertyValue(Join(" ", ws))) == Ok(Join(" ", ws))
  {
    var j := Join(" ", ws);
    JoinedPlainEnds(ws);
    JoinEnds(ws);
    assert j[0] == j[..|ws[0]|][0];
    assert TrimStart(j) == j;
    StripUnquoted(j);
  }

  /** As intended, setting a registered property to plain words stores
      exactly those words in its holder. */
  lemma {:induction false} SetPropertyWords(sh: Shell, name: string, ws: seq<string>)
    requires sh.props.Some? && Properties.HasProperty(sh.props.value, name)
    requires ToMap(sh.props.value.props)[name].Some?
    requires |ws| >= 1 && forall i :: 0 <= i < |ws| ==> Plain(ws[i])
    requires !QuotedWords(ws)
    ensures var r := RunSetProperty(sh, [name] + ws, true);
      && r.1 == Ok(Success) && r.0.props.Some? && Properties.HasProperty(r.0.props.value, name)
      && ToMap(r.0.props.value.props)[name] == Some(ToMap(sh.props.value.props)[name].value.(value := Some(Join(" ", ws))))
  {
    PropertyArgs(name, ws);
    RunSetPropertyStores(sh, [name] + ws, true);
  }

  lemma PropertyArgs(name: string, ws: seq<string>)
    requires |ws| >= 1 && forall i :: 0 <= i < |ws| ==> Plain(ws[i])
    requires !QuotedWords(ws)
    ensures var args := [name] + ws;
      && |args| > 0 && args[0] == name
      && StripQuotes(PropertyScan(Join(" ", args[1..]), true)) == Ok(Join(" ", ws))
  {
    var args := [name] + ws;
    assert args[1..] == ws;
    PlainValue(ws);
  }

  /** As written, setting a registered property to plain words stores the
      words after the first: "set-property p w1 w2 ... wn" stores
      "w2 ... wn". */
  lemma {:induction false} SetPropertyWordsAsWritten(sh: Shell, name: string, ws: seq<string>)
    requires sh.props.Some? && Properties.HasProperty(sh.props.value, name)
    requires ToMap(sh.props.value.props)[name].Some?
    requires |ws| >= 2 && forall i :: 0 <= i < |ws| ==> Plain(ws[i])
    requires !QuotedWords(ws[1..])
    ensures var r := RunSetProperty(sh, [name] + ws, false);
      && r.1 == Ok(Success) && r.0.props.Some? && Properties.HasProperty(r.0.props.value, name)
      && ToMap(r.0.props.value.props)[name] == Some(ToMap(sh.props.value.props)[name].value.(value := Some(Join(" ", ws[1..]))))
  {
    PropertyArgsAsWritten(name, ws);
    RunSetPropertyStores(sh, [name] + ws, false);
  }

  lemma {:induction false} PropertyArgsAsWritten(name: string, ws: seq<string>)
    requires |ws| >= 2 && forall i :: 0 <= i < |ws| ==> Plain(ws[i])
    requires !QuotedWords(ws[1..])
    ensures var args := [name] + ws;
      && |args| > 0 && args[0] == name
      && StripQuotes(PropertyScan(Join(" ", args[1..]), false)) == Ok(Join(" ", ws[1..]))
  {
    var args := [name] + ws;
    assert args[1..] == ws;
    var rest := ws[1..];
    assert forall i :: 0 <= i < |rest| ==> Plain(rest[i]) by {
      forall i | 0 <= i < |rest| ensures Plain(rest[i]) { assert rest[i] == ws[i + 1]; }
    }
    JoinedWordsAsWritten(ws);
    PlainValue(rest);
    ValueAfterSpace("", Join(" ", rest));
    assert "" + Join(" ", rest) == Join(" ", rest);
  }

  /** Plain words joined by spaces lose their first word to the scan as
      written. */
  lemma {:induction false} JoinedWordsAsWritten(ws: seq<string>)
    requires |ws| >= 2 && forall i :: 0 <= i < |ws| ==> Plain(ws[i])
    ensures PropertyValueAsWritten(Join(" ", ws)) == Join(" ", ws[1..])
  {
    var j := Join(" ", ws[1..]);
    PlainTail(ws);
    JoinedPlainEnds(ws[1..]);
    JoinFirst(ws);
    assert IsWhiteSpace(' ') && AllWhiteSpace("") && AllWhiteSpace(" ");
    ValueAfterWord("", ws[0], " ", j);
  }

  lemma PlainTail(ws: seq<string>)
    requires |ws| >= 1 && forall i :: 0 <= i < |ws| ==> Plain(ws[i])
    ensures forall i :: 0 <= i < |ws[1..]| ==> Plain(ws[1..][i])
  {
    forall i | 0 <= i < |ws[1..]| ensures Plain(ws[1..][i]) { assert ws[1..][i] == ws[i + 1]; }
  }

  /** Two or more words joined by spaces: the first, a space, the rest. */
  lemma JoinFirst(ws: seq<string>)
    requires |ws| >= 2
    ensures Join(" ", ws) == "" + (ws[0] + (" " + Join(" ", ws[1..])))
  {
    JoinCons(ws[0], ws[1..]);
    assert [ws[0]] + ws[1..] == ws;
    assert "" + (ws[0] + (" " + Join(" ", ws[1..]))) == ws[0] + " " + Join(" ", ws[1..]);
  }

  /** The conditions under which `set-property` stores a value, in one place. */
  lemma RunSetPropertyStores(sh: Shell, args: seq<string>, intended: bool)
    requires |args| > 0 && sh.props.Some? && Properties.HasProperty(sh.props.value, args[0])
    requires ToMap(sh.props.value.props)[args[0]].Some?
    requires StripQuotes(PropertyScan(Join(" ", args[1..]), intended)).Ok?
    ensures var r := RunSetProperty(sh, args, intended);
      var v := StripQuotes(PropertyScan(Join(" ", args[1..]), intended)).value;
      && r.1 == Ok(Success) && r.0.props.Some? && Properties.HasProperty(r.0.props.value, args[0])
      && ToMap(r.0.props.value.props)[args[0]] == Some(ToMap(sh.props.value.props)[args[0]].value.(value := Some(v)))
  {
  }

  const NoPropertiesResetMessage := "the current context does not support properties."

  /** `reset-property <name>`: exactly one argument; the holder's default
      value is stored; an unknown name throws from the registry indexer and
      a null holder fails. */
  function RunResetProperty(sh: Shell, args: seq<string>): (r: (Shell, Result<ResultCode>))
    ensures Keeps(sh, r.0)
    ensures |args| != 1 ==> r == (sh, Ok(SyntaxError))
    ensures |args| == 1 && sh.props.None? ==> r == (sh.(trace := sh.trace + [Err(NoPropertiesResetMessage)]), Ok(ExecutionFailed))
    ensures |args| == 1 && sh.props.Some? ==>
      && (r.1.Throw? <==> !Properties.HasProperty(sh.props.value, args[0]))
      && (r.1 == Ok(Success) <==> Properties.HasProperty(sh.props.value, args[0]) && ToMap(sh.props.value.props)[args[0]].Some?)
      && (r.1 == Ok(Success) ==>
          (&& r.0.props.Some?
           && var h := ToMap(sh.props.value.props)[args[0]];
           && h.Some?
           && ToMap(r.0.props.value.props) == ToMap(sh.props.value.props)[args[0] := Some(h.value.(value := h.value.defaultValue))]))
  {
    if |args| != 1 then (sh, Ok(SyntaxError))
    else
      match sh.props
      case None => (sh.(trace := sh.trace + [Err(NoPropertiesResetMessage)]), Ok(ExecutionFailed))
      case Some(reg) =>
        var name := args[0];
        match Properties.GetProperty(reg, name)
        case Throw(e) => (sh, Throw(e))
        case Ok(holder) =>
          match holder
          case None => (sh, Ok(ExecutionFailed))
          case Some(h) =>
            match Properties.SetProperty(reg, name, h.defaultValue)
            case Throw(_) => (sh.(trace := sh.trace + [Err("setting to default '" + h.defaultValue.GetOr("") + "' failed.")]), Ok(ExecutionFailed))
            case Ok(reg1) => (sh.(props := Some(reg1)), Ok(Success))
  }

  /** Setting a property and resetting it leaves the holder with its
      default value, whatever was set. */
  lemma SetThenReset(sh: Shell, args: seq<string>, intended: bool)
    requires |args| > 0 && sh.props.Some? && Properties.HasProperty(sh.props.value, args[0])
    requires ToMap(sh.props.value.props)[args[0]].Some?
    requires StripQuotes(PropertyScan(Join(" ", args[1..]), intended)).Ok?
    ensures var r1 := RunSetProperty(sh, args, intended);
      var r2 := RunResetProperty(r1.0, [args[0]]);
      var h := ToMap(sh.props.value.props)[args[0]].value;
      && r1.1 == Ok(Success) && r2.1 == Ok(Success)
      && ToMap(r2.0.props.value.props)[args[0]] == Some(h.(value := h.defaultValue))
  {
    RunSetPropertyStores(sh, args, intended);
    ResetRestores(RunSetProperty(sh, args, intended).0, args[0]);
  }

  /** Resetting a registered property puts its default value back. */
  lemma ResetRestores(sh: Shell, name: string)
    requires sh.props.Some? && Properties.HasProperty(sh.props.value, name)
    requires ToMap(sh.props.value.props)[name].Some?
    ensures var r := RunResetProperty(sh, [name]);
      var h := ToMap(sh.props.value.props)[name].value;
      && r.1 == Ok(Success) && r.0.props.Some?
      && ToMap(r.0.props.value.props)[name] == Some(h.(value := h.defaultValue))
  {
    var args := [name];
    assert args[0] == name;
    var r := RunResetProperty(sh, args);
    assert r.1 == Ok(Success);
  }

  // ---------------------------------------------------------------------
  // Echo

  /** `echo <words>`: the arguments joined by spaces, with one pair of outer
      quotes removed, written as one line; a lone quote throws. */
  function RunEcho(sh: Shell, args: seq<string>): (r: (Shell, Result<ResultCode>))
    ensures Keeps(sh, r.0)
    ensures r.1.Throw? <==> Join(" ", args) == "\"" || Join(" ", args) == "'"
    ensures r.1.Ok? ==> r.1 == Ok(Success) && r.0 == sh.(trace := sh.trace + [Out(StripQuotes(Join(" ", args)).value)])
  {
    match StripQuotes(Arguments.ToString(Arguments.Fresh(args)))
    case Throw(e) => (sh, Throw(e))
    case Ok(v) => (sh.(trace := sh.trace + [Out(v)]), Ok(Success))
  }

  /** `echo "w1 ... wn"` writes the words without the quotes. */
  lemma EchoQuoted(sh: Shell, ws: seq<string>)
    requires |ws| >= 1 && forall i :: 0 <= i < |ws| ==> Plain(ws[i])
    requires forall i :: 0 <= i < |ws| ==> '"' !in ws[i]
    ensures RunEcho(sh, ["\"" + Join(" ", ws) + "\""]).0.trace == sh.trace + [Out(Join(" ", ws))]
  {
    StripQuoted('"', Join(" ", ws));
    assert "\"" + Join(" ", ws) + "\"" == ['"'] + Join(" ", ws) + ['"'];
  }
}
