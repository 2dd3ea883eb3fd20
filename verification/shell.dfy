/** The pure parts of `ShellApplication`: how history lines are escaped for
  the history file and decoded from it, which lines enter the history, and
  how one input line is cut into statements and run.
 */
module Shell {
  import opened Wrappers
  import opened Strings
  import opened SortedMaps
  import opened Commands
  import opened Dispatching
  import opened Settings
  import opened Separator
  import Execution

  // ---------------------------------------------------------------------
  // The history file

  /** One character of `EscapeHistoryLine`'s loop: a backslash and a
      newline get a backslash in front, anything else is copied. */
  function EscapeChar(c: char): (r: string)
    ensures |r| >= 1 && r[|r| - 1] == c
    ensures |r| == 2 <==> c == '\\' || c == '\n'
    ensures |r| == 2 ==> r[0] == '\\'
  {
    if c == '\\' then "\\\\" else if c == '\n' then "\\\n" else [c]
  }

  /** The loop of `EscapeHistoryLine`, over the whole line. */
  function EscapeAll(s: string): (r: string)
    ensures |r| >= |s|
    decreases |s|
  {
    if |s| == 0 then "" else EscapeChar(s[0]) + EscapeAll(s[1..])
  }

  /** `EscapeHistoryLine`: a line without backslash or newline is returned
      as it is; any other is escaped character by character. */
  function EscapeHistoryLine(s: string): (r: string)
    ensures '\\' !in s && '\n' !in s ==> r == s
  {
    if '\\' in s || '\n' in s then EscapeAll(s) else s
  }

  /** The shortcut changes nothing: escaping a line without backslash or
      newline character by character gives the line back. */
  lemma {:induction false} EscapeAllPlain(s: string)
    requires '\\' !in s && '\n' !in s
    ensures EscapeAll(s) == s
    decreases |s|
  {
    if |s| > 0 {
      assert '\\' !in s[1..] && '\n' !in s[1..] by {
        forall j | 0 <= j < |s[1..]| ensures s[1..][j] != '\\' && s[1..][j] != '\n' {
          assert s[1..][j] == s[j + 1];
        }
      }
      EscapeAllPlain(s[1..]);
      assert s[0] != '\\' && s[0] != '\n';
      assert [s[0]] + s[1..] == s;
    }
  }

  lemma EscapeIsEscapeAll(s: string)
    ensures EscapeHistoryLine(s) == EscapeAll(s)
  {
    if '\\' !in s && '\n' !in s {
      EscapeAllPlain(s);
    }
  }

  /** `(char)reader.Read()` at the end of the stream. */
  const EndOfStream: char := '\U{FFFF}'

  /** The entry a finished line adds: none when it is empty. */
  function Entry(line: string): (r: seq<string>)
    ensures |r| <= 1 && (line != "" <==> r == [line])
  {
    if line == "" then [] else [line]
  }

  /** The decoding loop of `LoadHistory`, on the rest of the file with the
      line read so far: '\r' is dropped, the character after a backslash is
      taken as it is, a newline ends an entry, and empty entries are
      skipped. A backslash at the very end reads the end-of-stream value. */
  function DecodeHistory(text: string, line: string): (r: seq<string>)
    ensures forall i :: 0 <= i < |r| ==> r[i] != ""
    decreases |text|
  {
    if |text| == 0 then Entry(line)
    else if text[0] == '\n' then Entry(line) + DecodeHistory(text[1..], "")
    else if text[0] == '\r' then DecodeHistory(text[1..], line)
    else if text[0] == '\\' then
      if |text| == 1 then Entry(line + [EndOfStream])
      else DecodeHistory(text[2..], line + [text[1]])
    else DecodeHistory(text[1..], line + [text[0]])
  }

  /** `LoadHistory` as a function of the file's text. A file with no
      backslash and no '\r' loads as its non-empty lines. */
  function LoadHistory(text: string): (r: seq<string>)
    ensures '\\' !in text && '\r' !in text ==> r == NonEmpty(Split(text, {'\n'}))
  {
    if '\\' !in text && '\r' !in text then
      DecodePlain(text, "");
      var pieces := Split(text, {'\n'});
      assert "" + pieces[0] == pieces[0];
      assert [pieces[0]] + pieces[1..] == pieces;
      DecodeHistory(text, "")
    else DecodeHistory(text, "")
  }

  /** Reading plain text on from a partial line: the partial line joins the
      first piece, and each piece up to a newline is an entry unless empty. */
  lemma {:induction false} DecodePlain(text: string, line: string)
    requires '\\' !in text && '\r' !in text
    ensures var pieces := Split(text, {'\n'});
      DecodeHistory(text, line) == NonEmpty([line + pieces[0]] + pieces[1..])
    decreases |text|
  {
    var pieces := Split(text, {'\n'});
    if |text| == 0 {
      assert pieces == [""] && line + "" == line;
      assert [line + pieces[0]] + pieces[1..] == [line];
      NonEmptyCons(line, []);
    } else {
      var rest := Split(text[1..], {'\n'});
      assert forall c :: c in text[1..] ==> c in text;
      if text[0] == '\n' {
        DecodePlain(text[1..], "");
        assert pieces == [""] + rest;
        assert line + pieces[0] == line;
        assert [line + pieces[0]] + pieces[1..] == [line] + rest;
        assert "" + rest[0] == rest[0];
        assert [rest[0]] + rest[1..] == rest;
        NonEmptyCons(line, rest);
      } else {
        DecodePlain(text[1..], line + [text[0]]);
        assert pieces == [[text[0]] + rest[0]] + rest[1..];
        assert line + ([text[0]] + rest[0]) == (line + [text[0]]) + rest[0];
        assert [line + pieces[0]] + pieces[1..] == [(line + [text[0]]) + rest[0]] + rest[1..];
      }
    }
  }

  lemma NonEmptyCons(x: string, s: seq<string>)
    ensures NonEmpty([x] + s) == Entry(x) + NonEmpty(s)
  {
    assert ([x] + s)[1..] == s;
  }

  /** One escaped character decodes to itself. */
  lemma DecodeChar(c: char, tail: string, line: string)
    requires c != '\r'
    ensures DecodeHistory(EscapeChar(c) + tail, line) == DecodeHistory(tail, line + [c])
  {
    var text := EscapeChar(c) + tail;
    if c == '\\' || c == '\n' {
      assert text[0] == '\\' && text[1] == c && text[2..] == tail;
    } else {
      assert text[0] == c && text[1..] == tail;
    }
  }

  /** Decoding an escaped line adds exactly that line to the one being read,
      when it holds no '\r' (which the decoder drops). */
  lemma {:induction false} DecodeEscaped(s: string, rest: string, line: string)
    requires '\r' !in s
    ensures DecodeHistory(EscapeAll(s) + rest, line) == DecodeHistory(rest, line + s)
    decreases |s|
  {
    if |s| == 0 {
      assert EscapeAll(s) + rest == rest;
      assert line + s == line;
    } else {
      var tail := EscapeAll(s[1..]) + rest;
      assert EscapeAll(s) + rest == EscapeChar(s[0]) + tail;
      assert s[0] != '\r';
      DecodeChar(s[0], tail, line);
      NoCarriageInTail(s);
      DecodeEscaped(s[1..], rest, line + [s[0]]);
      assert line + [s[0]] + s[1..] == line + s;
    }
  }

  lemma NoCarriageInTail(s: string)
    requires |s| > 0 && '\r' !in s
    ensures '\r' !in s[1..]
  {
    forall j | 0 <= j < |s[1..]| ensures s[1..][j] != '\r' {
      assert s[1..][j] == s[j + 1];
    }
  }

  /** Round trip: a non-empty line without '\r', escaped and written with a
      line end ("\n", or "\r\n" whose '\r' the decoder drops), loads back as
      exactly that one entry. */
  lemma HistoryRoundTrip(s: string, newline: string)
    requires s != "" && '\r' !in s
    requires newline == "\n" || newline == "\r\n"
    ensures LoadHistory(EscapeHistoryLine(s) + newline) == [s]
  {
    EscapeIsEscapeAll(s);
    DecodeEscaped(s, newline, "");
    assert "" + s == s;
    LineEnd(s, newline, "");
    assert newline + "" == newline;
  }

  /** `WriteHistory`: every entry escaped and followed by a line end.
      Loading the text back gives the non-empty entries, in order, when no
      entry holds a '\r'. */
  function WriteHistory(entries: seq<string>, newline: string): (r: string)
    ensures (forall i :: 0 <= i < |entries| ==> '\r' !in entries[i]) && (newline == "\n" || newline == "\r\n") ==>
      LoadHistory(r) == NonEmpty(entries)
    decreases |entries|
  {
    if |entries| == 0 then ""
    else
      var s := entries[0];
      var later := WriteHistory(entries[1..], newline);
      var r := EscapeHistoryLine(s) + newline + later;
      if (forall i :: 0 <= i < |entries| ==> '\r' !in entries[i]) && (newline == "\n" || newline == "\r\n") then
        assert forall i :: 0 <= i < |entries[1..]| ==> entries[1..][i] == entries[i + 1];
        LoadEntry(s, newline, later);
        r
      else r
  }

  /** An escaped line and its line end load as that line's entry, followed
      by whatever comes after. */
  lemma LoadEntry(s: string, newline: string, later: string)
    requires '\r' !in s
    requires newline == "\n" || newline == "\r\n"
    ensures LoadHistory(EscapeHistoryLine(s) + newline + later) == Entry(s) + LoadHistory(later)
  {
    EscapeIsEscapeAll(s);
    assert EscapeHistoryLine(s) + newline + later == EscapeAll(s) + (newline + later);
    DecodeEscaped(s, newline + later, "");
    assert "" + s == s;
    LineEnd(s, newline, later);
  }

  /** The entries that are not empty, in order. */
  function NonEmpty(entries: seq<string>): (r: seq<string>)
    ensures |r| <= |entries|
    decreases |entries|
  {
    if |entries| == 0 then [] else Entry(entries[0]) + NonEmpty(entries[1..])
  }

  /** A line end finishes the entry being read and starts the next one
      empty. */
  lemma LineEnd(line: string, newline: string, later: string)
    requires newline == "\n" || newline == "\r\n"
    ensures DecodeHistory(newline + later, line) == Entry(line) + DecodeHistory(later, "")
  {
    var text := newline + later;
    if newline == "\r\n" {
      assert text[0] == '\r' && text[1..] == "\n" + later;
      assert ("\n" + later)[1..] == later;
    } else {
      assert text[1..] == later;
    }
  }

  // ---------------------------------------------------------------------
  // Which lines enter the history

  /** The history list and the line stored last (`previousHistoryLine`,
      null at first). */
  datatype History = History(entries: seq<string>, previous: Option<string>)

  const NoHistory := History([], None)

  /** `StoreHistoryLine`: the accumulated line, trimmed, is added when it is
      not empty and differs from the line stored last. */
  function StoreHistoryLine(h: History, historyLine: string): (r: History)
    ensures var line := Trim(historyLine);
      && (line != "" && h.previous != Some(line) ==> r == History(h.entries + [line], Some(line)))
      && (line == "" || h.previous == Some(line) ==> r == h)
  {
    var line := Trim(historyLine);
    if line != "" && h.previous != Some(line) then History(h.entries + [line], Some(line)) else h
  }

  /** What storing keeps true: the line stored last is the last entry, and
      no entry is empty, has white space at its ends, or repeats the one
      before it. */
  predicate Kept(h: History) {
    && (h.entries == [] <==> h.previous.None?)
    && (h.entries != [] ==> h.previous == Some(h.entries[|h.entries| - 1]))
    && (forall i :: 0 <= i < |h.entries| ==> h.entries[i] != "" && !IsWhiteSpace(h.entries[i][0]))
    && (forall i :: 0 <= i < |h.entries| ==> !IsWhiteSpace(h.entries[i][|h.entries[i]| - 1]))
    && (forall i :: 0 < i < |h.entries| ==> h.entries[i] != h.entries[i - 1])
  }

  /** Storing lines one after another keeps the history free of empty
      entries and of a line repeated right after itself. */
  lemma StoreKeeps(h: History, historyLine: string)
    requires Kept(h)
    ensures Kept(StoreHistoryLine(h, historyLine))
  {
    var line := Trim(historyLine);
    if line != "" && h.previous != Some(line) {
      var e := h.entries + [line];
      forall i | 0 <= i < |e|
        ensures e[i] != "" && !IsWhiteSpace(e[i][0]) && !IsWhiteSpace(e[i][|e[i]| - 1])
      {
        if i < |h.entries| { assert e[i] == h.entries[i]; }
      }
      forall i | 0 < i < |e| ensures e[i] != e[i - 1] {
        if i < |h.entries| { assert e[i] == h.entries[i] && e[i - 1] == h.entries[i - 1]; }
      }
      assert StoreHistoryLine(h, historyLine) == History(e, Some(line));
    }
  }

  lemma NoHistoryKept()
    ensures Kept(NoHistory)
  {
  }

  // ---------------------------------------------------------------------
  // Running one line

  /** `LineExecutionResultCode`. */
  datatype LineResult = Executed | Empty | Incomplete

  /** What became of one statement the separator found: no command knew
      it, its command wanted more input, or it was run with this text. */
  datatype Outcome = Unknown | Unfinished | Ran(statement: string)

  /** The result code after one more statement: an unknown statement makes
      it Empty unless a statement already ran, an unfinished one makes it
      Incomplete, and a run one makes it Executed. */
  function After(result: LineResult, o: Outcome): LineResult {
    match o
    case Unknown => if result == Executed then Executed else Empty
    case Unfinished => Incomplete
    case Ran(_) => Executed
  }

  /** The result code after a run of statements. */
  function Settle(result: LineResult, os: seq<Outcome>): LineResult
    decreases |os|
  {
    if |os| == 0 then result else Settle(After(result, os[0]), os[1..])
  }

  /** The statements that were run, in order. */
  function RunStatements(os: seq<Outcome>): (r: seq<string>)
    ensures |r| <= |os|
    decreases |os|
  {
    if |os| == 0 then [] else (if os[0].Ran? then [os[0].statement] else []) + RunStatements(os[1..])
  }

  /** What running a line leaves: the separator, the line's result, what
      became of each statement found, in order, and the shell after the
      statements that ran. */
  datatype LineRun = LineRun(sep: Separator, result: LineResult, outcomes: seq<Outcome>, shell: Execution.Shell)

  /** `Execute(ActiveContext, statement)` for each statement in turn: each
      runs on the shell the one before it left. */
  function ExecuteAll(sh: Execution.Shell, context: Execution.Context, statements: seq<string>, oracle: Execution.Oracle): (r: Execution.Shell)
    ensures sh.trace <= r.trace
    ensures r.settings.Some? <==> sh.settings.Some?
    decreases |statements|
  {
    if |statements| == 0 then sh
    else ExecuteAll(Execution.ExecuteCommand(sh, context, statements[0], oracle), context, statements[1..], oracle)
  }

  /** A statement's text as the dispatcher sees it: with the user variables
      expanded when the application handles settings. */
  function Substituted(settings: Option<AppSettings>, text: string): (r: Result<string>)
    ensures settings.None? ==> r == Ok(text)
  {
    match settings
    case None => Ok(text)
    case Some(s) => Expand(ToMap(s.variables), text)
  }

  /** One pass of the `while (commandSeparator.MoveNext())` body, on the
      separator that found a statement: an unknown statement is consumed, an
      incomplete one continued, any other run trimmed and consumed.
      `isComplete` is the command's `IsComplete`. */
  function Handle(sep: Separator, settings: Option<AppSettings>, d: Dispatcher,
                  isComplete: (Command, string) -> bool): (r: Result<(Separator, Outcome)>)
    ensures r.Ok? ==> r.value.0.current.input == sep.current.input && r.value.0.stack == sep.stack
    ensures r.Ok? ==> (r.value.1.Unfinished? <==> r.value.0.current.kind == Start)
    ensures r.Ok? && r.value.1.Ran? ==> var t := Substituted(settings, sep.current.command);
      t.Ok? && GetCommand(d, t.value).Some? && r.value.1.statement == Trim(t.value)
    ensures r.Ok? && r.value.1.Unknown? ==> var t := Substituted(settings, sep.current.command);
      t.Ok? && GetCommand(d, t.value).None?
  {
    match Substituted(settings, sep.current.command)
    case Throw(e) => Throw(e)
    case Ok(text) =>
      match GetCommand(d, text)
      case None => Ok((Consumed(sep), Unknown))
      case Some(c) =>
        if !isComplete(c, text) then Ok((Cont(sep), Unfinished))
        else Ok((Consumed(sep), Ran(Trim(text))))
  }

  /** The `while (commandSeparator.MoveNext())` loop of `ExecuteLine`: the
      result code is the one the statements' outcomes settle on, the loop
      ends with every queued character read, and the shell is the one the
      statements that ran leave, run one after another. Each statement is
      substituted and looked up with the settings and the dispatcher the
      statements before it left. */
  function Statements(parse: Parser, post: PostParser, sep: Separator, sh: Execution.Shell, context: Execution.Context,
                      oracle: Execution.Oracle, isComplete: (Command, string) -> bool,
                      result: LineResult, fuel: nat): (r: Option<Result<LineRun>>)
    ensures r.Some? && r.value.Ok? ==> var run := r.value.value;
      && run.result == Settle(result, run.outcomes)
      && run.sep.current.input == ""
      && run.sep.stack == sep.stack
      && run.shell == ExecuteAll(sh, context, RunStatements(run.outcomes), oracle)
    decreases |sep.current.input|
  {
    match MoveNext(parse, post, sep, fuel)
    case None => None
    case Some(Throw(e)) => Some(Throw(e))
    case Some(Ok(m)) =>
      if !m.found then Some(Ok(LineRun(m.sep, result, [], sh)))
      else
        match Handle(m.sep, sh.settings, sh.disp, isComplete)
        case Throw(e) => Some(Throw(e))
        case Ok(next) =>
          var sh1 := if next.1.Ran? then Execution.ExecuteCommand(sh, context, next.1.statement, oracle) else sh;
          match Statements(parse, post, next.0, sh1, context, oracle, isComplete, After(result, next.1), fuel)
          case None => None
          case Some(Throw(e)) => Some(Throw(e))
          case Some(Ok(run)) =>
            SettleCons(result, next.1, run.outcomes);
            ExecuteCons(sh, context, next.1, run.outcomes, oracle);
            Some(Ok(run.(outcomes := [next.1] + run.outcomes)))
  }

  lemma SettleCons(result: LineResult, o: Outcome, os: seq<Outcome>)
    ensures Settle(result, [o] + os) == Settle(After(result, o), os)
  {
    assert ([o] + os)[1..] == os;
  }

  /** Running the statements of `[o] + os` is running `o`'s statement, if
      it ran, and then those of `os`. */
  lemma ExecuteCons(sh: Execution.Shell, context: Execution.Context, o: Outcome, os: seq<Outcome>, oracle: Execution.Oracle)
    ensures ExecuteAll(sh, context, RunStatements([o] + os), oracle)
      == ExecuteAll(if o.Ran? then Execution.ExecuteCommand(sh, context, o.statement, oracle) else sh, context, RunStatements(os), oracle)
  {
    assert ([o] + os)[1..] == os;
    if o.Ran? {
      var ss := RunStatements([o] + os);
      assert ss == [o.statement] + RunStatements(os);
      assert ss[1..] == RunStatements(os);
    } else {
      assert RunStatements([o] + os) == RunStatements(os);
    }
  }

  /** `ExecuteLine`. Without a separator the whole line is run as it is and
      the result is Executed. With one, the line and a line end are queued,
      the result starts as Incomplete, it is what the statements found
      settle on, and the statements that ran are executed in order. */
  function ExecuteLine(separator: Option<Separator>, parse: Parser, post: PostParser, sh: Execution.Shell,
                       context: Execution.Context, oracle: Execution.Oracle, isComplete: (Command, string) -> bool,
                       line: string, newline: string, fuel: nat): (r: Option<Result<(Option<Separator>, LineResult, seq<string>, Execution.Shell)>>)
    ensures separator.None? ==> r == Some(Ok((None, Executed, [line], Execution.ExecuteCommand(sh, context, line, oracle))))
    ensures separator.Some? && r.Some? && r.value.Ok? ==>
      && r.value.value.0.Some? && r.value.value.0.value.current.input == ""
      && r.value.value.3 == ExecuteAll(sh, context, r.value.value.2, oracle)
  {
    match separator
    case None => Some(Ok((None, Executed, [line], Execution.ExecuteCommand(sh, context, line, oracle))))
    case Some(sep) =>
      match Statements(parse, post, Append(sep, line + newline), sh, context, oracle, isComplete, Incomplete, fuel)
      case None => None
      case Some(Throw(e)) => Some(Throw(e))
      case Some(Ok(run)) => Some(Ok((Some(run.sep), run.result, RunStatements(run.outcomes), run.shell)))
  }

  /** When the queued input ends no statement, the line is Incomplete and
      nothing runs. */
  lemma NothingEnds(parse: Parser, post: PostParser, sep: Separator, sh: Execution.Shell, context: Execution.Context,
                    oracle: Execution.Oracle, isComplete: (Command, string) -> bool, line: string, newline: string, fuel: nat)
    requires var r := MoveNext(parse, post, Append(sep, line + newline), fuel);
      r.Some? && r.value.Ok? && !r.value.value.found
    ensures var r := ExecuteLine(Some(sep), parse, post, sh, context, oracle, isComplete, line, newline, fuel);
      r.Some? && r.value.Ok? && r.value.value.1 == Incomplete && r.value.value.2 == [] && r.value.value.3 == sh
  {
  }

  /** Some statement ran and none after it was left unfinished. */
  predicate RanSinceUnfinished(os: seq<Outcome>) {
    exists i :: 0 <= i < |os| && os[i].Ran? && forall j :: i < j < |os| ==> !os[j].Unfinished?
  }

  /** No statement was left unfinished. */
  predicate NoneUnfinished(os: seq<Outcome>) {
    forall j :: 0 <= j < |os| ==> !os[j].Unfinished?
  }

  lemma RanSinceUnfinishedCons(os: seq<Outcome>)
    requires |os| > 0
    ensures RanSinceUnfinished(os) <==>
      RanSinceUnfinished(os[1..]) || (os[0].Ran? && NoneUnfinished(os[1..]))
    ensures NoneUnfinished(os) <==> !os[0].Unfinished? && NoneUnfinished(os[1..])
  {
    var t := os[1..];
    if RanSinceUnfinished(os) {
      var i :| 0 <= i < |os| && os[i].Ran? && forall j :: i < j < |os| ==> !os[j].Unfinished?;
      if i == 0 {
        forall j | 0 <= j < |t| ensures !t[j].Unfinished? { assert t[j] == os[j + 1]; }
      } else {
        assert t[i - 1] == os[i];
        forall j | i - 1 < j < |t| ensures !t[j].Unfinished? { assert t[j] == os[j + 1]; }
      }
    }
    if RanSinceUnfinished(t) {
      var i :| 0 <= i < |t| && t[i].Ran? && forall j :: i < j < |t| ==> !t[j].Unfinished?;
      assert os[i + 1] == t[i];
      forall j | i + 1 < j < |os| ensures !os[j].Unfinished? { assert os[j] == t[j - 1]; }
    }
    if os[0].Ran? && NoneUnfinished(t) {
      forall j | 0 < j < |os| ensures !os[j].Unfinished? { assert os[j] == t[j - 1]; }
    }
    if NoneUnfinished(os) {
      forall j | 0 <= j < |t| ensures !t[j].Unfinished? { assert t[j] == os[j + 1]; }
    }
    if !os[0].Unfinished? && NoneUnfinished(t) {
      forall j | 0 < j < |os| ensures !os[j].Unfinished? { assert os[j] == t[j - 1]; }
    }
  }

  /** A line's result is Executed exactly when some statement ran and no
      statement after it was left unfinished, or the line started out
      Executed and no statement was left unfinished. */
  lemma {:induction false} SettleExecuted(result: LineResult, os: seq<Outcome>)
    ensures Settle(result, os) == Executed <==>
      RanSinceUnfinished(os) || (result == Executed && NoneUnfinished(os))
    decreases |os|
  {
    if |os| > 0 {
      SettleExecuted(After(result, os[0]), os[1..]);
      RanSinceUnfinishedCons(os);
    }
  }

  /** A line's result is Incomplete exactly when its last statement was
      left unfinished, or it found none and started out Incomplete. */
  lemma {:induction false} SettleIncomplete(result: LineResult, os: seq<Outcome>)
    ensures Settle(result, os) == Incomplete <==>
      (os == [] && result == Incomplete) || (os != [] && os[|os| - 1].Unfinished?)
    decreases |os|
  {
    if |os| > 0 {
      SettleIncomplete(After(result, os[0]), os[1..]);
      if |os| > 1 {
        assert os[1..][|os[1..]| - 1] == os[|os| - 1];
      }
    }
  }

  /** So running a line says Empty exactly when it found a statement, the
      last one was no command, and none was run since the last unfinished
      one: a line whose first statement ran and whose line end then reads
      as an empty statement still says Executed. */
  lemma LineEmpty(os: seq<Outcome>)
    ensures Settle(Incomplete, os) == Empty <==>
      os != [] && !os[|os| - 1].Unfinished? && !RanSinceUnfinished(os)
  {
    SettleExecuted(Incomplete, os);
    SettleIncomplete(Incomplete, os);
  }

  /** The statements a line runs are those whose outcome was Ran. */
  lemma {:induction false} RunStatementsRan(os: seq<Outcome>, s: string)
    ensures s in RunStatements(os) <==> Ran(s) in os
    decreases |os|
  {
    if |os| > 0 {
      RunStatementsRan(os[1..], s);
      assert os == [os[0]] + os[1..];
    }
  }
}
