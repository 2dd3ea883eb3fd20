/** `CommandSeparator`: the resumable driver that cuts queued input into
  statements, one character at a time.

  The statement grammar belongs to a subclass: its `Parse` (and the optional
  `PostParse`) are parameters here. `Parse` may ask to see the same character
  again under its new state; a grammar that always asks makes the source loop
  for ever, so the re-feed loop takes a `fuel` bound and `None` stands for
  that divergence.
 */
module Separator {
  import opened Wrappers
  import opened Strings

  /** The states the driver itself knows (`TokenType`); a grammar may use
      any other number for its own states. */
  const NewStatement := 0
  const Start := 1
  const PotentialEndFound := -1

  /** `ParseState`: the state number, the queued input, the statement read
      so far, and whether the last boundary seen was a newline. */
  datatype ParseState = ParseState(kind: int, input: string, command: string, newlineSeen: bool)

  /** A fresh `ParseState`: a new statement, at the start of a line. */
  const Initial := ParseState(NewStatement, "", "", true)

  /** What a `ParseToken` holds once `Parse` has returned: the next state
      and the fields the grammar chose to set (`None` where it left a
      property alone, '\0' for no appended character). */
  datatype Token = Token(newState: int, newLineSeen: Option<bool>, appended: char, continueParsing: Option<bool>)

  /** `Parse`, applied to a token's old state, character and newline flag. */
  type Parser = (int, char, bool) -> Token

  /** The character `PostParse` appends to the statement, '\0' for none. */
  type PostParser = (int, char, bool) -> char

  /** The base class's `PostParse`, which does nothing. */
  const NoPostParse: PostParser := (s: int, c: char, eol: bool) => '\0'

  /** A separator: the current parse state and the states `Push` saved. */
  datatype Separator = Separator(current: ParseState, stack: seq<ParseState>)

  const Fresh := Separator(Initial, [])

  /** The text one `AppendedCharacter` adds to the statement. */
  function Appended(c: char): (r: string)
    ensures '\0' !in r
    ensures c != '\0' ==> r == [c]
  {
    if c == '\0' then "" else [c]
  }

  /** '\r' is read as '\n'. */
  function Canonical(c: char): char {
    if c == '\r' then '\n' else c
  }

  // ---------------------------------------------------------------------
  // One character: the re-feed loop

  /** The outcome of feeding one character: the final state, the newline
      flag and the characters the tokens appended. */
  datatype Fed = Fed(state: int, eol: bool, appended: string)

  /** The `do … while (reIterate)` loop: a fresh token per round, carrying
      the state and newline flag the previous round left. */
  function Feed(parse: Parser, state: int, c: char, eol: bool, fuel: nat): (r: Option<Fed>)
    ensures r.Some? ==> '\0' !in r.value.appended
    ensures parse(state, c, eol).continueParsing != Some(true) ==> r.Some?
    decreases fuel
  {
    var t := parse(state, c, eol);
    var eol1 := if t.newLineSeen.Some? then t.newLineSeen.value else eol;
    if t.continueParsing == Some(true) then
      if fuel == 0 then None
      else match Feed(parse, t.newState, c, eol1, fuel - 1)
        case None => None
        case Some(f) => Some(f.(appended := Appended(t.appended) + f.appended))
    else Some(Fed(t.newState, eol1, Appended(t.appended)))
  }

  /** More fuel never changes a result that was reached: the bound only
      cuts off divergence. */
  lemma {:induction false} FeedFuel(parse: Parser, state: int, c: char, eol: bool, fuel: nat, more: nat)
    requires fuel <= more
    requires Feed(parse, state, c, eol, fuel).Some?
    ensures Feed(parse, state, c, eol, more) == Feed(parse, state, c, eol, fuel)
    decreases fuel
  {
    var t := parse(state, c, eol);
    var eol1 := if t.newLineSeen.Some? then t.newLineSeen.value else eol;
    if t.continueParsing == Some(true) {
      FeedFuel(parse, t.newState, c, eol1, fuel - 1, more - 1);
    }
  }

  // ---------------------------------------------------------------------
  // The driver

  /** Where the character loop of `ParsePartialInput` leaves off: the
      state, the unread input, the statement and the stored newline flag. */
  datatype Driven = Driven(state: int, rest: string, command: string, newlineSeen: bool)

  /** Some character among the first `n` of `s` reads as a newline. */
  predicate NewlineAmong(s: string, n: nat)
    requires n <= |s|
  {
    exists i :: 0 <= i < n && Canonical(s[i]) == '\n'
  }

  /** The character loop: feed, post-parse, append, advance; it stops once
      the state is `PotentialEndFound` or the input runs out. `oldState` is
      the state the previous character left (-1 for the first), which is
      what `PostParse` sees. */
  function Drive(parse: Parser, post: PostParser, state: int, oldState: int, eol: bool, stored: bool,
                 rest: string, command: string, fuel: nat): (r: Option<Driven>)
    ensures r.Some? ==> |r.value.rest| <= |rest| && command <= r.value.command
    ensures r.Some? ==> r.value.state == PotentialEndFound || r.value.rest == ""
    ensures r.Some? && state != PotentialEndFound && rest != "" ==> |r.value.rest| < |rest|
    ensures state == PotentialEndFound ==> r == Some(Driven(state, rest, command, stored))
    decreases |rest|
  {
    if state == PotentialEndFound || |rest| == 0 then Some(Driven(state, rest, command, stored))
    else
      var c := Canonical(rest[0]);
      match Feed(parse, state, c, eol, fuel)
      case None => None
      case Some(f) =>
        var command1 := command + f.appended + Appended(post(oldState, c, f.eol));
        Drive(parse, post, f.state, f.state, f.eol && IsWhiteSpace(c), stored || c == '\n', rest[1..], command1, fuel)
  }

  /** `t` is what is left of `s` once some of its first characters are
      taken away. */
  predicate SuffixOf(t: string, s: string) {
    |t| <= |s| && t == s[|s| - |t|..]
  }

  lemma SuffixOfSuffix(a: string, b: string, c: string)
    requires SuffixOf(b, a) && SuffixOf(c, b)
    ensures SuffixOf(c, a)
  {
  }

  lemma SuffixOfTail(s: string, t: string)
    requires |s| > 0 && SuffixOf(t, s[1..])
    ensures SuffixOf(t, s)
  {
    assert s[1..][|s| - 1 - |t|..] == s[|s| - |t|..];
  }

  /** The input the driver leaves unread is what followed the characters
      it read, in order. */
  lemma {:induction false} DriveRest(parse: Parser, post: PostParser, state: int, oldState: int, eol: bool,
                                     stored: bool, rest: string, command: string, fuel: nat)
    requires Drive(parse, post, state, oldState, eol, stored, rest, command, fuel).Some?
    ensures SuffixOf(Drive(parse, post, state, oldState, eol, stored, rest, command, fuel).value.rest, rest)
    decreases |rest|
  {
    var d := Drive(parse, post, state, oldState, eol, stored, rest, command, fuel).value;
    if state != PotentialEndFound && |rest| > 0 {
      var c := Canonical(rest[0]);
      var f := Feed(parse, state, c, eol, fuel).value;
      var command1 := command + f.appended + Appended(post(oldState, c, f.eol));
      DriveUnfold(parse, post, state, oldState, eol, stored, rest, command, fuel);
      var e := f.eol && IsWhiteSpace(c);
      var stored1 := stored || c == '\n';
      assert d == Drive(parse, post, f.state, f.state, e, stored1, rest[1..], command1, fuel).value;
      DriveRest(parse, post, f.state, f.state, e, stored1, rest[1..], command1, fuel);
      SuffixOfTail(rest, d.rest);
    }
  }

  /** One round of the driver, once the character has been fed. */
  lemma DriveUnfold(parse: Parser, post: PostParser, state: int, oldState: int, eol: bool, stored: bool,
                    rest: string, command: string, fuel: nat)
    requires state != PotentialEndFound && |rest| > 0
    requires Feed(parse, state, Canonical(rest[0]), eol, fuel).Some?
    ensures var c := Canonical(rest[0]);
      var f := Feed(parse, state, c, eol, fuel).value;
      Drive(parse, post, state, oldState, eol, stored, rest, command, fuel) ==
      Drive(parse, post, f.state, f.state, f.eol && IsWhiteSpace(c), stored || c == '\n', rest[1..],
            command + f.appended + Appended(post(oldState, c, f.eol)), fuel)
  {
  }

  /** The stored newline flag the driver leaves is set exactly when it was
      set before or a character it read was a newline. */
  lemma {:induction false} DriveNewline(parse: Parser, post: PostParser, state: int, oldState: int, eol: bool,
                                        stored: bool, rest: string, command: string, fuel: nat)
    requires Drive(parse, post, state, oldState, eol, stored, rest, command, fuel).Some?
    ensures var d := Drive(parse, post, state, oldState, eol, stored, rest, command, fuel).value;
      d.newlineSeen <==> stored || NewlineAmong(rest, |rest| - |d.rest|)
    decreases |rest|
  {
    var d := Drive(parse, post, state, oldState, eol, stored, rest, command, fuel).value;
    if state != PotentialEndFound && |rest| > 0 {
      var c := Canonical(rest[0]);
      var f := Feed(parse, state, c, eol, fuel).value;
      var command1 := command + f.appended + Appended(post(oldState, c, f.eol));
      DriveUnfold(parse, post, state, oldState, eol, stored, rest, command, fuel);
      var e := f.eol && IsWhiteSpace(c);
      var stored1 := stored || c == '\n';
      assert d == Drive(parse, post, f.state, f.state, e, stored1, rest[1..], command1, fuel).value;
      DriveNewline(parse, post, f.state, f.state, e, stored1, rest[1..], command1, fuel);
      NewlineStep(rest, |rest| - |d.rest|);
    }
  }

  /** A newline among the first `n` characters: the first one, or one
      among the next `n - 1`. */
  lemma NewlineStep(s: string, n: nat)
    requires 1 <= n <= |s|
    ensures NewlineAmong(s, n) <==> Canonical(s[0]) == '\n' || NewlineAmong(s[1..], n - 1)
  {
    if NewlineAmong(s, n) {
      var i :| 0 <= i < n && Canonical(s[i]) == '\n';
      if i > 0 {
        assert s[1..][i - 1] == s[i];
      }
    }
    if NewlineAmong(s[1..], n - 1) {
      var i :| 0 <= i < n - 1 && Canonical(s[1..][i]) == '\n';
      assert s[i + 1] == s[1..][i];
    }
  }

  /** Where the driver starts: at a new statement the statement buffer is
      cleared and leading white space dropped, the stored newline flag
      taking the value of the last character dropped. */
  datatype Begun = Begun(input: string, command: string, stored: bool)

  function Begin(s: ParseState): (b: Begun)
    ensures |b.input| <= |s.input|
  {
    if s.kind == NewStatement then
      var t := TrimStart(s.input);
      var k := |s.input| - |t|;
      Begun(t, "", if k > 0 then s.input[k - 1] == '\n' else s.newlineSeen)
    else Begun(s.input, s.command, s.newlineSeen)
  }

  /** `ParsePartialInput`: begin, then drive the characters; an empty input
      after the white space is an (empty) statement end at once. The driver
      reads the newline flag as it was before any white space was dropped. */
  function ParsePartialInput(parse: Parser, post: PostParser, s: ParseState, fuel: nat): (r: Option<ParseState>)
    ensures r.Some? ==> |r.value.input| <= |s.input|
    ensures r.Some? ==> r.value.kind == PotentialEndFound || r.value.input == ""
    ensures r.Some? && s.kind != PotentialEndFound && s.input != "" ==> |r.value.input| < |s.input|
  {
    var b := Begin(s);
    var state := if |b.input| == 0 then PotentialEndFound else s.kind;
    match Drive(parse, post, state, -1, s.newlineSeen, b.stored, b.input, b.command, fuel)
    case None => None
    case Some(d) => Some(ParseState(d.state, d.rest, d.command, d.newlineSeen))
  }

  /** What `ParsePartialInput` leaves queued is the tail of what was
      queued: the characters it did not read, in order. */
  lemma ParseRest(parse: Parser, post: PostParser, s: ParseState, fuel: nat)
    requires ParsePartialInput(parse, post, s, fuel).Some?
    ensures SuffixOf(ParsePartialInput(parse, post, s, fuel).value.input, s.input)
  {
    var b := Begin(s);
    var state := if |b.input| == 0 then PotentialEndFound else s.kind;
    var d := Drive(parse, post, state, -1, s.newlineSeen, b.stored, b.input, b.command, fuel);
    assert ParsePartialInput(parse, post, s, fuel) == Some(ParseState(d.value.state, d.value.rest, d.value.command, d.value.newlineSeen));
    DriveRest(parse, post, state, -1, s.newlineSeen, b.stored, b.input, b.command, fuel);
    BeginDrops(s);
    SuffixOfSuffix(s.input, b.input, d.value.rest);
  }

  /** At a new statement the driver starts on the input without its
      leading white space and with an empty statement; otherwise on the
      state as it is. */
  lemma BeginDrops(s: ParseState)
    ensures var b := Begin(s);
      && SuffixOf(b.input, s.input)
      && (s.kind == NewStatement ==>
        && b.command == ""
        && AllWhiteSpace(s.input[..|s.input| - |b.input|])
        && (|b.input| > 0 ==> !IsWhiteSpace(b.input[0])))
      && (s.kind != NewStatement ==> b == Begun(s.input, s.command, s.newlineSeen))
  {
  }


  // ---------------------------------------------------------------------
  // The public surface

  const CurrentMessage := "Current called without MoveNext()"
  const MoveNextMessage := "call Cont() or Consumed() before MoveNext()"

  /** `Current`: the statement, readable only at a statement end. */
  function Current(sep: Separator): (r: Result<string>)
    ensures r.Ok? <==> sep.current.kind == PotentialEndFound
    ensures r.Throw? ==> r.error == InvalidOperation(CurrentMessage)
  {
    if sep.current.kind != PotentialEndFound then Throw(InvalidOperation(CurrentMessage))
    else Ok(sep.current.command)
  }

  /** What `MoveNext` leaves: the separator and whether a statement ended. */
  datatype Moved = Moved(sep: Separator, found: bool)

  /** `MoveNext`: refused at a statement end; with nothing queued it is
      false and changes nothing; otherwise it drives the input and reports
      whether a statement ended. */
  function MoveNext(parse: Parser, post: PostParser, sep: Separator, fuel: nat): (r: Option<Result<Moved>>)
    ensures sep.current.kind == PotentialEndFound ==> r == Some(Throw(InvalidOperation(MoveNextMessage)))
    ensures sep.current.kind != PotentialEndFound && sep.current.input == "" ==> r == Some(Ok(Moved(sep, false)))
    ensures r.Some? && r.value.Ok? ==> var m := r.value.value;
      && m.sep.stack == sep.stack
      && (m.found <==> m.sep.current.kind == PotentialEndFound)
      && (m.found || m.sep.current.input == "")
      && (m.found ==> |m.sep.current.input| < |sep.current.input|)
  {
    if sep.current.kind == PotentialEndFound then Some(Throw(InvalidOperation(MoveNextMessage)))
    else if |sep.current.input| == 0 then Some(Ok(Moved(sep, false)))
    else match ParsePartialInput(parse, post, sep.current, fuel)
      case None => None
      case Some(s) => Some(Ok(Moved(sep.(current := s), s.kind == PotentialEndFound)))
  }

  /** `MoveNext` leaves queued exactly the characters it did not read. */
  lemma MoveNextRest(parse: Parser, post: PostParser, sep: Separator, fuel: nat)
    requires var r := MoveNext(parse, post, sep, fuel); r.Some? && r.value.Ok?
    ensures SuffixOf(MoveNext(parse, post, sep, fuel).value.value.sep.current.input, sep.current.input)
  {
    if sep.current.input != "" {
      ParseRest(parse, post, sep.current, fuel);
    }
  }

  /** `Append`: queue more input and nothing else. */
  function Append(sep: Separator, text: string): (r: Separator)
    ensures r.current.input == sep.current.input + text
    ensures r.current.(input := sep.current.input) == sep.current && r.stack == sep.stack
  {
    sep.(current := sep.current.(input := sep.current.input + text))
  }

  /** `Discard`: drop the queued input and the statement read so far. */
  function Discard(sep: Separator): (r: Separator)
    ensures r.current.kind == NewStatement && r.current.input == "" && r.current.command == ""
    ensures r.current.newlineSeen == sep.current.newlineSeen && r.stack == sep.stack
  {
    sep.(current := sep.current.(kind := NewStatement, input := "", command := ""))
  }

  /** `Cont`: the statement goes on; its text so far is kept. */
  function Cont(sep: Separator): (r: Separator)
    ensures r.current == sep.current.(kind := Start) && r.stack == sep.stack
  {
    sep.(current := sep.current.(kind := Start))
  }

  /** `Consumed`: the statement was taken; the next one starts afresh. */
  function Consumed(sep: Separator): (r: Separator)
    ensures r.current == sep.current.(kind := NewStatement) && r.stack == sep.stack
  {
    sep.(current := sep.current.(kind := NewStatement))
  }

  /** `Push`: save the whole state and start a fresh one. */
  function Push(sep: Separator): (r: Separator)
    ensures r.current == Initial && |r.stack| == |sep.stack| + 1
  {
    Separator(Initial, [sep.current] + sep.stack)
  }

  /** The message of `Stack.Pop` on an empty stack. */
  const EmptyStackMessage := "Stack empty."

  /** `Pop`: restore the last saved state; an empty stack throws. */
  function Pop(sep: Separator): (r: Result<Separator>)
    ensures r.Throw? <==> sep.stack == []
    ensures r.Throw? ==> r.error == InvalidOperation(EmptyStackMessage)
    ensures r.Ok? ==> |r.value.stack| + 1 == |sep.stack|
  {
    if |sep.stack| == 0 then Throw(InvalidOperation(EmptyStackMessage))
    else Ok(Separator(sep.stack[0], sep.stack[1..]))
  }

  // ---------------------------------------------------------------------
  // Properties

  /** `Pop` undoes `Push`: the saved state comes back whole. */
  lemma PushPop(sep: Separator)
    ensures Pop(Push(sep)) == Ok(sep)
  {
    assert ([sep.current] + sep.stack)[1..] == sep.stack;
  }

  /** Appending in two steps queues the same input as appending once. */
  lemma AppendAppend(sep: Separator, a: string, b: string)
    ensures Append(Append(sep, a), b) == Append(sep, a + b)
  {
    assert sep.current.input + a + b == sep.current.input + (a + b);
  }

  /** After a statement end, `Current` returns the statement, and `Cont`
      or `Consumed` make `MoveNext` legal again. */
  lemma StatementEnd(parse: Parser, post: PostParser, sep: Separator, fuel: nat)
    requires var r := MoveNext(parse, post, sep, fuel); r.Some? && r.value.Ok? && r.value.value.found
    ensures var s := MoveNext(parse, post, sep, fuel).value.value.sep;
      && Current(s) == Ok(s.current.command)
      && MoveNext(parse, post, Cont(s), fuel) != Some(Throw(InvalidOperation(MoveNextMessage)))
      && MoveNext(parse, post, Consumed(s), fuel) != Some(Throw(InvalidOperation(MoveNextMessage)))
  {
  }

  /** Queued input that is all white space, at a new statement, ends an
      empty statement and is used up. */
  lemma BlankInput(parse: Parser, post: PostParser, sep: Separator, fuel: nat)
    requires sep.current.kind == NewStatement && sep.current.input != ""
    requires AllWhiteSpace(sep.current.input)
    ensures var r := MoveNext(parse, post, sep, fuel);
      && r.Some? && r.value.Ok? && r.value.value.found
      && r.value.value.sep.current.command == "" && r.value.value.sep.current.input == ""
  {
    TrimBlank(sep.current.input);
  }

  lemma {:induction false} TrimBlank(s: string)
    requires AllWhiteSpace(s)
    ensures TrimStart(s) == ""
    decreases |s|
  {
    if |s| > 0 {
      TrimBlank(s[1..]);
    }
  }

  // ---------------------------------------------------------------------
  // A reference grammar

  /** A grammar that keeps every character and ends a statement right after
      each ';'. */
  const UntilSemicolon: Parser := (s: int, c: char, eol: bool) =>
    if c == ';' then Token(PotentialEndFound, None, c, None) else Token(Start, None, c, None)

  /** Text the driver reads character for character: no '\r' to turn into
      a newline and no '\0', which a token cannot append. */
  predicate Clean(s: string) {
    forall i :: 0 <= i < |s| ==> s[i] != '\r' && s[i] != '\0'
  }

  /** One character under `UntilSemicolon`: it is appended, and a ';' ends
      the statement. */
  lemma DriveStep(state: int, oldState: int, eol: bool, stored: bool, rest: string, command: string, fuel: nat)
    requires state != PotentialEndFound && |rest| > 0 && Clean(rest)
    ensures Clean(rest[1..])
    ensures var c := rest[0];
      Drive(UntilSemicolon, NoPostParse, state, oldState, eol, stored, rest, command, fuel) ==
      if c == ';' then Some(Driven(PotentialEndFound, rest[1..], command + [c], stored || c == '\n'))
      else Drive(UntilSemicolon, NoPostParse, Start, Start, eol && IsWhiteSpace(c), stored || c == '\n', rest[1..], command + [c], fuel)
  {
    var c := rest[0];
    assert c != '\r' && c != '\0';
    assert Canonical(c) == c;
    assert Feed(UntilSemicolon, state, c, eol, fuel) == Some(Fed(if c == ';' then PotentialEndFound else Start, eol, [c]));
    var next := if c == ';' then PotentialEndFound else Start;
    assert NoPostParse(next, c, eol) == '\0';
    assert command + [c] + Appended(NoPostParse(oldState, c, eol)) == command + [c];
    assert Drive(UntilSemicolon, NoPostParse, state, oldState, eol, stored, rest, command, fuel) ==
      Drive(UntilSemicolon, NoPostParse, next, next, eol && IsWhiteSpace(c), stored || c == '\n', rest[1..], command + [c], fuel);
    forall j | 0 <= j < |rest[1..]| ensures rest[1..][j] != '\r' && rest[1..][j] != '\0' {
      assert rest[1..][j] == rest[j + 1];
    }
  }

  /** Under `UntilSemicolon` the driver reads exactly through the first ';'
      and ends the statement there, leaving the rest queued. */
  lemma {:induction false} DriveThroughSemicolon(state: int, oldState: int, eol: bool, stored: bool,
                                                 rest: string, command: string, fuel: nat, i: nat)
    requires state != PotentialEndFound && Clean(rest)
    requires IndexOf(rest, ';', 0) == Some(i)
    ensures var r := Drive(UntilSemicolon, NoPostParse, state, oldState, eol, stored, rest, command, fuel);
      && r.Some? && r.value.state == PotentialEndFound
      && r.value.rest == rest[i + 1..] && r.value.command == command + rest[..i + 1]
    decreases |rest|
  {
    var c := rest[0];
    DriveStep(state, oldState, eol, stored, rest, command, fuel);
    if c == ';' {
      Glue(command, rest, 0);
    } else {
      IndexOfTail(rest, ';');
      DriveThroughSemicolon(Start, Start, eol && IsWhiteSpace(c), stored || c == '\n', rest[1..], command + [c], fuel, i - 1);
      Glue(command, rest, i);
    }
  }

  /** Without a ';' the driver reads everything under `UntilSemicolon` and
      stays inside the statement. */
  lemma {:induction false} DriveNoSemicolon(state: int, oldState: int, eol: bool, stored: bool,
                                            rest: string, command: string, fuel: nat)
    requires state != PotentialEndFound && Clean(rest) && |rest| > 0
    requires IndexOf(rest, ';', 0) == None
    ensures var r := Drive(UntilSemicolon, NoPostParse, state, oldState, eol, stored, rest, command, fuel);
      && r.Some? && r.value.state == Start
      && r.value.rest == "" && r.value.command == command + rest
    decreases |rest|
  {
    var c := rest[0];
    DriveStep(state, oldState, eol, stored, rest, command, fuel);
    IndexOfTail(rest, ';');
    assert c != ';';
    if |rest| > 1 {
      DriveNoSemicolon(Start, Start, eol && IsWhiteSpace(c), stored || c == '\n', rest[1..], command + [c], fuel);
    }
    Glue(command, rest, |rest| - 1);
  }

  /** The first character, then `n` more, of `rest`, appended to `command`. */
  lemma Glue(command: string, rest: string, n: nat)
    requires n < |rest|
    ensures command + [rest[0]] + rest[1..][..n] == command + rest[..n + 1]
    ensures rest[1..][n..] == rest[n + 1..]
    ensures n == |rest| - 1 ==> command + [rest[0]] + rest[1..] == command + rest
  {
    assert [rest[0]] + rest[1..][..n] == rest[..n + 1];
    assert [rest[0]] + rest[1..] == rest;
  }

  /** The first `x` in `s` when `s` does not start with one: one past the
      first in its tail. */
  lemma IndexOfTail(s: string, x: char)
    requires |s| > 0 && s[0] != x
    ensures IndexOf(s, x, 0) == match IndexOf(s[1..], x, 0) case Some(i) => Some(i + 1) case None => None
  {
    match IndexOf(s[1..], x, 0)
    case Some(i) =>
      assert s[i + 1] == s[1..][i];
      forall j | 0 <= j < i + 1 ensures s[j] != x {
        if j > 0 { assert s[j] == s[1..][j - 1]; }
      }
      IndexOfFirst(s, x, i + 1);
    case None =>
      forall j | 0 <= j < |s| ensures s[j] != x {
        if j > 0 { assert s[j] == s[1..][j - 1]; }
      }
      IndexOfAbsent(s, x);
  }

  lemma IndexOfFirst(s: string, x: char, i: nat)
    requires i < |s| && s[i] == x && forall j :: 0 <= j < i ==> s[j] != x
    ensures IndexOf(s, x, 0) == Some(i)
  {
  }

  lemma IndexOfAbsent(s: string, x: char)
    requires forall j :: 0 <= j < |s| ==> s[j] != x
    ensures IndexOf(s, x, 0) == None
  {
  }

  /** At a new statement whose input starts with a visible character,
      `MoveNext` drives all of the input from an empty statement. */
  lemma MoveNextVisible(parse: Parser, post: PostParser, sep: Separator, fuel: nat)
    requires sep.current.kind == NewStatement
    requires |sep.current.input| > 0 && !IsWhiteSpace(sep.current.input[0])
    ensures var e := sep.current.newlineSeen;
      var d := Drive(parse, post, NewStatement, -1, e, e, sep.current.input, "", fuel);
      MoveNext(parse, post, sep, fuel) ==
        if d.None? then None
        else Some(Ok(Moved(sep.(current := ParseState(d.value.state, d.value.rest, d.value.command, d.value.newlineSeen)),
                           d.value.state == PotentialEndFound)))
  {
    BeginVisible(sep.current);
  }

  lemma BeginVisible(s: ParseState)
    requires s.kind == NewStatement && |s.input| > 0 && !IsWhiteSpace(s.input[0])
    ensures Begin(s) == Begun(s.input, "", s.newlineSeen)
  {
    assert TrimStart(s.input) == s.input;
  }

  /** At a new statement whose input starts with a visible character and
      holds a ';', one `MoveNext` under `UntilSemicolon` yields the text
      through the first ';' as the statement and leaves the rest queued. */
  lemma SplitsAtSemicolon(sep: Separator, fuel: nat, i: nat) returns (m: Moved)
    requires sep.current.kind == NewStatement && Clean(sep.current.input)
    requires |sep.current.input| > 0 && !IsWhiteSpace(sep.current.input[0])
    requires IndexOf(sep.current.input, ';', 0) == Some(i)
    ensures MoveNext(UntilSemicolon, NoPostParse, sep, fuel) == Some(Ok(m))
    ensures m.found && m.sep.stack == sep.stack
    ensures m.sep.current.command == sep.current.input[..i + 1]
    ensures m.sep.current.input == sep.current.input[i + 1..]
  {
    var e := sep.current.newlineSeen;
    MoveNextVisible(UntilSemicolon, NoPostParse, sep, fuel);
    DriveThroughSemicolon(NewStatement, -1, e, e, sep.current.input, "", fuel, i);
    m := MoveNext(UntilSemicolon, NoPostParse, sep, fuel).value.value;
  }

  /** Without a ';', the same `MoveNext` reads all of the input into a
      statement that has not ended. */
  lemma UnfinishedWithoutSemicolon(sep: Separator, fuel: nat) returns (m: Moved)
    requires sep.current.kind == NewStatement && Clean(sep.current.input)
    requires |sep.current.input| > 0 && !IsWhiteSpace(sep.current.input[0])
    requires IndexOf(sep.current.input, ';', 0) == None
    ensures MoveNext(UntilSemicolon, NoPostParse, sep, fuel) == Some(Ok(m))
    ensures !m.found && m.sep.stack == sep.stack && m.sep.current.kind == Start
    ensures m.sep.current.command == sep.current.input && m.sep.current.input == ""
  {
    var e := sep.current.newlineSeen;
    MoveNextVisible(UntilSemicolon, NoPostParse, sep, fuel);
    DriveNoSemicolon(NewStatement, -1, e, e, sep.current.input, "", fuel);
    m := MoveNext(UntilSemicolon, NoPostParse, sep, fuel).value.value;
  }
}
