/** `CommandDispatcher`: the sorted name-to-command map, the commands in
  order of registration, the batch counter, the cached command list, and the
  alias entries it shares with `CommandAliases`.
 */
module Dispatching {
  import opened Wrappers
  import opened Ordinal
  import opened Strings
  import opened SortedMaps
  import opened Subsets
  import opened SortedMatch
  import opened Commands
  import opened Aliases

  datatype Dispatcher = Dispatcher(
    commandMap: SortedMap<Command>,
    commands: seq<Command>,
    cache: Option<seq<Command>>,
    batch: int,
    separator: char,
    aliases: AliasTable,
    app: nat,
    running: bool)

  /** A new dispatcher for application `app`, with an empty alias table
      whose dispatcher field is null. */
  function New(app: nat, separator: char): (d: Dispatcher)
    ensures d.commandMap == [] && d.commands == [] && d.cache.None? && d.batch == 0
    ensures d.aliases.table == [] && !d.aliases.dispatcherSet
  {
    Dispatcher([], [], None, 0, separator, EmptyTable, app, false)
  }

  // ---------------------------------------------------------------------
  // Batch counter

  function StartBatch(d: Dispatcher): (r: Dispatcher)
    ensures r == d.(batch := d.batch + 1)
  {
    d.(batch := d.batch + 1)
  }

  function EndBatch(d: Dispatcher): (r: Dispatcher)
    ensures r == d.(batch := d.batch - 1)
  {
    d.(batch := d.batch - 1)
  }

  predicate IsInBatch(d: Dispatcher) {
    d.batch > 0
  }

  /** Nested batches: the dispatcher is in a batch until every `StartBatch`
      has been matched by an `EndBatch`. */
  lemma BatchNesting(d: Dispatcher, n: nat)
    requires d.batch == 0
    ensures IsInBatch(Batches(d, n)) <==> n > 0
    ensures EndBatches(Batches(d, n), n) == d
  {
    BatchesCount(d, n);
    EndBatchesCount(Batches(d, n), n);
  }

  function Batches(d: Dispatcher, n: nat): Dispatcher {
    if n == 0 then d else StartBatch(Batches(d, n - 1))
  }

  function EndBatches(d: Dispatcher, n: nat): Dispatcher {
    if n == 0 then d else EndBatch(EndBatches(d, n - 1))
  }

  lemma {:induction false} BatchesCount(d: Dispatcher, n: nat)
    ensures Batches(d, n) == d.(batch := d.batch + n)
  {
    if n > 0 { BatchesCount(d, n - 1); }
  }

  lemma {:induction false} EndBatchesCount(d: Dispatcher, n: nat)
    ensures EndBatches(d, n) == d.(batch := d.batch - n)
  {
    if n > 0 { EndBatchesCount(d, n - 1); }
  }

  // ---------------------------------------------------------------------
  // The registered-commands cache

  /** `RegisteredCommands`: built from the registration list on first use and
      returned from the cache ever after. */
  function RegisteredCommands(d: Dispatcher): (r: (seq<Command>, Dispatcher))
    ensures d.cache.None? ==> r.0 == d.commands
    ensures d.cache.Some? ==> r.0 == d.cache.value
    ensures r.1 == d.(cache := Some(r.0))
  {
    var list := if d.cache.Some? then d.cache.value else d.commands;
    (list, d.(cache := Some(list)))
  }

  // ---------------------------------------------------------------------
  // Lookups

  /** `ContainsCommand`. */
  predicate ContainsCommand(d: Dispatcher, name: string) {
    name in ToMap(d.commandMap)
  }

  /** `GetRegisteredCommandNames(key)`: the names at or after `key`, in order. */
  function GetRegisteredCommandNames(d: Dispatcher, key: string): (r: seq<string>)
    ensures Ascending(r)
    ensures forall x :: x in r <==> ContainsCommand(d, x) && LessEq(key, x)
  {
    TailKeys(d.commandMap, key);
    KeysAscending(Tail(d.commandMap, key));
    Keys(Tail(d.commandMap, key))
  }

  lemma TailKeys<V>(m: SortedMap<V>, key: string)
    ensures forall x :: x in Keys(Tail(m, key)) <==> x in ToMap(m) && LessEq(key, x)
  {
    KeysKeySet(Tail(m, key));
    RangeKeys(m, Some(key), None);
    ToMapKeys(m);
    forall x ensures InRange(x, Some(key), None) <==> LessEq(key, x) {
      InRangeOrder(x, Some(key), None);
    }
  }

  /** The characters the fallback splits the command text on. */
  const NameDelimiters: set<char> := {' ', ';', '\t', '\n', '\r', '\U{000C}'}

  /** The scan of `CompleteCommandName` over the names at or after the start
      character: a name the command starts with becomes the match, and the
      first other name not carrying the start character ends the scan. */
  function Scan(cmd: string, start: string, names: seq<string>): Option<string>
    decreases |names|
  {
    if |names| == 0 then None
    else if names[0] <= cmd then
      match Scan(cmd, start, names[1..])
      case None => Some(names[0])
      case Some(x) => Some(x)
    else if !(start <= names[0]) then None
    else Scan(cmd, start, names[1..])
  }

  /** A name sorting at or after a non-empty string is non-empty. */
  lemma NonEmptyAfter(start: string, x: string)
    requires |start| > 0 && LessEq(start, x)
    ensures |x| > 0
  {
  }

  /** Over sorted names at or after the command's first character, the scan
      finds the longest name the command starts with, and finds none only when
      there is none. */
  lemma {:induction false} ScanLongest(cmd: string, start: string, names: seq<string>)
    requires |cmd| > 0 && start == cmd[..1]
    requires Ascending(names)
    requires forall i :: 0 <= i < |names| ==> LessEq(start, names[i])
    ensures Scan(cmd, start, names).Some? <==> exists i :: 0 <= i < |names| && names[i] <= cmd
    ensures Scan(cmd, start, names).Some? ==>
      var x := Scan(cmd, start, names).value;
      x in names && x <= cmd && forall i :: 0 <= i < |names| && names[i] <= cmd ==> |names[i]| <= |x|
    decreases |names|
  {
    if |names| > 0 {
      var rest := names[1..];
      assert forall i :: 0 <= i < |rest| ==> rest[i] == names[i + 1];
      ScanLongest(cmd, start, rest);
      if names[0] <= cmd {
        match Scan(cmd, start, rest)
        case None =>
        case Some(x) =>
          assert x in rest;
          var j :| 0 <= j < |rest| && rest[j] == x;
          assert Less(names[0], x);
          PrefixesByLength(names[0], x, cmd);
      } else if !(start <= names[0]) {
        forall i | 0 < i < |names| ensures !(names[i] <= cmd) {
          LeavesPrefixBlock(start, names[0], names[i]);
          NonEmptyAfter(start, names[i]);
        }
      }
    }
  }

  /** Some registered non-empty name is a prefix of the lower-cased text. */
  predicate HasNamePrefix(d: Dispatcher, cmd: string) {
    exists k :: k in ToMap(d.commandMap) && k != "" && k <= cmd
  }

  /** `CompleteCommandName`: null for empty text; otherwise the longest
      registered name the lower-cased text starts with (no word boundary is
      needed), or failing that the text's first delimited piece. */
  function CompleteCommandName(d: Dispatcher, command: string): (r: Option<string>)
    ensures r.None? <==> command == ""
    ensures command != "" && HasNamePrefix(d, ToLower(command)) ==>
      var x := r.value;
      && ContainsCommand(d, x) && x != "" && x <= ToLower(command)
      && forall k :: k in ToMap(d.commandMap) && k != "" && k <= ToLower(command) ==> |k| <= |x|
    ensures command != "" && !HasNamePrefix(d, ToLower(command)) ==>
      r == Some(Split(command, NameDelimiters)[0])
  {
    if command == "" then None
    else
      var cmd := ToLower(command);
      var start := cmd[..1];
      var names := GetRegisteredCommandNames(d, start);
      ScanLongest(cmd, start, names);
      forall k | k in ToMap(d.commandMap) && k != "" && k <= cmd ensures k in names {
        assert start <= k;
        PrefixLessEq(start, k);
      }
      forall k | k in names ensures k != "" {
        NonEmptyAfter(start, k);
      }
      match Scan(cmd, start, names)
      case Some(x) => Some(x)
      case None => Some(Split(command, NameDelimiters)[0])
  }

  /** The resolved name is never longer than the text. */
  lemma CompleteCommandNameLength(d: Dispatcher, command: string)
    requires command != ""
    ensures |CompleteCommandName(d, command).value| <= |command|
  {
    SplitFirstPiece(command, NameDelimiters);
  }

  /** `GetCommandFromCooked`: the command stored under exactly that name. */
  function Cooked(d: Dispatcher, name: Option<string>): (r: Option<Command>)
    ensures r.Some? <==> name.Some? && name.value != "" && ContainsCommand(d, name.value)
    ensures r.Some? ==> r.value == ToMap(d.commandMap)[name.value]
  {
    if name.None? || name.value == "" then None else Get(d.commandMap, name.value)
  }

  /** `GetCommand(string)`: the command stored under the completed name,
      when there is one. */
  function GetCommand(d: Dispatcher, text: string): (r: Option<Command>)
    ensures r.Some? <==> text != "" && CompleteCommandName(d, text).value != "" && ContainsCommand(d, CompleteCommandName(d, text).value)
    ensures r.Some? ==> r.value == ToMap(d.commandMap)[CompleteCommandName(d, text).value]
  {
    Cooked(d, CompleteCommandName(d, text))
  }

  /** `GetCommand(Type)`: the earliest registered command of that kind. */
  function CommandOfKind(d: Dispatcher, kind: Kind): (r: Option<Command>)
    ensures r.None? <==> forall j :: 0 <= j < |d.commands| ==> d.commands[j].kind != kind
    ensures r.Some? ==> exists i :: (0 <= i < |d.commands| && d.commands[i] == r.value && r.value.kind == kind
      && forall j :: 0 <= j < i ==> d.commands[j].kind != kind)
  {
    match FirstIndexOfKind(d.commands, kind)
    case None => None
    case Some(i) => Some(d.commands[i])
  }

  function FirstIndexOfKind(commands: seq<Command>, kind: Kind): (r: Option<nat>)
    ensures r.Some? ==> r.value < |commands| && commands[r.value].kind == kind
    ensures r.Some? ==> forall j :: 0 <= j < r.value ==> commands[j].kind != kind
    ensures r.None? ==> forall j :: 0 <= j < |commands| ==> commands[j].kind != kind
    decreases |commands|
  {
    if |commands| == 0 then None
    else if commands[0].kind == kind then Some(0)
    else match FirstIndexOfKind(commands[1..], kind)
      case None => None
      case Some(i) => Some(i + 1)
  }

  /** A name registered for a command of that kind. */
  predicate OfKind(d: Dispatcher, name: string, kind: Kind) {
    name in ToMap(d.commandMap) && ToMap(d.commandMap)[name].kind == kind
  }

  /** `GetCommandNames(Type)`: the least name, in the map's order, held by a
      command of that kind, as a one-element list; none when there is no
      such name or that name is empty. */
  function GetCommandNames(d: Dispatcher, kind: Kind): (r: seq<string>)
    ensures |r| <= 1
    ensures r == [] <==> OfKind(d, "", kind) || forall k :: !OfKind(d, k, kind)
    ensures |r| == 1 ==> r[0] != "" && OfKind(d, r[0], kind) && forall k :: OfKind(d, k, kind) ==> LessEq(r[0], k)
  {
    match FirstOfKind(d.commandMap, kind)
    case None =>
      NoneOfKind(d, kind);
      []
    case Some(i) =>
      ToMapAt(d.commandMap, i);
      FirstOfKindLeast(d, kind, i);
      var name := d.commandMap[i].0;
      assert OfKind(d, name, kind);
      if name == "" then []
      else
        assert !Less(name, "");
        [name]
  }

  lemma NoneOfKind(d: Dispatcher, kind: Kind)
    requires FirstOfKind(d.commandMap, kind).None?
    ensures forall k :: !OfKind(d, k, kind)
  {
    forall k | k in ToMap(d.commandMap) ensures !OfKind(d, k, kind) {
      var j := KeyAt(d.commandMap, k);
    }
  }

  /** The first pair of that kind holds the least such name. */
  lemma FirstOfKindLeast(d: Dispatcher, kind: Kind, i: nat)
    requires FirstOfKind(d.commandMap, kind) == Some(i)
    ensures forall k :: OfKind(d, k, kind) ==> LessEq(d.commandMap[i].0, k)
  {
    forall k | OfKind(d, k, kind) ensures LessEq(d.commandMap[i].0, k) {
      var j := KeyAt(d.commandMap, k);
      assert !(j < i);
    }
  }

  function FirstOfKind(m: seq<(string, Command)>, kind: Kind): (r: Option<nat>)
    ensures r.Some? ==> r.value < |m| && m[r.value].1.kind == kind
    ensures r.Some? ==> forall j :: 0 <= j < r.value ==> m[j].1.kind != kind
    ensures r.None? ==> forall j :: 0 <= j < |m| ==> m[j].1.kind != kind
    decreases |m|
  {
    if |m| == 0 then None
    else if m[0].1.kind == kind then Some(0)
    else match FirstOfKind(m[1..], kind)
      case None => None
      case Some(i) => Some(i + 1)
  }

  // ---------------------------------------------------------------------
  // Registration

  const RunningMessage := "The application is running."
  const OtherApplicationMessage := "The command instance is already registered by another application."

  function InitFailed(message: string): string {
    "An error occurred while initializing the command: " + message
  }

  function AlreadyUsed(name: string): string {
    "attempt to register command '" + name + "', that is already used"
  }

  /** Every name is unmapped and no name repeats. */
  predicate AllNew(m: map<string, Command>, names: seq<string>) {
    && (forall i :: 0 <= i < |names| ==> names[i] !in m)
    && (forall i, j :: 0 <= i < j < |names| ==> names[i] != names[j])
  }

  lemma AllNewCons(m: map<string, Command>, names: seq<string>, c: Command)
    requires |names| > 0 && names[0] !in m
    ensures AllNew(m, names) <==> AllNew(m[names[0] := c], names[1..])
  {
    var rest := names[1..];
    if AllNew(m[names[0] := c], rest) {
      forall i, j | 0 <= i < j < |names| ensures names[i] != names[j] {
        if i > 0 { assert names[i] == rest[i - 1] && names[j] == rest[j - 1]; }
        else { assert names[j] == rest[j - 1]; }
      }
    }
    if AllNew(m, names) {
      forall i | 0 <= i < |rest| ensures rest[i] !in m[names[0] := c] {
        assert rest[i] == names[i + 1];
      }
    }
  }

  /** Keys already mapped keep their command. */
  predicate Extends(m: map<string, Command>, m': map<string, Command>) {
    forall k :: k in m ==> k in m' && m'[k] == m[k]
  }

  /** The alias loop of `Register`: each alias must be unmapped; the first
      that is not throws, with the earlier ones already mapped. */
  function MapAliases(m: SortedMap<Command>, names: seq<string>, c: Command): (r: (SortedMap<Command>, Option<Exception>))
    ensures r.1.None? <==> AllNew(ToMap(m), names)
    ensures r.1.Some? ==> exists i :: 0 <= i < |names| && r.1.value == Argument(AlreadyUsed(names[i]))
    ensures Extends(ToMap(m), ToMap(r.0))
    ensures forall k :: k in ToMap(r.0) && k !in ToMap(m) ==> k in names && ToMap(r.0)[k] == c
    ensures r.1.None? ==> forall k :: k in names ==> k in ToMap(r.0) && ToMap(r.0)[k] == c
    decreases |names|
  {
    if |names| == 0 then (m, None)
    else if names[0] in ToMap(m) then (m, Some(Argument(AlreadyUsed(names[0]))))
    else
      var m1 := Put(m, names[0], c);
      AllNewCons(ToMap(m), names, c);
      var r := MapAliases(m1, names[1..], c);
      assert forall k :: k in names[1..] ==> k in names;
      r
  }

  /** `Register` may proceed past its guards. */
  predicate Admissible(d: Dispatcher, cmd: Option<Command>) {
    && !d.running
    && cmd.Some?
    && (cmd.value.application.None? || cmd.value.application.value == d.app)
  }

  /** The names `Register` maps: the name, then the aliases. */
  function Names(c: Command): seq<string> {
    [c.name] + AliasList(c)
  }

  /** `Register(Command)`: the guards; `initError` is the message of the
      exception the command's own `Init()` throws, if it throws, which is
      rethrown wrapped; then the command joins the registration list before
      any name is mapped; a taken name or alias throws with the earlier names
      already mapped, and names mapped before keep their command. */
  function Register(d: Dispatcher, cmd: Option<Command>, initError: Option<string>): (r: Mutation<Dispatcher>)
    ensures d.running ==> r == Stopped(d, InvalidOperation(RunningMessage))
    ensures !d.running && cmd.None? ==> r == Stopped(d, ArgumentNull("command"))
    ensures !d.running && cmd.Some? && initError.Some? ==> r == Stopped(d, Argument(InitFailed(initError.value)))
    ensures !d.running && cmd.Some? && initError.None? && !Admissible(d, cmd) ==> r == Stopped(d, Argument(OtherApplicationMessage))
    ensures Admissible(d, cmd) && initError.None? ==>
      var c := cmd.value.(application := Some(d.app));
      && r.state.commands == d.commands + [c]
      && r.state == d.(commandMap := r.state.commandMap, commands := r.state.commands)
      && (r.Done? <==> AllNew(ToMap(d.commandMap), Names(c)))
      && Extends(ToMap(d.commandMap), ToMap(r.state.commandMap))
      && (forall k :: k in ToMap(r.state.commandMap) && k !in ToMap(d.commandMap) ==> k in Names(c) && ToMap(r.state.commandMap)[k] == c)
      && (r.Done? ==> forall k :: k in Names(c) ==> k in ToMap(r.state.commandMap) && ToMap(r.state.commandMap)[k] == c)
  {
    if d.running then Stopped(d, InvalidOperation(RunningMessage))
    else if cmd.None? then Stopped(d, ArgumentNull("command"))
    else if initError.Some? then Stopped(d, Argument(InitFailed(initError.value)))
    else if cmd.value.application.Some? && cmd.value.application.value != d.app then
      Stopped(d, Argument(OtherApplicationMessage))
    else
      var c := cmd.value.(application := Some(d.app));
      var (m, err) := MapNames(d.commandMap, c);
      var d1 := d.(commands := d.commands + [c], commandMap := m);
      if err.Some? then Stopped(d1, err.value) else Done(d1)
  }

  /** The name is added with `Add`, which throws on a taken name; then the
      aliases are mapped one by one. */
  function MapNames(m: SortedMap<Command>, c: Command): (r: (SortedMap<Command>, Option<Exception>))
    ensures r.1.None? <==> AllNew(ToMap(m), Names(c))
    ensures Extends(ToMap(m), ToMap(r.0))
    ensures forall k :: k in ToMap(r.0) && k !in ToMap(m) ==> k in Names(c) && ToMap(r.0)[k] == c
    ensures r.1.None? ==> forall k :: k in Names(c) ==> k in ToMap(r.0) && ToMap(r.0)[k] == c
  {
    match Add(m, c.name, c)
    case Throw(e) =>
      assert !AllNew(ToMap(m), Names(c)) by { assert Names(c)[0] == c.name; }
      (m, Some(e))
    case Ok(m1) =>
      AllNewCons(ToMap(m), Names(c), c);
      assert Names(c)[1..] == AliasList(c);
      MapAliases(m1, AliasList(c), c)
  }

  /** Registration never changes the cached command list: once it has been
      read, later registrations do not show up in it. */
  lemma StaleCache(d: Dispatcher, cmd: Option<Command>, initError: Option<string>)
    requires d.cache.Some?
    ensures RegisteredCommands(Register(d, cmd, initError).state).0 == RegisteredCommands(d).0
  {
  }

  /** The last registration-list entry of that kind. */
  function LastOfKind(commands: seq<Command>, kind: Kind): (r: Option<nat>)
    ensures r.Some? ==> r.value < |commands| && commands[r.value].kind == kind
    ensures r.Some? ==> forall j :: r.value < j < |commands| ==> commands[j].kind != kind
    ensures r.None? ==> forall j :: 0 <= j < |commands| ==> commands[j].kind != kind
    decreases |commands|
  {
    if |commands| == 0 then None
    else if commands[|commands| - 1].kind == kind then Some(|commands| - 1)
    else LastOfKind(commands[..|commands| - 1], kind)
  }

  const Namespace := "Deveel.Console.Commands."

  /** The full type name `Type.ToString()` gives for the error message; a
      nested class is written after its enclosing class and a `+`. */
  function KindName(kind: Kind): string {
    match kind
    case AliasKind => Namespace + "AliasCommand"
    case UnaliasKind => Namespace + "UnaliasCommand"
    case AliasesKind => Namespace + "AliasesCommand"
    case SetKind => Namespace + "SetCommand"
    case UnsetKind => Namespace + "UnsetCommand"
    case SetPropertyKind => Namespace + "SetPropertyCommand"
    case ResetPropertyKind => Namespace + "ResetPropertyCommand"
    case EchoKind => Namespace + "EchoCommand"
    case AliasedKind => Namespace + "CommandAliases+AliasedCommand"
    case Custom(id) => "Custom" + NatToString(id)
  }

  function NotRegistered(kind: Kind): string {
    "Attempt to unregister the command type '" + KindName(kind) + "' not registered."
  }

  /** Removes each name; absent names are skipped. */
  function RemoveAll(m: SortedMap<Command>, names: seq<string>): (r: SortedMap<Command>)
    ensures forall k :: k in ToMap(r) <==> k in ToMap(m) && k !in names
    ensures forall k :: k in ToMap(r) ==> ToMap(r)[k] == ToMap(m)[k]
    decreases |names|
  {
    if |names| == 0 then m
    else
      var r := RemoveAll(Remove(m, names[0]), names[1..]);
      assert forall k :: k in names <==> k == names[0] || k in names[1..];
      r
  }

  /** `Unregister(Type)`: the most recently registered command of that kind
      leaves the list, and its name and aliases leave the map whatever they
      are mapped to now; throws when there is none. */
  function Unregister(d: Dispatcher, kind: Kind): (r: Result<Dispatcher>)
    ensures r.Throw? <==> forall j :: 0 <= j < |d.commands| ==> d.commands[j].kind != kind
    ensures r.Throw? ==> r.error == ApplicationError(NotRegistered(kind))
    ensures r.Ok? ==> exists i :: (
      && 0 <= i < |d.commands| && d.commands[i].kind == kind
      && (forall j :: i < j < |d.commands| ==> d.commands[j].kind != kind)
      && r.value.commands == d.commands[..i] + d.commands[i + 1..]
      && (forall k :: k in ToMap(r.value.commandMap) <==> k in ToMap(d.commandMap) && k !in Names(d.commands[i]))
      && (forall k :: k in ToMap(r.value.commandMap) ==> ToMap(r.value.commandMap)[k] == ToMap(d.commandMap)[k]))
  {
    match LastOfKind(d.commands, kind)
    case None => Throw(ApplicationError(NotRegistered(kind)))
    case Some(i) =>
      var c := d.commands[i];
      Ok(d.(commands := d.commands[..i] + d.commands[i + 1..], commandMap := RemoveAll(d.commandMap, Names(c))))
  }

  /** `Unregister(Command)`: by the instance's kind, so the entry removed is
      the latest of that kind, not necessarily this instance. */
  function UnregisterCommand(d: Dispatcher, cmd: Option<Command>): (r: Result<Dispatcher>)
    ensures cmd.None? ==> r == Throw(ArgumentNull("command"))
    ensures cmd.Some? ==> (r.Throw? <==> forall j :: 0 <= j < |d.commands| ==> d.commands[j].kind != cmd.value.kind)
    ensures r.Ok? ==>
      && |r.value.commands| == |d.commands| - 1
      && (forall k :: k in ToMap(r.value.commandMap) ==> k in ToMap(d.commandMap) && ToMap(r.value.commandMap)[k] == ToMap(d.commandMap)[k])
      && r.value == d.(commands := r.value.commands, commandMap := r.value.commandMap)
  {
    if cmd.None? then Throw(ArgumentNull("command")) else Unregister(d, cmd.value.kind)
  }

  /** Registering a command of a kind not yet registered, whose names are
      all new, and then unregistering it gives back the registration list
      and the name map. */
  lemma RegisterThenUnregister(d: Dispatcher, c: Command)
    requires Admissible(d, Some(c))
    requires forall j :: 0 <= j < |d.commands| ==> d.commands[j].kind != c.kind
    requires AllNew(ToMap(d.commandMap), Names(c))
    ensures var d1 := Register(d, Some(c), None);
      && d1.Done?
      && UnregisterCommand(d1.state, Some(c)).Ok?
      && UnregisterCommand(d1.state, Some(c)).value.commands == d.commands
      && ToMap(UnregisterCommand(d1.state, Some(c)).value.commandMap) == ToMap(d.commandMap)
  {
    var c1 := c.(application := Some(d.app));
    assert Names(c1) == Names(c);
    var d1 := Register(d, Some(c), None).state;
    var n := |d.commands|;
    assert LastOfKind(d1.commands, c.kind) == Some(n);
    assert d1.commands[..n] + d1.commands[n + 1..] == d.commands;
    var m2 := RemoveAll(d1.commandMap, Names(c));
    assert UnregisterCommand(d1, Some(c)) == Ok(d1.(commands := d.commands, commandMap := m2));
    RemoveNewNames(d.commandMap, d1.commandMap, m2, Names(c));
  }

  /** Removing from an extended map exactly the names that were new gives
      the original map back. */
  lemma RemoveNewNames(m: SortedMap<Command>, m1: SortedMap<Command>, m2: SortedMap<Command>, names: seq<string>)
    requires AllNew(ToMap(m), names) && Extends(ToMap(m), ToMap(m1))
    requires forall k :: k in ToMap(m1) && k !in ToMap(m) ==> k in names
    requires forall k :: k in ToMap(m2) <==> k in ToMap(m1) && k !in names
    requires forall k :: k in ToMap(m2) ==> ToMap(m2)[k] == ToMap(m1)[k]
    ensures ToMap(m2) == ToMap(m)
  {
    assert ToMap(m2).Keys == ToMap(m).Keys;
  }

  /** `Rename`: moves one map key; the registration list is not touched. A
      taken new name or an absent old name answers false and changes
      nothing. */
  function Rename(d: Dispatcher, commandName: string, newName: string): (r: Result<(bool, Dispatcher)>)
    ensures commandName == "" ==> r == Throw(ArgumentNull("commandName"))
    ensures commandName != "" && newName == "" ==> r == Throw(ArgumentNull("newName"))
    ensures r.Ok? ==> (r.value.0 <==> !ContainsCommand(d, newName) && ContainsCommand(d, commandName))
    ensures r.Ok? && !r.value.0 ==> r.value.1 == d
    ensures r.Ok? && r.value.0 ==>
      && r.value.1 == d.(commandMap := r.value.1.commandMap)
      && ToMap(r.value.1.commandMap) == (ToMap(d.commandMap) - {commandName})[newName := ToMap(d.commandMap)[commandName]]
  {
    if commandName == "" then Throw(ArgumentNull("commandName"))
    else if newName == "" then Throw(ArgumentNull("newName"))
    else if ContainsCommand(d, newName) then Ok((false, d))
    else match Get(d.commandMap, commandName)
      case None => Ok((false, d))
      case Some(c) => Ok((true, d.(commandMap := Put(Remove(d.commandMap, commandName), newName, c))))
  }

  /** A rename is undone by renaming back. */
  lemma RenameBack(d: Dispatcher, a: string, b: string)
    requires a != "" && b != "" && a != b
    requires Rename(d, a, b) == Ok((true, Rename(d, a, b).value.1))
    ensures var d1 := Rename(d, a, b).value.1;
      Rename(d1, b, a).Ok? && Rename(d1, b, a).value.0
      && ToMap(Rename(d1, b, a).value.1.commandMap) == ToMap(d.commandMap)
  {
  }

  // ---------------------------------------------------------------------
  // Alias entries

  /** `AddAlias`: the table insert, which throws on a taken name; then the
      dispatcher entry, reached through the table's dispatcher field, so it
      throws NullReference when that field is null and otherwise throws on a
      taken name. Dirty is set only when both inserts succeed. */
  function AddAlias(d: Dispatcher, alias: string, expansion: string): (r: Mutation<Dispatcher>)
    ensures r.Done? <==> !HasAlias(d.aliases, alias) && d.aliases.dispatcherSet && !ContainsCommand(d, alias)
    ensures HasAlias(d.aliases, alias) ==> r == Stopped(d, Argument(DuplicateKeyMessage))
    ensures !HasAlias(d.aliases, alias) ==>
      && ToMap(r.state.aliases.table) == ToMap(d.aliases.table)[alias := expansion]
      && r.state.aliases.dirty == (r.Done? || d.aliases.dirty)
    ensures !HasAlias(d.aliases, alias) && !d.aliases.dispatcherSet ==> r.Stopped? && r.error == NullReference
    ensures !HasAlias(d.aliases, alias) && d.aliases.dispatcherSet && ContainsCommand(d, alias) ==>
      r.Stopped? && r.error == Argument(DuplicateKeyMessage)
    ensures r.Done? ==> ToMap(r.state.commandMap) == ToMap(d.commandMap)[alias := Aliased(alias)]
    ensures r.Stopped? ==> r.state.commandMap == d.commandMap
    ensures r.state.aliases.inFlight == d.aliases.inFlight && r.state.aliases.dispatcherSet == d.aliases.dispatcherSet
  {
    match Add(d.aliases.table, alias, expansion)
    case Throw(e) => Stopped(d, e)
    case Ok(t) =>
      var d1 := d.(aliases := d.aliases.(table := t));
      if !d.aliases.dispatcherSet then Stopped(d1, NullReference)
      else
        match Add(d.commandMap, alias, Aliased(alias))
        case Throw(e) => Stopped(d1, e)
        case Ok(m) => Done(d1.(commandMap := m, aliases := d1.aliases.(dirty := true)))
  }

  /** `RemoveAlias`: the table entry goes, an absent alias being no error;
      the dispatcher entry then goes through the table's dispatcher field,
      which throws NullReference when it is null. Dirty is set only after
      both. */
  function RemoveAlias(d: Dispatcher, alias: string): (r: Mutation<Dispatcher>)
    ensures ToMap(r.state.aliases.table) == ToMap(d.aliases.table) - {alias}
    ensures r.Done? <==> d.aliases.dispatcherSet
    ensures r.Stopped? ==> r.error == NullReference && r.state == d.(aliases := d.aliases.(table := r.state.aliases.table))
    ensures r.Done? ==> r.state == RemoveEntries(d, alias)
  {
    if d.aliases.dispatcherSet then Done(RemoveEntries(d, alias))
    else Stopped(d.(aliases := d.aliases.(table := Remove(d.aliases.table, alias))), NullReference)
  }

  /** What a completed `RemoveAlias` leaves: both entries gone and dirty
      set. */
  function RemoveEntries(d: Dispatcher, alias: string): (r: Dispatcher)
    ensures ToMap(r.aliases.table) == ToMap(d.aliases.table) - {alias}
    ensures ToMap(r.commandMap) == ToMap(d.commandMap) - {alias}
    ensures r.aliases.dirty
    ensures r == d.(commandMap := r.commandMap, aliases := d.aliases.(table := r.aliases.table, dirty := true))
  {
    d.(commandMap := Remove(d.commandMap, alias), aliases := d.aliases.(table := Remove(d.aliases.table, alias), dirty := true))
  }

  /** Adding a fresh alias and removing it restores both maps, whether the
      two calls complete or each stops at the null dispatcher field after
      changing the table. */
  lemma AddRemoveAlias(d: Dispatcher, alias: string, expansion: string)
    requires !HasAlias(d.aliases, alias) && !ContainsCommand(d, alias)
    ensures var a := AddAlias(d, alias, expansion);
      var d1 := RemoveAlias(a.state, alias);
      && (a.Done? <==> d.aliases.dispatcherSet) && (d1.Done? <==> d.aliases.dispatcherSet)
      && ToMap(d1.state.aliases.table) == ToMap(d.aliases.table) && ToMap(d1.state.commandMap) == ToMap(d.commandMap)
  {
    var a := AddAlias(d, alias, expansion);
    assert ToMap(a.state.aliases.table) - {alias} == ToMap(d.aliases.table);
    if d.aliases.dispatcherSet {
      assert ToMap(a.state.commandMap) - {alias} == ToMap(d.commandMap);
    }
  }

  /** `LoadFromFile` through the dispatcher: the table is refilled but the
      dispatcher map gets no entries. */
  function LoadAliases(d: Dispatcher, file: SortedMap<string>): (r: Dispatcher)
    ensures r.commandMap == d.commandMap && r.aliases == LoadFromFile(d.aliases, file)
  {
    d.(aliases := LoadFromFile(d.aliases, file))
  }

  // ---------------------------------------------------------------------
  // Alias completion

  /** `Array.BinarySearch(names, cmd) >= 0` on the at-most-one-element lists
      `GetCommandNames` returns. */
  predicate Listed(names: seq<string>, cmd: string) {
    cmd in names
  }

  /** Skips leading white space, then one word: the intended bounds of the
      loops in the delegating branch. */
  function SkipWord(s: string): (i: nat)
    ensures i <= |s|
    ensures AllWhiteSpace(s[..LeadingSpace(s)]) && forall j :: LeadingSpace(s) <= j < i ==> !IsWhiteSpace(s[j])
    ensures i < |s| ==> IsWhiteSpace(s[i])
  {
    LeadingSpace(s) + WordLength(s[LeadingSpace(s)..])
  }

  function LeadingSpace(s: string): (i: nat)
    ensures i <= |s| && AllWhiteSpace(s[..i]) && (i < |s| ==> !IsWhiteSpace(s[i]))
  {
    |s| - |TrimStart(s)|
  }

  function WordLength(s: string): (i: nat)
    ensures i <= |s| && (forall j :: 0 <= j < i ==> !IsWhiteSpace(s[j])) && (i < |s| ==> IsWhiteSpace(s[i]))
    decreases |s|
  {
    if |s| == 0 || IsWhiteSpace(s[0]) then 0 else 1 + WordLength(s[1..])
  }

  /** The text handed to the expansion's completer, as written: both loops
      are guarded by `param.Length < i`, which never holds for `i = 0`, so
      nothing is skipped and the alias word stays in front of the expansion. */
  function DelegatedTextAsWritten(toExecute: string, partialCommand: string): (r: string)
    ensures r == toExecute + partialCommand[0..]
  {
    var i := 0;
    toExecute + partialCommand[i..]
  }

  /** The text handed to the expansion's completer as evidently intended:
      the alias word is replaced by its expansion. */
  function DelegatedText(toExecute: string, partialCommand: string): (r: string)
    ensures r == toExecute + partialCommand[SkipWord(partialCommand)..]
  {
    toExecute + partialCommand[SkipWord(partialCommand)..]
  }

  /** "ls foo" under the alias ls = "tables": as written the completer sees
      "tablesls foo", as intended "tables foo". */
  lemma DelegatedTextExample()
    ensures DelegatedTextAsWritten("tables", "ls foo") == "tablesls foo"
    ensures DelegatedText("tables", "ls foo") == "tables foo"
  {
    assert !IsWhiteSpace('l') && !IsWhiteSpace('s') && IsWhiteSpace(' ');
    assert TrimStart("ls foo") == "ls foo";
    assert WordLength("ls foo") == 2 by {
      assert "ls foo"[1..] == "s foo";
      assert "s foo"[1..] == " foo";
    }
  }

  /** The intended text keeps everything after the alias word. */
  lemma DelegatedTextReplacesWord(toExecute: string, word: string, rest: string)
    requires |word| > 0 && forall j :: 0 <= j < |word| ==> !IsWhiteSpace(word[j])
    requires |rest| > 0 && IsWhiteSpace(rest[0])
    ensures DelegatedText(toExecute, word + rest) == toExecute + rest
  {
    var s := word + rest;
    assert LeadingSpace(s) == 0 by {
      assert !IsWhiteSpace(s[0]);
    }
    WordPrefix(word, rest);
  }

  lemma {:induction false} WordPrefix(word: string, rest: string)
    requires forall j :: 0 <= j < |word| ==> !IsWhiteSpace(word[j])
    requires |rest| > 0 && IsWhiteSpace(rest[0])
    ensures WordLength(word + rest) == |word|
    decreases |word|
  {
    if |word| > 0 {
      assert (word + rest)[1..] == word[1..] + rest;
      WordPrefix(word[1..], rest);
    } else {
      assert word + rest == rest;
    }
  }

  /** The text the delegating branch hands to the expansion's completer:
      as written, or with the loop bounds as intended. */
  function Delegated(toExecute: string, partialCommand: string, intended: bool): string {
    if intended then DelegatedText(toExecute, partialCommand) else DelegatedTextAsWritten(toExecute, partialCommand)
  }

  /** `CommandAliases.Complete`, with the expansion's completer as a
      parameter. Its first lookup goes through the table's dispatcher field,
      so a null field throws NullReference on every call. Otherwise: nothing
      for the `aliases` command; alias names for `alias` (first argument
      only) and `unalias` (excluding the names already on the line); else
      the expansion's completion of the line, which throws through the
      indexer when the first word is not an alias. `intended` picks the
      corrected loop bounds for the text handed on. */
  function CompleteAlias(d: Dispatcher, partialCommand: string, lastWord: string,
                         delegate: (Command, string, string) -> Option<seq<string>>, intended: bool): (r: Result<Option<seq<string>>>)
    ensures !d.aliases.dispatcherSet ==> r == Throw(NullReference)
    ensures var st := Split(partialCommand, {' '});
      d.aliases.dispatcherSet && Listed(GetCommandNames(d, AliasesKind), st[0]) ==> r == Ok(None)
    ensures var st := Split(partialCommand, {' '});
      d.aliases.dispatcherSet && !Listed(GetCommandNames(d, AliasesKind), st[0]) && Listed(GetCommandNames(d, AliasKind), st[0]) ==>
        (r.Ok? && (r.value.None? <==> |st| > (if lastWord == "" then 0 else 1)))
        && (r.value.Some? ==> forall x :: x in r.value.value <==> HasAlias(d.aliases, x) && Yields(lastWord, x, _ => false))
    ensures var st := Split(partialCommand, {' '});
      d.aliases.dispatcherSet && !Listed(GetCommandNames(d, AliasesKind), st[0]) && !Listed(GetCommandNames(d, AliasKind), st[0])
      && Listed(GetCommandNames(d, UnaliasKind), st[0]) ==>
        r.Ok? && r.value.Some?
        && forall x :: x in r.value.value <==> HasAlias(d.aliases, x) && Yields(lastWord, x, y => y in st[1..])
    ensures var st := Split(partialCommand, {' '});
      d.aliases.dispatcherSet && !Listed(GetCommandNames(d, AliasesKind), st[0]) && !Listed(GetCommandNames(d, AliasKind), st[0])
      && !Listed(GetCommandNames(d, UnaliasKind), st[0]) ==>
        && (r.Throw? <==> !HasAlias(d.aliases, st[0]))
        && (HasAlias(d.aliases, st[0]) ==>
              var toExecute := ToMap(d.aliases.table)[st[0]];
              && (GetCommand(d, toExecute).None? ==> r == Ok(None))
              && (GetCommand(d, toExecute).Some? ==>
                    r == Ok(delegate(GetCommand(d, toExecute).value, Delegated(toExecute, partialCommand, intended), lastWord))))
  {
    var st := Split(partialCommand, {' '});
    var cmd := st[0];
    var argc := |st|;
    ToMapKeys(d.aliases.table);
    if !d.aliases.dispatcherSet then Throw(NullReference)
    else if Listed(GetCommandNames(d, AliasesKind), cmd) then Ok(None)
    else if Listed(GetCommandNames(d, AliasKind), cmd) then
      if argc > (if lastWord == "" then 0 else 1) then Ok(None)
      else
        DictionaryMatches(lastWord, d.aliases.table, _ => false);
        Ok(Some(Drain(OfDictionary(lastWord, d.aliases.table), _ => false)))
    else if Listed(GetCommandNames(d, UnaliasKind), cmd) then
      var given := st[1..];
      DictionaryMatches(lastWord, d.aliases.table, y => y in given);
      Ok(Some(Drain(OfDictionary(lastWord, d.aliases.table), y => y in given)))
    else
      match Get(d.aliases.table, cmd)
      case None => Throw(KeyNotFound)
      case Some(toExecute) =>
        match GetCommand(d, toExecute)
        case None => Ok(None)
        case Some(c) => Ok(delegate(c, Delegated(toExecute, partialCommand, intended), lastWord))
  }
}
