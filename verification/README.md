# dshell core in Dafny

A model of the core of dshell (the `Deveel.Console` toolkit for interactive, line-oriented shells) with proofs about it. The model covers these parts:

- **Command dispatcher** (`Dispatching`, `Execution`, `Commands`, `Arguments`). It keeps a sorted name-to-command map and resolves a statement to the longest registered name that starts it, with a raw-token fallback. It strips trailing separators, splits the arguments on single spaces, guards commands that need a context, and turns result codes into synopsis lines, batch echoes and error reports. It also covers registration, unregistration and renaming, with their partial mutations and errors, and the argument cursor with its move semantics.
- **Alias subsystem** (`Aliases`, `Dispatching`, `Execution`). An alias table lies over the dispatcher's name map. Expansion re-dispatches the statement, and an in-flight list, cleared when the outer call returns, catches recursion. The model also covers the `alias` and `unalias` commands and the dirty-flag save and load.
- **Sorted ranges and completion** (`SortedMaps`, `Subsets`, `SortedMatch`, `NameCompletion`, `Properties`). This part covers inclusive range copies of sorted dictionaries and lists and prefix enumeration that stops at the first non-match. It includes prefix and suffix decoration, an exclusion set and `Reset`. On top of those sit the case-insensitive name completer that recovers the original casing, and unique-prefix selection of enumerated and boolean property values.
- **Statement separator** (`Separator`, `Shell`). The character-by-character driver runs around a pluggable transition function, with the re-feed loop and `Cont`/`Consumed`/`Discard`/`Push`/`Pop` on an explicit state stack. Around it are the line driver that splits a typed line into statements and settles what is left, and history escaping and unescaping.
- **String and number utilities** (`Settings`, `Quoting`, `TimeRenderer`, `Table`, `Columns`, `Questions`). These are:
  - `$NAME`, `${NAME}` and `$$` substitution, shell variables and variable completion;
  - quote stripping in `set`, `set-property`, `echo` and `alias`;
  - duration rendering in integer milliseconds;
  - column padding and the table renderer's header, cache, flush and footer accounting;
  - multi-line cells and monotone column widths;
  - question setup, answer validation and reply parsing.

Every state-changing operation is a pure function from one state record to the next. Output to the console and dispatcher events become an output trace (a sequence of lines). A command's own `Execute`, and a separator's `Parse`/`PostParse`, are parameters (oracles). Strings are `seq<char>`. The .NET collections' culture-sensitive order and lower-casing are replaced by ordinal order (`Ordinal`) and ASCII lower-casing. `Strings` models the .NET `Trim`, `Split`, `Join` and `Int32` text helpers the code relies on. `Wrappers` holds `Option`, `Result` and the exception values.

## Model

| member | source | states |
|---|---|---|
| Aliases.HasAliasEntry | src/dshell/Deveel.Console.Commands/CommandAliases.cs:182-184 | `HasAlias`: an alias is known exactly when some entry of the table carries it |
| Aliases.IsAliasOf | src/dshell/Deveel.Console.Commands/CommandAliases.cs:186-192 | true exactly when the alias is in the table and expands to the given command name |
| Aliases.GetCommandAliases | src/dshell/Deveel.Console.Commands/CommandAliases.cs:194-203 | exactly the aliases whose expansion is the command name, in ascending key order |
| Aliases.LoadFromFile | src/dshell/Deveel.Console.Commands/CommandAliases.cs:205-212 | the table holds exactly the file's entries and the file is attached; the dirty flag and the in-flight list are untouched |
| Aliases.Save | src/dshell/Deveel.Console.Commands/CommandAliases.cs:214-223 | without a file or when clean nothing changes; otherwise the file holds exactly the table and the dirty flag is cleared |
| Arguments.Fresh | src/dshell/Deveel.Console.Commands/CommandArguments.cs:11-19 | a fresh cursor counts every argument and stands at index -1 |
| Arguments.Current | src/dshell/Deveel.Console.Commands/CommandArguments.cs:21-23 | the argument under the cursor, and an index-out-of-range error exactly when the cursor is off the arguments |
| Arguments.MoveNext | src/dshell/Deveel.Console.Commands/CommandArguments.cs:36-38 | the index always grows by one, and the move reports true exactly when the new index is below the count |
| Arguments.MoveBack | src/dshell/Deveel.Console.Commands/CommandArguments.cs:40-42 | the index always drops by one, and the move reports true only when the new index is above 0 |
| Arguments.MoveTo | src/dshell/Deveel.Console.Commands/CommandArguments.cs:44-51 | moves by the offset exactly when it lands on an argument; otherwise reports false and stays put |
| Arguments.Reset | src/dshell/Deveel.Console.Commands/CommandArguments.cs:53-56 | the cursor is a fresh one over the same arguments |
| Arguments.Peek | src/dshell/Deveel.Console.Commands/CommandArguments.cs:58-64 | null exactly when the offset leaves the arguments, otherwise the argument there |
| Arguments.ToString | src/dshell/Deveel.Console.Commands/CommandArguments.cs:66-68 | splitting the text on ' ' gives back the arguments when none contains a space, wherever the cursor stands |
| Arguments.MoveToPeek | src/dshell/Deveel.Console.Commands/CommandArguments.cs:44-64 | `MoveTo` succeeds exactly when `Peek` with the same offset sees an argument, and then lands on that argument |
| Arguments.MoveNextWalk | src/dshell/Deveel.Console.Commands/CommandArguments.cs:11-38 | from a fresh cursor, the k-th successful `MoveNext` stands on argument k - 1 |
| Arguments.MoveBackFromFresh | src/dshell/Deveel.Console.Commands/CommandArguments.cs:40-42 | `MoveBack` from a fresh cursor reports false at once |
| Commands.AliasList | src/dshell/Deveel.Console.Commands/Command.cs:39-48 | the aliases a command contributes: its alias list when `HasAliases` holds, none otherwise |
| Commands.Defaults | src/dshell/Deveel.Console.Commands/Command.cs:35-236 | a command overriding only its name has one synopsis line equal to the name, no aliases, no group, needs no context, takes part in command completion, finds every text complete, offers no candidates and has no owner yet |
| Commands.Aliased | src/dshell/Deveel.Console.Commands/CommandAliases.cs:116-127 | the dispatcher entry for an alias is named after the alias and needs no context |
| Commands.BuiltinNames | src/dshell/Deveel.Console.Commands/EchoCommand.cs:9-19 | echo has exactly the alias "prompt"; alias, unalias and set have none; only some built-ins declare a group |
| Dispatching.New | src/dshell/Deveel.Console.Commands/CommandDispatcher.cs:14-22 | a new dispatcher has no names, no registrations, no cached list and batch count 0, and its alias table is empty with the dispatcher field left null, because the `CommandAliases` constructor assigns its parameter to itself |
| Dispatching.BatchNesting | src/dshell/Deveel.Console.Commands/CommandDispatcher.cs:55-57 | after n nested `StartBatch` calls the dispatcher is in a batch exactly when n > 0, and n `EndBatch` calls restore it |
| Dispatching.StartBatch | src/dshell/Deveel.Console.Commands/CommandDispatcher.cs:223-225 | opening a batch raises the batch count by one and changes nothing else |
| Dispatching.EndBatch | src/dshell/Deveel.Console.Commands/CommandDispatcher.cs:227-229 | closing a batch lowers the batch count by one and changes nothing else |
| Dispatching.RegisteredCommands | src/dshell/Deveel.Console.Commands/CommandDispatcher.cs:59-68 | the first read copies the registration list and caches it; later reads return the cache |
| Dispatching.GetRegisteredCommandNames | src/dshell/Deveel.Console.Commands/CommandDispatcher.cs:370-373 | exactly the registered names at or after the key, in ascending order |
| Dispatching.ScanLongest | src/dshell/Deveel.Console.Commands/CommandDispatcher.cs:382-391 | over the sorted names at or after the first character, the scan finds a name exactly when some name prefixes the text, and then the longest one |
| Dispatching.CompleteCommandName | src/dshell/Deveel.Console.Commands/CommandDispatcher.cs:375-401 | null exactly for empty text; the longest registered non-empty name prefixing the lower-cased text when there is one; otherwise the first piece of the text split on the six delimiters |
| Dispatching.CompleteCommandNameLength | src/dshell/Deveel.Console.Commands/CommandDispatcher.cs:375-401 | the resolved name is never longer than the text |
| Dispatching.Cooked | src/dshell/Deveel.Console.Commands/CommandDispatcher.cs:201-210 | a command exactly when the name is non-empty and a key of the map, and then the command stored there |
| Dispatching.GetCommand | src/dshell/Deveel.Console.Commands/CommandDispatcher.cs:523-525 | a command is found exactly when the text is non-empty and its completed name is non-empty and registered, and it is the command stored under that name |
| Dispatching.CommandOfKind | src/dshell/Deveel.Console.Commands/CommandDispatcher.cs:487-496 | the earliest registered command of that kind, and null exactly when there is none |
| Dispatching.GetCommandNames | src/dshell/Deveel.Console.Commands/CommandDispatcher.cs:498-521 | empty exactly when no name holds a command of that kind or the empty name does; otherwise the one name is the least, in the map's order, of those holding a command of that kind |
| Dispatching.Register | src/dshell/Deveel.Console.Commands/CommandDispatcher.cs:247-282 | refuses while running, a null command, a command whose `Init` throws (wrapped with the initialization message), or one owned by another application, in that order; otherwise appends to the list before mapping, succeeds exactly when the name and aliases are all new, keeps earlier mappings and maps new keys only to this command |
| Dispatching.MapAliases | src/dshell/Deveel.Console.Commands/CommandDispatcher.cs:273-281 | the alias loop stops with an "already used" error exactly when some alias is taken or repeated, after mapping the earlier ones |
| Dispatching.StaleCache | src/dshell/Deveel.Console.Commands/CommandDispatcher.cs:59-68 | once the list has been read, a later registration does not show in it |
| Dispatching.Unregister | src/dshell/Deveel.Console.Commands/CommandDispatcher.cs:306-331 | throws exactly when no command of that kind is registered, with a message naming the full type name (namespace included, `CommandAliases+` for the nested alias command); otherwise removes the last such command from the list and its name and aliases from the map, leaving other entries unchanged |
| Dispatching.UnregisterCommand | src/dshell/Deveel.Console.Commands/CommandDispatcher.cs:306-338 | null is refused; otherwise it throws exactly when no command of the instance's kind is registered, and on success one entry leaves the list, the map only loses names, and nothing else changes |
| Dispatching.RegisterThenUnregister | src/dshell/Deveel.Console.Commands/CommandDispatcher.cs:247-338 | registering a command of a new kind whose names are all free and then unregistering it gives back the registration list and the name map |
| Dispatching.Rename | src/dshell/Deveel.Console.Commands/CommandDispatcher.cs:340-358 | empty names throw; true exactly when the new name is free and the old one present, and then only that key moves; false changes nothing |
| Dispatching.RenameBack | src/dshell/Deveel.Console.Commands/CommandDispatcher.cs:340-358 | renaming back after a successful rename succeeds and restores the map |
| Dispatching.AddAlias | src/dshell/Deveel.Console.Commands/CommandAliases.cs:27-31 | a taken table name throws the duplicate-key error and changes nothing; otherwise the table gets the entry, and then the dispatcher entry throws NullReference when the table's dispatcher field is null, throws the duplicate-key error on a taken command name, and succeeds otherwise; the command map changes and dirty is set only on success |
| Dispatching.RemoveAlias | src/dshell/Deveel.Console.Commands/CommandAliases.cs:33-37 | the table loses the alias, an absent alias being no error; with the dispatcher field null it then throws NullReference and nothing else changes; otherwise the command map loses the alias too and dirty is set |
| Dispatching.RemoveEntries | src/dshell/Deveel.Console.Commands/CommandAliases.cs:33-37 | a completed removal: both maps lose the alias, dirty is set, and nothing else changes |
| Dispatching.AddRemoveAlias | src/dshell/Deveel.Console.Commands/CommandAliases.cs:27-37 | adding a fresh alias and removing it restores both maps: both calls complete when the dispatcher field is set, and each stops with NullReference after its table change when it is null |
| Dispatching.LoadAliases | src/dshell/Deveel.Console.Commands/CommandAliases.cs:205-212 | loading refills the table and adds no dispatcher entry |
| Dispatching.DelegatedTextExample | src/dshell/Deveel.Console.Commands/CommandAliases.cs:84-94 | as written, "ls foo" under alias ls = "tables" reaches the completer as "tablesls foo"; corrected, as "tables foo" |
| Dispatching.DelegatedTextReplacesWord | src/dshell/Deveel.Console.Commands/CommandAliases.cs:84-94 | the corrected text keeps everything after the alias word and puts the expansion in its place |
| Dispatching.CompleteAlias | src/dshell/Deveel.Console.Commands/CommandAliases.cs:39-99 | with the dispatcher field null every call throws NullReference; otherwise nothing for the aliases command; for alias, the alias names matching the last word unless past the first argument; for unalias, those not already on the line; otherwise it throws exactly when the first word is not an alias, gives nothing when the expansion names no command, and else gives that command's completion of the delegated text, as written ("<expansion><line>") or with the corrected loop bounds when its flag is set |
| Execution.StripTrailing | src/dshell/Deveel.Console.Commands/CommandDispatcher.cs:404-419 | empty exactly for blank text; otherwise a prefix of the trimmed text, everything cut off from it is the separator or white space, and a kept text longer than one character does not end in either |
| Execution.Tokens | src/dshell/Deveel.Console.Commands/CommandDispatcher.cs:426-438 | every argument is non-empty and holds no space and no white space at its ends; blank parameters give no arguments |
| Execution.TokensOfWords | src/dshell/Deveel.Console.Commands/CommandDispatcher.cs:426-438 | plain words written after the name with single spaces come back as exactly those arguments, in order |
| Execution.Resolve | src/dshell/Deveel.Console.Commands/CommandDispatcher.cs:403-438 | blank text resolves to nothing; otherwise the invocation exists exactly when the completed name is a registered command, and then carries that command and well-formed arguments |
| Execution.ResolveWords | src/dshell/Deveel.Console.Commands/CommandDispatcher.cs:403-438 | "name w1 ... wn" with a registered lower-case name resolves to that command with the arguments w1 ... wn |
| Execution.GetCommandOf | src/dshell/Deveel.Console.Commands/CommandDispatcher.cs:523-525 | a registered lower-case name followed by nothing or by a space finds the command registered under that name |
| Execution.ResolveOf | src/dshell/Deveel.Console.Commands/CommandDispatcher.cs:419-438 | text that needs no stripping resolves to its completed name's command, with the arguments taken from the text after the name |
| Execution.FireExecuted | src/dshell/Deveel.Console/ApplicationSettings.cs:16-20 | the executed event is appended to the trace and, when settings exist, the last-command variable then holds the trimmed command text; nothing else changes |
| Execution.Report | src/dshell/Deveel.Console.Commands/CommandDispatcher.cs:449-475 | success writes nothing; a failure writes the offending command only in batch mode; a syntax error writes the usage lines when a synopsis exists and a syntax-error line otherwise |
| Execution.ExecuteCommand | src/dshell/Deveel.Console.Commands/CommandDispatcher.cs:403-485 | the trace only grows, settings neither appear nor vanish, and the alias in-flight list is empty again once a top-level command returns |
| Execution.ExecuteCommandOutcome | src/dshell/Deveel.Console.Commands/CommandDispatcher.cs:403-447 | unresolved text changes nothing; a context-requiring command without an isolated context writes only the refusal; otherwise the executing event comes first and the last-command variable ends up holding the trimmed text |
| Execution.Perform | src/dshell/Deveel.Console.Commands/CommandDispatcher.cs:445-483 | the executing event is written first and the executed event follows, whether the command returns or throws; the last-command variable holds the trimmed text |
| Execution.Run | src/dshell/Deveel.Console.Commands/CommandDispatcher.cs:446 | running any command, built-in, aliased or external, only appends to the trace, keeps settings present or absent, and leaves an empty in-flight list empty; alias, unalias and set-property run as written, against the alias table as the constructor leaves it |
| Execution.RunUnaliasDispatched | src/dshell/Deveel.Console.Commands/UnaliasCommand.cs:22-38 | an unalias invocation with any argument, dispatched, leaves the shell exactly as it was and reports Success |
| Execution.RunAliased | src/dshell/Deveel.Console.Commands/CommandAliases.cs:158-177 | a name no longer in the table throws KeyNotFound; with the table's dispatcher field null the first write throws NullReference and nothing changes; otherwise an alias already in flight writes the recursion message, clears the list and fails, and any other alias gives Success whatever the expansion did, with the in-flight list empty afterwards |
| Execution.Redispatch | src/dshell/Deveel.Console.Commands/CommandAliases.cs:170-176 | past the dispatcher-field dereference, which RunAliased guards: the re-dispatched expansion leaves the in-flight list empty and only appends to the trace |
| Execution.RunAliasedOutcome | src/dshell/Deveel.Console.Commands/CommandAliases.cs:170-176 | an alias not in flight throws NullReference and changes nothing when the dispatcher field is null; otherwise it first writes "execute alias: " with the expansion, a space and the arguments, and returns Success |
| Execution.AliasExpansionAsWritten | src/dshell/Deveel.Console.Commands/AliasCommand.cs:27-43 | as written the expansion is the second argument alone, with one pair of outer quotes removed; a lone quote throws |
| Execution.AliasExpansion | src/dshell/Deveel.Console.Commands/AliasCommand.cs:27-43 | the expansion is every argument after the name joined by spaces, with one pair of outer quotes removed; a lone quote throws |
| Execution.AliasExpansionExample | src/dshell/Deveel.Console.Commands/AliasCommand.cs:27-61 | "alias size select count(*) from" stores "select" as written and "select count(*) from" as the help text promises |
| Execution.RunAlias | src/dshell/Deveel.Console.Commands/AliasCommand.cs:10-33 | as dispatched (the as-written expansion, the second argument alone): no name or a quoted name is a syntax error; a built-in name is refused; Success exactly when a new alias was added with the dispatcher field set, which then maps to the expansion and is registered as an aliased command; with the field null a new alias enters the table only, the command map, dirty flag and trace are unchanged, and the result is NullReference; re-defining an existing alias throws the duplicate-key error. The same holds with the intended expansion when its flag is set |
| Execution.AliasFailsUnlinked | src/dshell/Deveel.Console.Commands/CommandAliases.cs:9-31 | as dispatched on a table whose dispatcher field is null, `alias <name> <value>` for a new name puts it in the table but not in the command map, writes the NullReference message and reports ExecutionFailed |
| Execution.AliasSucceedsLinked | src/dshell/Deveel.Console.Commands/CommandAliases.cs:27-31 | with the dispatcher field set, the same command maps the name to its aliased command as well and reports Success with nothing else written |
| Execution.UnaliasLoop | src/dshell/Deveel.Console.Commands/UnaliasCommand.cs:26-35 | a cursor that cannot move back leaves the aliases, the messages and the failure count unchanged |
| Execution.RunUnaliasAsWritten | src/dshell/Deveel.Console.Commands/UnaliasCommand.cs:22-38 | the command the dispatcher runs: no argument is a syntax error, and otherwise it only ever appends to the trace and keeps settings and the in-flight list |
| Execution.UnaliasAsWrittenRemovesNothing | src/dshell/Deveel.Console.Commands/UnaliasCommand.cs:22-38 | as written, unalias with any argument leaves the shell exactly as it was and reports Success |
| Execution.UnaliasEach | src/dshell/Deveel.Console.Commands/UnaliasCommand.cs:26-35 | one "unknown alias" message per argument that was not removed, at most one removal per argument, and the in-flight list is untouched |
| Execution.UnaliasEachTable | src/dshell/Deveel.Console.Commands/UnaliasCommand.cs:27-34 | every named alias leaves the table and every other alias stays |
| Execution.UnaliasEachCommands | src/dshell/Deveel.Console.Commands/UnaliasCommand.cs:27-34 | exactly the named names that were aliases leave the command map |
| Execution.UnaliasEachCount | src/dshell/Deveel.Console.Commands/UnaliasCommand.cs:26-37 | something is removed exactly when some argument names an alias |
| Execution.RunUnaliasIntended | src/dshell/Deveel.Console.Commands/UnaliasCommand.cs:22-38 | the corrected command, not the one dispatched, with each removal completing as it does once the table holds its dispatcher: no argument is a syntax error; otherwise the named aliases leave the table and the command map, and the result is Success exactly when one of them was an alias, ExecutionFailed otherwise |
| Execution.RunSet | src/dshell/Deveel.Console.Commands/SetCommand.cs:22-57 | without settings it fails with the message; fewer than two arguments is a syntax error; otherwise the variable holds the value with one pair of outer quotes removed, no other variable appears, disappears or changes its value, and the confirmation lines are written |
| Execution.ExpandVariable | src/dshell/Deveel.Console/ApplicationSettings.cs:79-127 | "$NAME" with a letters-and-digits name that is set substitutes to exactly its value |
| Execution.SetThenSubstitute | src/dshell/Deveel.Console.Commands/SetCommand.cs:44-50 | after "set NAME value" with an unquoted value, "$NAME" substitutes to that value |
| Execution.UnsetEachEffect | src/dshell/Deveel.Console.Commands/UnsetCommand.cs:21-48 | every named variable is removed and nothing else, and the loop reports success exactly when one of them was set |
| Execution.RunUnset | src/dshell/Deveel.Console.Commands/UnsetCommand.cs:31-49 | without settings it fails with the message; no argument is a syntax error; otherwise exactly the named variables are removed and the result is Success exactly when one of them was set |
| Execution.ValueAfterWord | src/dshell/Deveel.Console.Commands/SetPropertyCommand.cs:31-49 | as written, for values made of white space, a word, white space and a rest that starts with no white space, the scan yields the rest: the first word is lost |
| Execution.JoinedWordsAsWritten | src/dshell/Deveel.Console.Commands/SetPropertyCommand.cs:31-49 | as written, two or more plain words joined by spaces scan to the words after the first |
| Execution.PropertyValue | src/dshell/Deveel.Console.Commands/SetPropertyCommand.cs:31-49 | the intended scan: the values are white space followed by the result, and the result starts with no white space |
| Execution.ValueAfterSpace | src/dshell/Deveel.Console.Commands/SetPropertyCommand.cs:31-49 | as intended, white space in front of a value that starts with none scans to that value |
| Execution.PropertyValueOneWord | src/dshell/Deveel.Console.Commands/SetPropertyCommand.cs:31-49 | "set-property p on" stores "" as written and "on" as intended |
| Execution.PropertyValueTwoWords | src/dshell/Deveel.Console.Commands/SetPropertyCommand.cs:31-49 | "set-property p a b" stores "b" as written and "a b" as intended |
| Execution.RunSetProperty | src/dshell/Deveel.Console.Commands/SetPropertyCommand.cs:21-67 | for either scan (the dispatcher uses the as-written one): no argument is a syntax error; a lone quote throws; without a registry it fails with the message; Success exactly when the registry accepts the value, and then the registry is the updated one |
| Execution.PlainValue | src/dshell/Deveel.Console.Commands/SetPropertyCommand.cs:31-54 | plain words joined by spaces and not quote-bounded pass through the value scan unchanged |
| Execution.SetPropertyWordsAsWritten | src/dshell/Deveel.Console.Commands/SetPropertyCommand.cs:21-66 | as dispatched, "set-property name w1 w2 ... wn" on a registered holder succeeds and stores "w2 ... wn": the first value word is lost |
| Execution.SetPropertyWords | src/dshell/Deveel.Console.Commands/SetPropertyCommand.cs:21-66 | with the corrected scan, "set-property name w1 ... wn" on a registered holder succeeds and stores exactly "w1 ... wn" in it |
| Execution.RunSetPropertyStores | src/dshell/Deveel.Console.Commands/SetPropertyCommand.cs:21-66 | for either scan, on a registered holder with a well-formed scanned value the command succeeds and the holder then holds that value |
| Execution.RunResetProperty | src/dshell/Deveel.Console.Commands/ResetPropertyCommand.cs:28-55 | anything but one argument is a syntax error; no registry fails with the message; an unknown name throws; Success exactly for a registered non-null holder, which then holds its default value while the others stay |
| Execution.SetThenReset | src/dshell/Deveel.Console.Commands/ResetPropertyCommand.cs:41-54 | setting a property, with either scan, and then resetting it leaves the holder with its default value, whatever was set |
| Execution.ResetRestores | src/dshell/Deveel.Console.Commands/ResetPropertyCommand.cs:41-54 | resetting a registered holder succeeds and puts its default value back |
| Execution.RunEcho | src/dshell/Deveel.Console.Commands/EchoCommand.cs:21-34 | the arguments joined by spaces are written with one pair of outer quotes removed and the result is Success; a lone quote throws |
| Execution.EchoQuoted | src/dshell/Deveel.Console.Commands/EchoCommand.cs:21-34 | echo of a double-quoted phrase writes the words without the quotes |
| Quoting.StripQuotes | src/dshell/Deveel.Console.Commands/EchoCommand.cs:27-34 | a value starting and ending with the same quote loses exactly that pair, any other value is unchanged, and a lone quote character throws ArgumentOutOfRange |
| Quoting.StripQuoted | src/dshell/Deveel.Console.Commands/AliasCommand.cs:36-43 | wrapping text in a pair of quotes and stripping them gives the text back |
| Quoting.StripUnquoted | src/dshell/Deveel.Console.Commands/SetCommand.cs:44-48 | a value not bounded by one quote character passes through unchanged |
| Settings.SetVariable | src/dshell/Deveel.Console/ApplicationSettings.cs:37-39 | the variable then holds the value and every other variable keeps its presence and value |
| Settings.RemoveVariable | src/dshell/Deveel.Console/ApplicationSettings.cs:41-43 | the variable is gone and every other variable keeps its presence and value |
| Settings.SetRemove | src/dshell/Deveel.Console/ApplicationSettings.cs:37-43 | setting and then removing a variable leaves the others as they were, whether or not it existed before |
| Settings.OnCommandExecuted | src/dshell/Deveel.Console/ApplicationSettings.cs:19-21 | the last-command variable holds the trimmed command text and no other variable appears or disappears |
| Settings.Persisted | src/dshell/Deveel.Console/ShellApplication.cs:390-398 | exactly the variables that are set and not special are written, each with its value |
| Settings.Substitute | src/dshell/Deveel.Console/ApplicationSettings.cs:64-133 | the index-scanning loop returns exactly the token-by-token reference expansion, including the read past the end for a trailing dollar |
| Settings.ScanName | src/dshell/Deveel.Console/ApplicationSettings.cs:98-101 | the scan stops at the end of the run of letters and digits |
| Settings.ScanBrace | src/dshell/Deveel.Console/ApplicationSettings.cs:105-110 | the scan stops at the next closing brace, or at the end of the text when there is none |
| Settings.NoDollar | src/dshell/Deveel.Console/ApplicationSettings.cs:79-131 | text without a dollar expands to itself |
| Settings.QuotedExpandsToItself | src/dshell/Deveel.Console/ApplicationSettings.cs:81-88 | with every dollar doubled, any text expands back to itself whatever variables are set |
| Settings.PlainVariable | src/dshell/Deveel.Console/ApplicationSettings.cs:98-124 | "$NAME" followed by a non-alphanumeric character becomes the variable's value when it is set and stays "$NAME" otherwise |
| Settings.BracedVariable | src/dshell/Deveel.Console/ApplicationSettings.cs:90-124 | "${NAME}" becomes the variable's value when it is set and stays "${NAME}" otherwise |
| Settings.UnclosedBrace | src/dshell/Deveel.Console/ApplicationSettings.cs:111-116 | "${" with no closing brace after it keeps the rest of the text as it is |
| Settings.TrailingDollar | src/dshell/Deveel.Console/ApplicationSettings.cs:79-81 | a dollar at the very end of the text reads past its end and throws IndexOutOfRange |
| Settings.CompleteUserVariableAsWritten | src/dshell/Deveel.Console/ApplicationSettings.cs:49-62 | as written, a text starting with '$' gives a matcher that starts at the smallest of all variable names instead of at the partial name |
| Settings.CompleteUserVariable | src/dshell/Deveel.Console/ApplicationSettings.cs:49-62 | a text starting with '$' gives the set variable names that start with the text after "$" or "${", in ascending order; any other text gives none |
| Settings.CompleteUserVariableAsWrittenMisses | src/dshell/Deveel.Console/ApplicationSettings.cs:49-62 | with variables A and B, completing "$B" as written yields nothing |
| Settings.CompleteUserVariableFinds | src/dshell/Deveel.Console/ApplicationSettings.cs:49-62 | with variables A and B, completing "$B" as intended yields exactly B |
| Settings.Complete | src/dshell/Deveel.Console/ApplicationSettings.cs:143-177 | on a "set" line nothing is offered exactly when the line has more space-separated pieces than the bound (one with a last word, none without); otherwise the set variable names the last word is a prefix of, in ascending order, without those already given to "unset" |
| Properties.MakeEnumerated | src/dshell/Deveel.Console/EnumeratedPropertyHolder.cs:8-11 | the holder is built exactly when no two allowed values are equal up to case; it starts unset and its completer knows exactly the allowed values |
| Properties.IndexIn | src/dshell/Deveel.Console/EnumeratedPropertyHolder.cs:55-62 | the position of the first occurrence of the value, or -1 exactly when it does not occur |
| Properties.OnValueChanged | src/dshell/Deveel.Console/EnumeratedPropertyHolder.cs:25-66 | null throws ArgumentNull; the value is accepted exactly when the trimmed input is a prefix of one allowed value only, which is returned with its index; no match or several matches throw |
| Properties.UniquePrefix | src/dshell/Deveel.Console/EnumeratedPropertyHolder.cs:29-65 | an input whose trimmed text is a prefix of exactly one allowed value selects that value and its index |
| Properties.AmbiguousPrefix | src/dshell/Deveel.Console/EnumeratedPropertyHolder.cs:45-53 | an input whose trimmed text is a prefix of two allowed values is refused |
| Properties.BoolOfIndex | src/dshell/Deveel.Console/BooleanPropertyHolder.cs:19-25 | an index in the upper half of the boolean values means true, and those are exactly "1", "on" and "true" |
| Properties.BoolValuesDistinct | src/dshell/Deveel.Console/BooleanPropertyHolder.cs:19 | the six boolean values are pairwise different up to case, so the boolean holder can be built |
| Properties.BooleanHolder | src/dshell/Deveel.Console/BooleanPropertyHolder.cs:7-9 | an unset enumerated holder over the boolean values with a well-formed completer |
| Properties.BooleanHolderOf | src/dshell/Deveel.Console/BooleanPropertyHolder.cs:11-14 | the holder starts at "true" or "false" as asked |
| Properties.BooleanTrue | src/dshell/Deveel.Console/BooleanPropertyHolder.cs:19-25 | "t" selects "true" at index 5, which means true |
| Properties.BooleanAmbiguous | src/dshell/Deveel.Console/EnumeratedPropertyHolder.cs:45-53 | "o" is refused by the boolean holder because it starts both "off" and "on" |
| Properties.AmbiguousForBoolValues | src/dshell/Deveel.Console/EnumeratedPropertyHolder.cs:45-53 | every well-formed holder over the boolean values refuses "o" |
| Properties.RegisterProperty | src/dshell/Deveel.Console/PropertyRegistry.cs:62-67 | a taken name throws the already-exists error; otherwise exactly that name is added with the holder |
| Properties.UnregisterProperty | src/dshell/Deveel.Console/PropertyRegistry.cs:69-71 | exactly that name is removed |
| Properties.GetProperty | src/dshell/Deveel.Console/PropertyRegistry.cs:81-83 | an unknown name throws KeyNotFound; otherwise the registered holder, which may be null |
| Properties.SetProperty | src/dshell/Deveel.Console/PropertyRegistry.cs:73-79 | an unknown name throws KeyNotFound, a null holder throws the unknown-property error, and otherwise only that holder's value changes |
| Properties.Complete | src/dshell/Deveel.Console/PropertyRegistry.cs:33-54 | after the source command and a property name, an unknown name throws, a null holder gives null, and otherwise the result is the holder's `CompleteValue` of the last word; otherwise the registered names the last word is a prefix of, in ascending order |
| Properties.CompleteValue | src/dshell/Deveel.Console/EnumeratedPropertyHolder.cs:72-74 | a plain holder completes nothing (null); an enumerated one offers, in ascending order, exactly its values that start with the partial value when there are any, falls back to a case-insensitive match otherwise, and gives null only when neither matches |
| Properties.AppRegister | src/dshell/Deveel.Console/ApplicationPropertyRegistry.cs:14-17 | a new name is added and the registry marked dirty; a taken name leaves it unchanged |
| Properties.AppSet | src/dshell/Deveel.Console/ApplicationPropertyRegistry.cs:19-22 | a successful set is the base registry's set and marks it dirty; a failing one leaves it unchanged |
| Properties.AppUnregister | src/dshell/Deveel.Console/ApplicationPropertyRegistry.cs:24-27 | the base registry's removal, marked dirty |
| Properties.WriteEntries | src/dshell/Deveel.Console/ApplicationPropertyRegistry.cs:33-34 | the writes complete exactly when no holder is null, and only the written names appear besides what was there |
| Properties.WriteEntriesContent | src/dshell/Deveel.Console/ApplicationPropertyRegistry.cs:31-34 | after clearing, every holder with a value is saved under its name with that value and a null value removes the name |
| Properties.Save | src/dshell/Deveel.Console/ApplicationPropertyRegistry.cs:29-40 | a clean registry is untouched; a dirty one is written in full and marked clean, unless a null holder throws NullReference first, which leaves it dirty |
| NameCompletion.AddName | src/dshell/Deveel.Console/NameCompleter.cs:40-43 | the name is added exactly when neither it nor its lower-case form is known; a duplicate throws, and when only the lower-case form clashes the name list has already grown; the index keeps mapping lower-case forms to known names |
| NameCompletion.FromNames | src/dshell/Deveel.Console/NameCompleter.cs:26-31 | building succeeds exactly when no two names are equal up to case, and then the completer knows exactly those names and their lower-case forms |
| NameCompletion.GetNames | src/dshell/Deveel.Console/NameCompleter.cs:49-51 | exactly the known names, in ascending ordinal order |
| NameCompletion.Run | src/dshell/Deveel.Console/NameCompleter.cs:96-103 | the enumeration yields a leading run of the tail, every element of which starts with the pattern, and stops at the first one that does not |
| NameCompletion.RunOfTail | src/dshell/Deveel.Console/NameCompleter.cs:74-103 | on the sorted tail from the pattern, the run holds exactly the names starting with the pattern, in ascending order |
| NameCompletion.Pattern | src/dshell/Deveel.Console/NameCompleter.cs:53-66 | when found, the pattern has the partial name's length and equals it up to case, and some known name starts with it |
| NameCompletion.PatternCases | src/dshell/Deveel.Console/NameCompleter.cs:53-66 | a partial name some known name starts with is used as it is; otherwise a pattern exists exactly when some lower-case form starts with the lower-cased partial name |
| NameCompletion.Alternatives | src/dshell/Deveel.Console/NameCompleter.cs:53-67 | the alternatives are null exactly when no name starts with the partial name, not even up to case; otherwise they are every known name starting with the recovered pattern, in ascending order |
| SortedMatch.MoveNext | src/dshell/Deveel.Collections/SortedMatchEnumerator.cs:84-96 | the step skips empty and excluded names, stops with true on a name that starts with the partial match and is not excluded, and stops with false at the end or on the first name that does not start with it |
| SortedMatch.MoveNextMatching | src/dshell/Deveel.Collections/SortedMatchEnumerator.cs:84-96 | each step yields the next element of the reference list: the matching, non-excluded names before the first mismatch |
| SortedMatch.DrainMatching | src/dshell/Deveel.Collections/SortedMatchEnumerator.cs:84-96 | calling the step until it fails yields exactly the reference list of matches before the first mismatch |
| SortedMatch.SortedTailMatching | src/dshell/Deveel.Collections/SortedMatchEnumerator.cs:11-13 | on a sorted tail starting at the partial match, stopping at the first mismatch loses no match |
| SortedMatch.DictionaryMatches | src/dshell/Deveel.Collections/SortedMatchEnumerator.cs:33-35 | over a sorted dictionary the enumeration yields exactly its non-empty, non-excluded keys that start with the partial match, in ascending order |
| SortedMatch.OfDictionary | src/dshell/Deveel.Collections/SortedMatchEnumerator.cs:33-35 | the dictionary constructor starts a fresh enumeration over exactly the keys at or after the partial match, in ascending order |
| SortedMatch.ListMatches | src/dshell/Deveel.Collections/SortedMatchEnumerator.cs:29-31 | over a sorted list the enumeration yields exactly its non-empty, non-excluded keys that start with the partial match, in ascending order |
| SortedMatch.OfList | src/dshell/Deveel.Collections/SortedMatchEnumerator.cs:29-31 | the list constructor starts a fresh enumeration over exactly the keys at or after the partial match, in ascending order |
| SortedMatch.CollectionMatches | src/dshell/Deveel.Collections/SortedMatchEnumerator.cs:25-27 | over a collection with the ordinal comparer the enumeration yields exactly its non-empty, non-excluded elements that start with the partial match, in ascending order |
| SortedMatch.OfCollection | src/dshell/Deveel.Collections/SortedMatchEnumerator.cs:25-27 | building the tail copy fails exactly when the comparer finds a repeated element; otherwise a fresh enumeration starts over exactly the elements the comparer places at or after the partial match, in ascending order |
| SortedMatch.Current | src/dshell/Deveel.Collections/SortedMatchEnumerator.cs:60-69 | the current match with the prefix in front and the suffix behind, each only when set |
| SortedMatch.CurrentAfterMove | src/dshell/Deveel.Collections/SortedMatchEnumerator.cs:60-96 | after a successful step the reported text is the prefix, the match and the suffix, and it starts with the prefix and the partial match |
| SortedMatch.Reset | src/dshell/Deveel.Collections/SortedMatchEnumerator.cs:98-101 | the current match is cleared and the enumeration goes back to its start, with nothing else changed |
| SortedMatch.ResetReplays | src/dshell/Deveel.Collections/SortedMatchEnumerator.cs:98-101 | after a reset the enumeration yields the same matches as a fresh one |
| Subsets.InRangeOrder | src/dshell/Deveel.Collections/SubsetDictionary.cs:13-19 | under the ordinal comparer both bounds of a subset are inclusive and a missing bound does not restrict |
| Subsets.Range | src/dshell/Deveel.Collections/SubsetDictionary.cs:10-22 | the subset holds exactly the entries of the dictionary whose keys are within the bounds |
| Subsets.Tail | src/dshell/Deveel.Collections/SubsetDictionary.cs:95-97 | the tail holds exactly the entries whose keys are at or after the start |
| Subsets.Head | src/dshell/Deveel.Collections/SubsetDictionary.cs:99-101 | the head holds exactly the entries whose keys are at or before the end |
| Subsets.RangeGet | src/dshell/Deveel.Collections/SubsetDictionary.cs:24-26 | looking a key up in the subset gives the dictionary's value when the key is within the bounds and nothing otherwise |
| Subsets.RangeKeys | src/dshell/Deveel.Collections/SubsetDictionary.cs:33-35 | the subset's keys are the dictionary's keys within the bounds |
| Subsets.MutateRangeRefused | src/dshell/Deveel.Collections/SubsetDictionary.cs:28-84 | any add, remove, set or clear tried on the copy of a key range throws NotSupported, and the copy still holds exactly the keys of the original that lie in the range |
| Subsets.RangeOfList | src/dshell/Deveel.Collections/SubsetList.cs:47-60 | the subset holds exactly the list's keys within the bounds, each as its own value |
| Subsets.RangeOfCollection | src/dshell/Deveel.Collections/SubsetList.cs:62-75 | building succeeds exactly when no in-bounds element is repeated, a repeat throwing the duplicate-key error; the subset then holds exactly the in-bounds elements |
| Subsets.TailOfList | src/dshell/Deveel.Collections/SubsetList.cs:77-79 | contains exactly the list's keys at or after the start |
| Subsets.TailOfCollection | src/dshell/Deveel.Collections/SubsetList.cs:81-83 | building succeeds exactly when no element at or after the start is repeated, and then contains exactly those elements |
| Separator.Appended | src/dshell/Deveel.Console.Commands/CommandSeparator.cs:79-80 | a token's character is appended unless it is the null character, so the command never receives one |
| Separator.Feed | src/dshell/Deveel.Console.Commands/CommandSeparator.cs:71-84 | the re-feed loop ends at once unless the parser asks to continue, and appends no null character |
| Separator.FeedFuel | src/dshell/Deveel.Console.Commands/CommandSeparator.cs:71-84 | once the re-feed loop ends within some bound, any larger bound gives the same outcome |
| Separator.Drive | src/dshell/Deveel.Console.Commands/CommandSeparator.cs:61-97 | the loop stops at a potential end or when the input is used up, consumes at least one character when it runs, and only extends the command |
| Separator.DriveRest | src/dshell/Deveel.Console.Commands/CommandSeparator.cs:61-101 | what the loop leaves unread is a suffix of its input |
| Separator.DriveUnfold | src/dshell/Deveel.Console.Commands/CommandSeparator.cs:64-96 | one character is canonicalised, fed, post-parsed and appended, and the newline flag then keeps only white space |
| Separator.DriveNewline | src/dshell/Deveel.Console.Commands/CommandSeparator.cs:64-69 | the newline flag is set exactly when it was set before or a consumed character was a line break, '\r' counting as one |
| Separator.ParsePartialInput | src/dshell/Deveel.Console.Commands/CommandSeparator.cs:33-103 | the input only shrinks, the parse ends at a potential end or with the input used up, and makes progress when it runs |
| Separator.ParseRest | src/dshell/Deveel.Console.Commands/CommandSeparator.cs:33-103 | the input left after a parse is a suffix of the input before it |
| Separator.BeginDrops | src/dshell/Deveel.Console.Commands/CommandSeparator.cs:45-56 | a new statement clears the command and drops exactly the leading white space; any other state starts as it was |
| Separator.Current | src/dshell/Deveel.Console.Commands/CommandSeparator.cs:15-21 | the command is available exactly at a potential end; otherwise it throws InvalidOperation |
| Separator.MoveNext | src/dshell/Deveel.Console.Commands/CommandSeparator.cs:137-145 | at a potential end it throws; with no input it reports false and changes nothing; otherwise it reports true exactly when a statement end was found, which consumes input, and keeps the stack |
| Separator.MoveNextRest | src/dshell/Deveel.Console.Commands/CommandSeparator.cs:137-145 | the input left after a step is a suffix of the input before it |
| Separator.Append | src/dshell/Deveel.Console.Commands/CommandSeparator.cs:119-121 | the text is added at the end of the input and nothing else changes |
| Separator.Discard | src/dshell/Deveel.Console.Commands/CommandSeparator.cs:123-127 | input and command are emptied and a new statement begins; the newline flag and the stack stay |
| Separator.Cont | src/dshell/Deveel.Console.Commands/CommandSeparator.cs:129-131 | only the state changes, to Start |
| Separator.Consumed | src/dshell/Deveel.Console.Commands/CommandSeparator.cs:133-135 | only the state changes, to NewStatement |
| Separator.Push | src/dshell/Deveel.Console.Commands/CommandSeparator.cs:110-113 | the current state is saved on the stack and a fresh one begins |
| Separator.Pop | src/dshell/Deveel.Console.Commands/CommandSeparator.cs:115-117 | an empty stack throws InvalidOperation; otherwise the saved state comes back and the stack shrinks by one |
| Separator.PushPop | src/dshell/Deveel.Console.Commands/CommandSeparator.cs:110-117 | a pop after a push restores the separator exactly |
| Separator.AppendAppend | src/dshell/Deveel.Console.Commands/CommandSeparator.cs:119-121 | appending two texts one after the other is appending them joined |
| Separator.StatementEnd | src/dshell/Deveel.Console.Commands/CommandSeparator.cs:15-21 | after a step that found an end, the command can be read, and after Cont or Consumed the next step no longer throws |
| Separator.BlankInput | src/dshell/Deveel.Console.Commands/CommandSeparator.cs:45-59 | input of white space only at a new statement ends at once with an empty command and no input left |
| Separator.DriveThroughSemicolon | src/dshell/Deveel.Console.Commands/CommandSeparator.cs:61-101 | with a parser that ends statements at ';', the loop stops just after the first ';' with everything up to it in the command |
| Separator.DriveNoSemicolon | src/dshell/Deveel.Console.Commands/CommandSeparator.cs:61-101 | with that parser and no ';' in the input, all of it goes into the command and the statement stays open |
| Separator.SplitsAtSemicolon | src/dshell/Deveel.Console.Commands/CommandSeparator.cs:137-145 | a step over input containing ';' yields the text up to and including the first ';' as the statement and keeps the rest as input |
| Separator.UnfinishedWithoutSemicolon | src/dshell/Deveel.Console.Commands/CommandSeparator.cs:137-145 | a step over input without ';' reports no end and holds all of it as the unfinished command |
| Shell.EscapeChar | src/dshell/Deveel.Console/ShellApplication.cs:248-257 | only a backslash or a line break gains a backslash in front; every character is kept |
| Shell.EscapeHistoryLine | src/dshell/Deveel.Console/ShellApplication.cs:243-264 | a line with neither a backslash nor a line break is kept as it is |
| Shell.EscapeIsEscapeAll | src/dshell/Deveel.Console/ShellApplication.cs:243-264 | the shortcut for lines needing no escape agrees with escaping every character |
| Shell.Entry | src/dshell/Deveel.Console/ShellApplication.cs:212-215 | a line is added to the history exactly when it is not empty |
| Shell.DecodeHistory | src/dshell/Deveel.Console/ShellApplication.cs:196-218 | the loaded history holds no empty entry |
| Shell.DecodeEscaped | src/dshell/Deveel.Console/ShellApplication.cs:201-211 | reading an escaped text without '\r' gives the text back |
| Shell.HistoryRoundTrip | src/dshell/Deveel.Console/ShellApplication.cs:196-264 | a non-empty line without '\r', escaped and ended with "\n" or "\r\n", loads back as exactly that line |
| Shell.WriteHistory | src/dshell/Deveel.Console/ShellApplication.cs:196-232 | when no entry holds a '\r', writing a history and loading it back gives its non-empty entries, in order |
| Shell.LoadHistory | src/dshell/Deveel.Console/ShellApplication.cs:196-218 | a file with no backslash and no '\r' loads as its non-empty lines, in order |
| Shell.StoreHistoryLine | src/dshell/Deveel.Console/ShellApplication.cs:266-275 | the trimmed line is stored and remembered exactly when it is not empty and differs from the previous one |
| Shell.StoreKeeps | src/dshell/Deveel.Console/ShellApplication.cs:266-275 | a history built by storing lines has only trimmed non-empty entries and never the same line twice in a row |
| Shell.Substituted | src/dshell/Deveel.Console/ShellApplication.cs:425-426 | without settings the statement is left as it is |
| Shell.Handle | src/dshell/Deveel.Console/ShellApplication.cs:424-448 | an unknown command is consumed, an incomplete one continues the statement, and a complete one runs trimmed after substitution; the input and stack are untouched |
| Shell.Statements | src/dshell/Deveel.Console/ShellApplication.cs:423-451 | every statement of the input is handled with the settings and dispatcher the earlier statements left, the input is used up, the result code follows the statements' outcomes, and the shell is the one left by executing the statements that ran, in order |
| Shell.ExecuteLine | src/dshell/Deveel.Console/ShellApplication.cs:414-457 | without a separator the line runs as one command on the dispatcher and counts as executed; with one, the whole line is consumed and the statements that ran are executed in order |
| Shell.NothingEnds | src/dshell/Deveel.Console/ShellApplication.cs:414-451 | a line in which no statement ends runs nothing, leaves the shell unchanged and is incomplete |
| Shell.ExecuteAll | src/dshell/Deveel.Console/ShellApplication.cs:442-447 | executing statements one after another only appends to the output trace and never adds or drops the settings |
| Shell.ExecuteCons | src/dshell/Deveel.Console/ShellApplication.cs:442-447 | executing the statements of a longer run is executing the first one, if it ran, on the current shell and the rest on the shell it leaves |
| Shell.SettleExecuted | src/dshell/Deveel.Console/ShellApplication.cs:430-448 | the line counts as executed exactly when a statement ran with no unfinished one after it, or it was executed before and nothing was left unfinished |
| Shell.SettleIncomplete | src/dshell/Deveel.Console/ShellApplication.cs:421-441 | the line is incomplete exactly when its last statement was left unfinished, or no statement ended at all |
| Shell.LineEmpty | src/dshell/Deveel.Console/ShellApplication.cs:430-438 | starting incomplete, the line ends empty exactly when some statement ended, the last one was not left unfinished, and none ran after the last unfinished one |
| Shell.RunStatementsRan | src/dshell/Deveel.Console/ShellApplication.cs:442-447 | exactly the statements handed to the command are run |
| TimeRenderer.QuotRemainder | src/dshell/Deveel.Console/TimeRenderer.cs:16-17 | the long division truncates toward zero: the remainder is smaller than the divisor in size and has the dividend's sign |
| TimeRenderer.QuotUnique | src/dshell/Deveel.Console/TimeRenderer.cs:16-17 | a quotient with a remainder of that kind is the truncating quotient |
| TimeRenderer.FractionIsThousandths | src/dshell/Deveel.Console/TimeRenderer.cs:11-19 | the milliseconds and microseconds per item together are the time in microseconds divided by the number of items |
| TimeRenderer.HoursField | src/dshell/Deveel.Console/TimeRenderer.cs:61-66 | the field is empty exactly when the time is at most one hour; otherwise it is decimal digits that read back as the whole hours `ms / 3600000`, followed by "h " |
| TimeRenderer.Two | src/dshell/Deveel.Console/TimeRenderer.cs:68-84 | a minute or second count is written in digits only |
| TimeRenderer.TwoValue | src/dshell/Deveel.Console/TimeRenderer.cs:68-84 | the digits read back as the count, and a padded count below 100 takes exactly two of them |
| TimeRenderer.Millis | src/dshell/Deveel.Console/TimeRenderer.cs:86-92 | the milliseconds are written in digits only |
| TimeRenderer.MillisValue | src/dshell/Deveel.Console/TimeRenderer.cs:86-92 | milliseconds below 1000 take exactly three digits that read back as their value |
| TimeRenderer.PrintTime | src/dshell/Deveel.Console/TimeRenderer.cs:55-120 | no time at all renders as "0 sec" |
| TimeRenderer.RenderTime | src/dshell/Deveel.Console/TimeRenderer.cs:22-115 | a time under a second renders as its milliseconds followed by " m" |
| TimeRenderer.PrintFraction | src/dshell/Deveel.Console/TimeRenderer.cs:11-19 | no items give " -- "; otherwise the time per item is written as whole milliseconds and the microseconds left over, which together make the truncated quotient of the time in microseconds by the count |
| TimeRenderer.TwoSeconds | src/dshell/Deveel.Console/TimeRenderer.cs:79-113 | two seconds render as "2.0000  " |
| TimeRenderer.SecondsReadBack | src/dshell/Deveel.Console/TimeRenderer.cs:79-113 | from one second up to a minute the text is seconds, a dot and three millisecond digits, which read back as the time |
| TimeRenderer.HoursReadBack | src/dshell/Deveel.Console/TimeRenderer.cs:61-111 | above an hour the text is hours, two-digit minutes and seconds and three millisecond digits ending in "s", which read back as the time |
| TimeRenderer.HoursShown | src/dshell/Deveel.Console/TimeRenderer.cs:61-119 | the text contains an 'h' exactly when the time is above a full hour |
| Table.Repeat | src/dshell/Deveel.Console/TableRenderer.cs:126-137 | n copies of the fill character |
| Table.FormatLength | src/dshell/Deveel.Console/TableRenderer.cs:105-140 | `FormatString`: the text, "[NULL]" for null, is padded to the requested length capped at 4000, and never cut |
| Table.FormatLayout | src/dshell/Deveel.Console/TableRenderer.cs:105-140 | `FormatString`: left alignment pads after the text, right before it, and centre puts the larger half of the padding before it |
| Table.WritePass | src/dshell/Deveel.Console/TableRenderer.cs:156-181 | the text written is, column by column, a space, the shown column's next line padded to its width and the separator, and nothing for a hidden column; every shown cell advances by one line and the other cells stay; another line is asked for exactly when some shown cell still has a line after this one, and then fewer lines are pending |
| Table.RowLines | src/dshell/Deveel.Console/TableRenderer.cs:204-213 | a row takes at least one output line and is written until none of its shown columns has an unread line |
| Table.RowReadWritesOneLine | src/dshell/Deveel.Console/TableRenderer.cs:207-211 | a row whose shown columns are all read takes exactly one output line |
| Table.NewRenderer | src/dshell/Deveel.Console/TableRenderer.cs:8-21 | the renderer starts with no cached rows, nothing flushed or written, and the separator preceded by a space |
| Table.SetColumnSeparator | src/dshell/Deveel.Console/TableRenderer.cs:63-69 | the separator is stored with a space in front and its own width, and nothing else changes |
| Table.Header | src/dshell/Deveel.Console/TableRenderer.cs:87-101 | the header is a rule, the captions and the same rule again |
| Table.CacheLines | src/dshell/Deveel.Console/TableRenderer.cs:204-214 | every cached row takes at least one output line and is left fully read |
| Table.Flush | src/dshell/Deveel.Console/TableRenderer.cs:197-215 | the header comes first on the first flush only when enabled, every cached row is written and counted, and the cache is kept |
| Table.FlushTwice | src/dshell/Deveel.Console/TableRenderer.cs:197-215 | a second flush writes the cached rows again, one line each, and counts them again |
| Table.UpdateColumnWidths | src/dshell/Deveel.Console/TableRenderer.cs:150-154 | each column widens to its cell's width; a row shorter than the columns throws IndexOutOfRange after widening the columns it covers |
| Table.AddRow | src/dshell/Deveel.Console/TableRenderer.cs:142-148 | a full row widens the columns and is cached; the cache is flushed and cleared once it reaches 500 rows; a short row throws without being cached |
| Table.AddRowKeepsValid | src/dshell/Deveel.Console/TableRenderer.cs:142-188 | adding rows keeps the cache below 500 rows and every column at least as wide as its caption |
| Table.CloseTable | src/dshell/Deveel.Console/TableRenderer.cs:190-195 | the cache is flushed, then the closing rule follows only when some row was written and the footer is enabled |
| Table.FooterWhenRowsWritten | src/dshell/Deveel.Console/TableRenderer.cs:190-195 | closing adds exactly one line after the flush when rows were written and the footer is on, and none otherwise |
| Columns.MaxLength | src/dshell/Deveel.Console/ColumnValue.cs:11-22 | the longest line's length: no line is longer and one line reaches it |
| Columns.FromText | src/dshell/Deveel.Console/ColumnValue.cs:6-25 | a null text gives a null cell; otherwise the lines hold no line break and joined with '\n' give the text back |
| Columns.FromInt | src/dshell/Deveel.Console/ColumnValue.cs:27-29 | a number is one line holding its decimal text |
| Columns.Width | src/dshell/Deveel.Console/ColumnValue.cs:42-44 | a null cell is six wide; otherwise the width bounds every line and one line reaches it |
| Columns.GetNextLine | src/dshell/Deveel.Console/ColumnValue.cs:56-66 | every call moves the cell on by one and keeps its lines |
| Columns.ReadLinesText | src/dshell/Deveel.Console/ColumnValue.cs:56-66 | successive reads return the next lines in order and then empty lines |
| Columns.ReadAll | src/dshell/Deveel.Console/ColumnValue.cs:6-66 | reading every line of a fresh cell and joining them gives the text back, and no line is left |
| Columns.ReadNull | src/dshell/Deveel.Console/ColumnValue.cs:52-66 | a null cell reads "[NULL]" once, then empty lines, and never has a next line |
| Columns.NewColumn | src/dshell/Deveel.Console/ColumnDesign.cs:6-13 | a new column is as wide as its caption and shown |
| Columns.DefaultColumn | src/dshell/Deveel.Console/ColumnDesign.cs:15-21 | the caption-only column is left aligned with no automatic wrap |
| Columns.SetWidth | src/dshell/Deveel.Console/ColumnDesign.cs:40-46 | the width only ever grows, to the larger of the old width and the value, and nothing else changes |
| Columns.SetDisplay | src/dshell/Deveel.Console/ColumnDesign.cs:35-38 | only the shown flag changes, to the value given |
| Columns.SetAutoWrap | src/dshell/Deveel.Console/ColumnDesign.cs:56-59 | only the wrap column changes, to the value given |
| Columns.ResetWidth | src/dshell/Deveel.Console/ColumnDesign.cs:63-65 | the width goes back to the caption's width |
| Columns.SetWidthTwice | src/dshell/Deveel.Console/ColumnDesign.cs:40-46 | two widenings leave the largest of the starting width and both values |
| Questions.NewQuestion | src/dshell/Deveel.Console/Question.cs:9-15 | a new question keeps its text, options and default, and expects a single answer |
| Questions.SetDefaultOption | src/dshell/Deveel.Console/Question.cs:25-33 | the default is changed exactly when the value lies between 0 and the number of options, both included; otherwise ArgumentOutOfRange is thrown |
| Questions.SetMaxSelected | src/dshell/Deveel.Console/Question.cs:35-42 | the maximum is changed exactly when it does not exceed the number of options; otherwise ArgumentException is thrown with the default message |
| Questions.SetSingleOption | src/dshell/Deveel.Console/Question.cs:44-47 | setting it expects one answer, clearing it expects as many as there are options, and nothing else changes |
| Questions.CheckSelection | src/dshell/Deveel.Console/Question.cs:56-64 | the check passes exactly when every index is a valid option and no index repeats; otherwise the first bad index decides: ArgumentOutOfRange exactly when it names no option, ArgumentException exactly when it repeats an earlier one |
| Questions.MakeAnswer | src/dshell/Deveel.Console/Question.cs:49-67 | an answer is made exactly for a non-empty selection of distinct valid option indices within the maximum, and it is valid and holds that selection; an empty or too long selection throws ArgumentOutOfRange |
| Questions.MakeAnswerOne | src/dshell/Deveel.Console/Question.cs:69-71 | one index is accepted exactly when it is a valid option and at least one answer is allowed |
| Questions.SelectedOption | src/dshell/Deveel.Console/Answer.cs:23-25 | the single selected index, -1 when the selection is not exactly one, and NullReference for an answer without a selection |
| Questions.SelectedOptions | src/dshell/Deveel.Console/Answer.cs:27-29 | a copy of the selection, or NullReference without one |
| Questions.OptionsAt | src/dshell/Deveel.Console/Answer.cs:31-38 | the options at the selected indices, in order, or IndexOutOfRange when an index is not a valid option |
| Questions.SelectedValues | src/dshell/Deveel.Console/Answer.cs:31-38 | the selected options, or NullReference for an answer without a selection |
| Questions.SelectedValue | src/dshell/Deveel.Console/Answer.cs:41-46 | NullReference without a selection; null when the selection is not exactly one index or is the single index -1; the option itself for a single valid index; IndexOutOfRange for any other single index |
| Questions.AcceptedAnswerReadsBack | src/dshell/Deveel.Console/Answer.cs:23-46 | an accepted answer gives back its selection, the options at those indices, and a single value exactly when one index was chosen |
| Questions.ParseInt32 | src/dshell/Deveel.Console/Question.cs:132 | a parsed number lies in the 32-bit signed range |
| Questions.ParseNatText | src/dshell/Deveel.Console/Question.cs:132 | the decimal text of any number up to the 32-bit maximum parses back to that number |
| Questions.FindOption | src/dshell/Deveel.Console/Question.cs:136-142 | the first option equal to the text up to case, or none when no option is |
| Questions.ReadPart | src/dshell/Deveel.Console/Question.cs:128-146 | in the numbered layout a part that parses as a 32-bit number is read as that number minus one, wrapped into the 32-bit range; any other part is read exactly when its trimmed text names an option up to case, and then as the first such option's index |
| Questions.Decrement32 | src/dshell/Deveel.Console/Question.cs:133 | the result lies in the 32-bit range and agrees with the number minus one modulo 2^32, and is exactly the number minus one above the least value |
| Questions.ParseNegativeText | src/dshell/Deveel.Console/Question.cs:132 | a minus sign before the decimal text of any count from 1 to 2^31 parses back to its negation |
| Questions.LeastNumberWraps | src/dshell/Deveel.Console/Question.cs:132-133 | the reply "-2147483648" in the numbered layout is read as the index 2147483647 |
| Questions.ReadParts | src/dshell/Deveel.Console/Question.cs:126-149 | the reply is read exactly when every part is, one index per part in order |
| Questions.ReadReplyAsWritten | src/dshell/Deveel.Console/Question.cs:116-151 | as written, the answer is for the question asked; it is valid exactly when it holds a selection, exactly when the reply is non-empty, splits at commas into no more parts than there are options or than may be chosen, and every part is read; its selection is then the parts' readings, in order |
| Questions.ReplyZeroAccepted | src/dshell/Deveel.Console/Question.cs:132-151 | as written, the reply "0" in the numbered layout is a valid answer selecting index -1, whose values then throw IndexOutOfRange |
| Questions.ReadReply | src/dshell/Deveel.Console/Question.cs:116-151 | a valid answer holds a non-empty selection of distinct valid option indices within the maximum, and agrees with the reading as written |
| Questions.ReadReplyAgrees | src/dshell/Deveel.Console/Question.cs:116-151 | whenever the reading as written yields a proper selection, the corrected reading yields the same answer |
| Questions.NumbersReadBack | src/dshell/Deveel.Console/Question.cs:116-151 | in the numbered layout, replying with the option numbers of any valid selection, comma-separated, gives back exactly that selection |
| Questions.PromptAsWritten | src/dshell/Deveel.Console/Question.cs:73-114 | as written, the one-line prompt with no default lists the first option once for each option, separated by ", ", between " [" and "] : " |
| Questions.Prompt | src/dshell/Deveel.Console/Question.cs:73-114 | the corrected one-line prompt with no default lists every option in order, separated by ", ", between " [" and "] : " |
| Questions.PromptRepeatsFirst | src/dshell/Deveel.Console/Question.cs:79-114 | as written, the one-line prompt of "Go?" with two options names the first twice, so yes and no give "Go? [yes, yes] : " where "Go? [yes, no] : " is meant |
| Questions.PromptListsOptions | src/dshell/Deveel.Console/Question.cs:101-110 | without a default, the corrected one-line prompt lists every option in order, separated by ", " |

## Left out

- Tab-completion handler (`CommandDispatcher.OnTabComplete`): a keystroke callback into an external line-editing library that keeps enumerator state between calls. The completion functions it calls are modelled.
- Shell run loop and lifecycle (`ShellApplication.Run`, prompts, devices, plugin and settings file loading, command-line options, `Exit`/`Shutdown`): console I/O and process control. Only the pure helpers of the line driver are modelled.
- `ConfigurationFile`: file I/O, temporary files and digests. It is modelled as a plain key-to-value map.
- Reflection-based registration (`Register(Type)`, `CommandWrapper`, plugins and attribute classes): commands are plain descriptor values instead.
- Signal handling: it relies on operating-system signals and P/Invoke.
- Dispatching.Register: the push of an interruptible command onto the application's interruption handler (CommandDispatcher.cs lines 260-261) is not modelled, because that handler only serves signal handling, which is left out.
- Dispatching.Unregister: a command outside the built-ins is named by its kind number in the refusal message, because its .NET type name is not part of the model.
- Execution.RunUnaliasIntended: the corrected half of the unalias finding takes the alias-table correction as well; each removal completes (Dispatching.RemoveEntries). With the as-written null field the first removal would throw, which Dispatching.RemoveAlias states.
- `AliasedCommand.LongDescription` (help text, which also reads the null dispatcher field) is not modelled, as help output is left out.
- Shell.ExecuteLine: a command's own `Execute` is the oracle that Execution.ExecuteCommand takes, so what a non-built-in statement does to the shell is only as known as that oracle.
- Terminal plumbing (output devices, line wrapping, input devices, cancel and progress writers, spooling): output is a trace of lines. The table renderer's bold and grey styling is dropped and its writes become lines.
- Printing-only and process-control commands (`help`, `show`, `show-property`, `variables`, `aliases`, `exit`) and the context-property subclasses, whose only effect is `RequiresContext`, which the dispatcher guard covers.
- Culture-sensitive comparison, `StartsWith`, `ToLower` and case-insensitive `String.Compare`: ordinal order and ASCII lower-casing instead. Warnings written straight to the process error stream are not modelled.
- src/dshell/Deveel.Console/ColumnAlignment.cs is not part of this model beyond its three values; alignment does not change any width.
- `Environment.NewLine` is a parameter of the history encoder and decoder.
- Separator.Feed: the re-feed loop carries a `fuel` bound because a transition function may ask to continue for ever. `None` stands for running out, and Separator.FeedFuel shows that more fuel never changes a reached result.
- Separator.Drive: the same fuel bound applies to every character it feeds.
- Execution.ExecuteCommand: states only frame properties (the trace grows, settings persist and the in-flight list is cleared), because a non-built-in command's `Execute` is an oracle. The built-ins have their own members.
- Execution.Run: frame properties only, for the same reason.
- TimeRenderer.PrintTime: its own contract states only the zero case. The field-by-field shape is stated by TimeRenderer.RenderTime, TimeRenderer.TwoSeconds, TimeRenderer.SecondsReadBack, TimeRenderer.HoursReadBack and TimeRenderer.HoursShown. The 64-bit `long` overflow of very large durations is not modelled.
- Shell.Substituted: its contract covers only the no-settings case. Substitution itself is stated by Settings.Substitute and its lemmas.
- Shell.EscapeHistoryLine: its own contract covers lines with nothing to escape. The round trip is Shell.HistoryRoundTrip.
- Settings.Substitute: a variable name is scanned with `Strings.IsLetterOrDigit`, which accepts ASCII letters and digits only, while `Char.IsLetterOrDigit` (ApplicationSettings.cs line 100) also accepts Unicode letters and digits. So "$café" names the variable "caf" here but "café" in the source. The same restriction applies to Settings.ScanName, Settings.PlainVariable and Execution.ExpandVariable.
- Wrappers.Describe: the text an exception is reported with is its type name, ": " and its message only. The stack trace that `e.ToString()` appends (CommandDispatcher.cs line 481) is dropped, and the `ArgumentNullException` message puts a space where .NET puts a newline before "Parameter name".
- Questions.ParseInt32: models `Int32.TryParse` on an already-trimmed part with an optional sign and decimal digits. It ignores culture, thousands separators and inner white space.
- Flushing the table renderer does not clear its row cache, so a later `CloseTable` writes the cached rows again. Table.FlushTwice states this as the code has it; the model does not change it.

## Findings

| source | as written | input that shows it | evidently intended | confidence | as-written member | corrected member |
|---|---|---|---|---|---|---|
| src/dshell/Deveel.Console.Commands/CommandAliases.cs:84-93 | both word-skipping loops test `param.Length < i`, which is false at `i = 0`, so nothing is skipped | once the dispatcher field is set (as written it is null, and line 45 throws NullReference before these loops run; see the row for line 11), completing "ls foo" with alias ls = "tables" hands "tablesls foo" to the completer | the loops test `i < param.Length`, so the completer sees "tables foo" | not executed | Dispatching.DelegatedTextExample | Dispatching.DelegatedTextReplacesWord |
| src/dshell/Deveel.Console.Commands/CommandAliases.cs:11 | the constructor writes `dispatcher = dispatcher;`, assigning the parameter to itself, so the readonly field stays null and `AddAlias`, `RemoveAlias`, `Complete` and `AliasedCommand.Execute` throw NullReference when they reach it | `alias x y` on a new shell puts x in the alias table but not in the command map, writes the NullReference message and reports ExecutionFailed; a second `alias x z` then throws the duplicate-key error | assign the field (`this.dispatcher = dispatcher`), so x is registered as an aliased command and the result is Success | not executed | Execution.AliasFailsUnlinked | Execution.AliasSucceedsLinked |
| src/dshell/Deveel.Console.Commands/UnaliasCommand.cs:27 | the loop is driven by `MoveBack` on a fresh cursor, which fails at once, so no alias is ever removed and the result is Success | "unalias ls" with alias ls defined leaves ls defined | each argument is visited and the named aliases are removed | not executed | Execution.RunUnaliasDispatched | Execution.RunUnaliasIntended |
| src/dshell/Deveel.Console.Commands/SetPropertyCommand.cs:31-49 | the scan skips a leading word of the joined values although the property name was already removed from them | "set-property p a b" stores "b"; "set-property p on" stores "" | the value is all the remaining words, "a b" and "on" | not executed | Execution.SetPropertyWordsAsWritten | Execution.SetPropertyWords |
| src/dshell/Deveel.Console/ApplicationSettings.cs:58 | the matcher starts at the smallest variable name instead of at the partial name, and stops at the first name that does not match | with variables A and B, "$B" completes to nothing | start the range at the partial name, so "$B" completes to "$B" | not executed | Settings.CompleteUserVariableAsWrittenMisses | Settings.CompleteUserVariableFinds |
| src/dshell/Deveel.Console.Commands/AliasCommand.cs:30 | the expansion is the current argument alone, although the comment says the rest of the values | "alias size select count(*) from" stores "select" | store every remaining argument joined by spaces | not executed | Execution.AliasExpansionExample | Execution.AliasExpansion |
| src/dshell/Deveel.Console/Question.cs:132-148 | a numbered reply is accepted as parsed, with no range check and no duplicate check | the reply "0" selects index -1, whose value then throws | accept only numbers 1 to the option count, each once | not executed | Questions.ReplyZeroAccepted | Questions.NumbersReadBack |
| src/dshell/Deveel.Console/Question.cs:107 | the one-line prompt writes `options[0]` for every option | "Go?" with yes and no prompts "Go? [yes, yes] : " | write `options[i]`, giving "Go? [yes, no] : " | not executed | Questions.PromptAsWritten | Questions.Prompt |
